/** The Server-Sent Events the chat relay writes. Each event is one JSON
    object on a `data: ` line followed by a blank line, the subset of the
    event-stream format of section 9.2 (Server-sent events) of the WHATWG HTML
    Living Standard that server and client share. */
module Events {
  import opened Text
  import Json

  datatype Event =
    | Content(text: string)      // `{ content }`: one upstream text fragment
    | ImageUrl(url: string)      // `{ imageUrl }`: a generated image as a data URI
    | Done                       // `{ done: true }`: the reply is complete
    | Error(message: string)     // `{ error }`: the relay failed mid-stream

  const DataPrefix := "data: "
  const Separator := "\n\n"

  /** The markdown both sides append for a generated image. */
  function ImageMarkdown(url: string): string {
    "\n\n![Generated Image](" + url + ")"
  }

  /** The object the server passes to `JSON.stringify` for `e`. */
  function Payload(e: Event): Json.Object {
    match e
    case Content(t) => [Json.Member("content", Json.JString(t))]
    case ImageUrl(u) => [Json.Member("imageUrl", Json.JString(u))]
    case Done => [Json.Member("done", Json.JBool(true))]
    case Error(m) => [Json.Member("error", Json.JString(m))]
  }

  /** A line of text: it holds no line feed. */
  predicate SingleLine(s: string) {
    forall i :: 0 <= i < |s| ==> s[i] != '\n'
  }

  /** A `data: ` line carrying a JSON object. */
  function DataLine(o: Json.Object): string {
    DataPrefix + Json.Encode(o)
  }

  /** The event line without its terminating blank line. */
  function FrameBody(e: Event): string {
    DataLine(Payload(e))
  }

  /** A data line holds its JSON payload on one line, so the blank line
      after it is the only separator the client can find. */
  lemma DataLineShape(o: Json.Object)
    ensures StartsWith(DataLine(o), DataPrefix)
    ensures DataLine(o)[|DataPrefix|..] == Json.Encode(o)
    ensures SingleLine(DataLine(o))
  {
    var j := Json.Encode(o);
    assert SingleLine(DataPrefix);
    PrefixedLine(DataPrefix, j);
  }

  /** A line followed by text free of control characters is still one
      line, and both parts can be read back. */
  lemma PrefixedLine(pre: string, j: string)
    requires SingleLine(pre) && Json.NoControl(j) && |j| >= 1
    ensures StartsWith(pre + j, pre)
    ensures (pre + j)[|pre|..] == j
    ensures SingleLine(pre + j)
  {
    var r := pre + j;
    assert r[..|pre|] == pre;
    forall i | 0 <= i < |r|
      ensures r[i] != '\n'
    {
      if i >= |pre| {
        assert r[i] == j[i - |pre|];
        assert !Json.IsControl(j[i - |pre|]);
      }
    }
  }

  /** One `res.write`: `data: <json>\n\n`. */
  function Frame(e: Event): string {
    FrameBody(e) + Separator
  }

  /** The event lines the client is to find in the wire text. */
  function Bodies(es: seq<Event>): (r: seq<string>)
    ensures |r| == |es|
  {
    if |es| == 0 then [] else Bodies(es[..|es| - 1]) + [FrameBody(es[|es| - 1])]
  }

  /** Lines each followed by a blank line. */
  function Framed(bs: seq<string>): string {
    if |bs| == 0 then "" else Framed(bs[..|bs| - 1]) + bs[|bs| - 1] + Separator
  }

  /** Everything the server writes for a sequence of events. */
  function Wire(es: seq<Event>): string {
    Framed(Bodies(es))
  }

  /** The transcript text the event stands for: a content fragment as is, an
      image as its markdown, and nothing for `done` and `error`. */
  function EventText(e: Event): string {
    match e
    case Content(t) => t
    case ImageUrl(u) => if u == "" then "" else ImageMarkdown(u)
    case Done => ""
    case Error(_) => ""
  }

  /** The text a sequence of events stands for. */
  function Transcript(es: seq<Event>): string {
    if |es| == 0 then "" else Transcript(es[..|es| - 1]) + EventText(es[|es| - 1])
  }

  lemma TranscriptOne(e: Event)
    ensures Transcript([e]) == EventText(e)
  {
    assert [e][..0] == [];
  }

  lemma TranscriptSnoc(s: seq<Event>, e: Event)
    ensures Transcript(s + [e]) == Transcript(s) + EventText(e)
  {
    assert (s + [e])[..|s|] == s;
  }

  lemma {:induction false} TranscriptAppend(a: seq<Event>, b: seq<Event>)
    ensures Transcript(a + b) == Transcript(a) + Transcript(b)
    decreases |b|
  {
    if |b| == 0 {
      assert a + b == a;
    } else {
      var b', e := b[..|b| - 1], b[|b| - 1];
      assert b == b' + [e];
      assert a + b == (a + b') + [e];
      TranscriptSnoc(a + b', e);
      TranscriptSnoc(b', e);
      TranscriptAppend(a, b');
      AppendAssoc(Transcript(a), Transcript(b'), EventText(e));
    }
  }
}
