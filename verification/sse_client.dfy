/** The browser side of the chat stream (`useChatStream.sendMessage`): the
    read loop appends each chunk to a buffer, splits the buffer on blank lines
    (`buffer.split("\n\n")`), keeps the last piece as the new buffer and
    applies every earlier piece, in order, to the displayed transcript. Only
    pieces starting with `data: ` are used; their payload is parsed as JSON, a
    truthy `content` is appended verbatim, then a truthy `imageUrl` is
    appended as image markdown, and anything unparsable is skipped. */
module SseClient {
  import opened Wrappers
  import opened Text
  import Json
  import opened Events

  function Last(ps: seq<string>): string
    requires |ps| >= 1
  {
    ps[|ps| - 1]
  }

  function Init(ps: seq<string>): seq<string>
    requires |ps| >= 1
  {
    ps[..|ps| - 1]
  }

  // ---------------------------------------------------------------------------
  // Splitting on blank lines
  // ---------------------------------------------------------------------------

  predicate NoSeparator(p: string) {
    forall k :: 0 <= k < |p| ==> !OccursAt(p, Separator, k)
  }

  predicate EndsWithLineFeed(p: string) {
    |p| > 0 && p[|p| - 1] == '\n'
  }

  /** The pieces `String.prototype.split` produces: none holds the separator,
      and no piece but the last ends with a line feed (otherwise the
      separator would have been found one character earlier). */
  predicate WellSplit(ps: seq<string>) {
    && |ps| >= 1
    && (forall i :: 0 <= i < |ps| ==> NoSeparator(ps[i]))
    && (forall i :: 0 <= i < |ps| - 1 ==> !EndsWithLineFeed(ps[i]))
  }

  /** `s.split("\n\n")`: cut at the leftmost separator, then split the rest. */
  function SplitFrames(s: string): (ps: seq<string>)
    ensures |ps| >= 1
    decreases |s|
  {
    match IndexOf(s, Separator, 0)
    case None => [s]
    case Some(i) => [s[..i]] + SplitFrames(s[i + 2..])
  }

  lemma SeparatorAt(s: string, k: int)
    ensures OccursAt(s, Separator, k) <==> 0 <= k && k + 2 <= |s| && s[k] == '\n' && s[k + 1] == '\n'
  {
    if 0 <= k && k + 2 <= |s| {
      assert s[k..k + 2] == [s[k], s[k + 1]];
    }
  }

  lemma NoSeparatorSplit(s: string)
    requires NoSeparator(s)
    ensures SplitFrames(s) == [s]
  {
  }

  /** The piece before the leftmost separator holds no separator and does
      not end with a line feed. */
  lemma FirstPiece(s: string, i: nat)
    requires IndexOf(s, Separator, 0) == Some(i)
    ensures NoSeparator(s[..i]) && !EndsWithLineFeed(s[..i])
    ensures s == s[..i] + Separator + s[i + 2..]
  {
    var head := s[..i];
    forall k | 0 <= k < |head|
      ensures !OccursAt(head, Separator, k)
    {
      SeparatorAt(head, k);
      SeparatorAt(s, k);
    }
    if i > 0 {
      SeparatorAt(s, i - 1);
      SeparatorAt(s, i);
    }
    assert s[i..i + 2] == Separator;
    assert s == s[..i] + s[i..i + 2] + s[i + 2..];
  }

  lemma WellSplitCons(head: string, rest: seq<string>)
    requires NoSeparator(head) && !EndsWithLineFeed(head) && WellSplit(rest)
    ensures WellSplit([head] + rest)
  {
    var ps := [head] + rest;
    forall j | 0 <= j < |ps|
      ensures NoSeparator(ps[j])
    {
      if j > 0 { assert ps[j] == rest[j - 1]; }
    }
    forall j | 0 <= j < |ps| - 1
      ensures !EndsWithLineFeed(ps[j])
    {
      if j > 0 { assert ps[j] == rest[j - 1]; }
    }
  }

  lemma WellSplitTail(ps: seq<string>)
    requires WellSplit(ps) && |ps| >= 2
    ensures WellSplit(ps[1..])
  {
    var rest := ps[1..];
    forall j | 0 <= j < |rest|
      ensures NoSeparator(rest[j])
    {
      assert rest[j] == ps[j + 1];
    }
    forall j | 0 <= j < |rest| - 1
      ensures !EndsWithLineFeed(rest[j])
    {
      assert rest[j] == ps[j + 1];
    }
  }

  /** Joining the pieces gives the input back, and the pieces are well split. */
  lemma {:induction false} SplitSound(s: string)
    ensures Join(SplitFrames(s), Separator) == s
    ensures WellSplit(SplitFrames(s))
    decreases |s|
  {
    match IndexOf(s, Separator, 0)
    case None =>
    case Some(i) =>
      var head, tail := s[..i], s[i + 2..];
      FirstPiece(s, i);
      SplitSound(tail);
      WellSplitCons(head, SplitFrames(tail));
      assert SplitFrames(s) == [head] + SplitFrames(tail);
  }

  /** A piece without a separator and without a trailing line feed, then a
      separator: the leftmost separator is the one right after the piece. */
  lemma FirstSeparator(head: string, tail: string)
    requires NoSeparator(head) && !EndsWithLineFeed(head)
    ensures IndexOf(head + Separator + tail, Separator, 0) == Some(|head|)
  {
    var s := head + Separator + tail;
    SeparatorAt(s, |head|);
    forall k | 0 <= k < |head|
      ensures !OccursAt(s, Separator, k)
    {
      SeparatorAt(s, k);
      SeparatorAt(head, k);
    }
  }

  lemma SplitCons(head: string, tail: string)
    requires NoSeparator(head) && !EndsWithLineFeed(head)
    ensures SplitFrames(head + Separator + tail) == [head] + SplitFrames(tail)
  {
    var s := head + Separator + tail;
    FirstSeparator(head, tail);
    assert s[..|head|] == head;
    assert s[|head| + 2..] == tail;
  }

  /** The converse: well-split pieces are exactly what splitting their join
      produces, so `SplitFrames` is the unique well split of its input. */
  lemma {:induction false} SplitUnique(ps: seq<string>)
    requires WellSplit(ps)
    ensures SplitFrames(Join(ps, Separator)) == ps
    decreases |ps|
  {
    if |ps| == 1 {
      NoSeparatorSplit(ps[0]);
    } else {
      WellSplitTail(ps);
      SplitUnique(ps[1..]);
      WellSplitHead(ps);
      SplitUniqueCons(ps[0], ps[1..]);
      assert [ps[0]] + ps[1..] == ps;
    }
  }

  /** The inductive step of `SplitUnique`: a complete first piece in front. */
  lemma SplitUniqueCons(head: string, rest: seq<string>)
    requires NoSeparator(head) && !EndsWithLineFeed(head) && |rest| >= 1
    requires SplitFrames(Join(rest, Separator)) == rest
    ensures SplitFrames(Join([head] + rest, Separator)) == [head] + rest
  {
    assert ([head] + rest)[1..] == rest;
    SplitCons(head, Join(rest, Separator));
  }

  lemma WellSplitHead(ps: seq<string>)
    requires WellSplit(ps) && |ps| >= 2
    ensures NoSeparator(ps[0]) && !EndsWithLineFeed(ps[0])
    ensures Join(ps, Separator) == ps[0] + Separator + Join(ps[1..], Separator)
  {
  }

  /** Splitting a longer text re-splits only the last piece of the shorter
      one: the complete pieces found before the extension stay as they were. */
  lemma {:induction false} SplitAppend(a: string, c: string)
    ensures SplitFrames(a + c) == Init(SplitFrames(a)) + SplitFrames(Last(SplitFrames(a)) + c)
    decreases |a|
  {
    match IndexOf(a, Separator, 0)
    case None =>
      assert SplitFrames(a) == [a];
    case Some(i) =>
      FirstPiece(a, i);
      SplitAppend(a[i + 2..], c);
      SplitAppendCons(a[..i], a[i + 2..], c);
  }

  /** The inductive step of `SplitAppend`: a complete first piece in front. */
  lemma SplitAppendCons(head: string, tail: string, c: string)
    requires NoSeparator(head) && !EndsWithLineFeed(head)
    requires SplitFrames(tail + c) == Init(SplitFrames(tail)) + SplitFrames(Last(SplitFrames(tail)) + c)
    ensures var a := head + Separator + tail;
            SplitFrames(a + c) == Init(SplitFrames(a)) + SplitFrames(Last(SplitFrames(a)) + c)
  {
    ExtendedPiece(head, tail, c);
    ConsInitLast(head, SplitFrames(tail));
  }

  /** Text after a complete first piece: both splits begin with that piece. */
  lemma ExtendedPiece(head: string, tail: string, c: string)
    requires NoSeparator(head) && !EndsWithLineFeed(head)
    ensures SplitFrames(head + Separator + tail) == [head] + SplitFrames(tail)
    ensures SplitFrames(head + Separator + tail + c) == [head] + SplitFrames(tail + c)
  {
    SplitCons(head, tail);
    SplitCons(head, tail + c);
    assert head + Separator + tail + c == head + Separator + (tail + c);
  }

  lemma ConsInitLast(head: string, rest: seq<string>)
    requires |rest| >= 1
    ensures Init([head] + rest) == [head] + Init(rest)
    ensures Last([head] + rest) == Last(rest)
  {
  }

  // ---------------------------------------------------------------------------
  // Applying one frame to the transcript
  // ---------------------------------------------------------------------------

  /** The value a property read yields on a parsed object: the last member
      with that key wins, as in `JSON.parse`. */
  function Lookup(o: Json.Object, key: string): Option<Json.Value> {
    if |o| == 0 then None
    else if o[|o| - 1].key == key then Some(o[|o| - 1].value)
    else Lookup(o[..|o| - 1], key)
  }

  /** JavaScript truthiness of a parsed value. */
  predicate Truthy(v: Json.Value) {
    match v
    case JString(s) => s != ""
    case JBool(b) => b
    case JNull => false
  }

  /** The text a value becomes when concatenated to a string. */
  function AsText(v: Json.Value): string {
    match v
    case JString(s) => s
    case JBool(b) => if b then "true" else "false"
    case JNull => "null"
  }

  /** The transcript after one parsed payload: `content` first, then
      `imageUrl`; `done`, `error` and any other key change nothing. */
  function ApplyObject(t: string, o: Json.Object): (r: string)
    ensures StartsWith(r, t)
  {
    var withContent :=
      match Lookup(o, "content")
      case Some(v) => if Truthy(v) then t + AsText(v) else t
      case None => t;
    match Lookup(o, "imageUrl")
    case Some(v) => if Truthy(v) then withContent + ImageMarkdown(AsText(v)) else withContent
    case None => withContent
  }

  /** The transcript after one frame: only `data: ` frames whose payload
      parses take effect. The transcript only ever grows. */
  function ApplyFrame(t: string, line: string): (r: string)
    ensures StartsWith(r, t)
    ensures !StartsWith(line, DataPrefix) ==> r == t
    ensures StartsWith(line, DataPrefix) && Json.Decode(line[|DataPrefix|..]).None? ==> r == t
  {
    if StartsWith(line, DataPrefix) then
      match Json.Decode(line[|DataPrefix|..])
      case None => t
      case Some(o) => ApplyObject(t, o)
    else t
  }

  function ApplyFrames(t: string, lines: seq<string>): (r: string)
    ensures StartsWith(r, t)
  {
    if |lines| == 0 then t
    else ApplyFrame(ApplyFrames(t, lines[..|lines| - 1]), lines[|lines| - 1])
  }

  lemma {:induction false} ApplyFramesAppend(t: string, a: seq<string>, b: seq<string>)
    ensures ApplyFrames(t, a + b) == ApplyFrames(ApplyFrames(t, a), b)
    decreases |b|
  {
    if |b| == 0 {
      assert a + b == a;
    } else {
      var b' := b[..|b| - 1];
      assert (a + b)[..|a + b| - 1] == a + b';
      assert (a + b)[|a + b| - 1] == b[|b| - 1];
      ApplyFramesAppend(t, a, b');
    }
  }

  /** A data line carrying `o` has the effect of `o`. */
  lemma DataLineEffect(t: string, o: Json.Object)
    ensures ApplyFrame(t, DataLine(o)) == ApplyObject(t, o)
  {
    DataLineShape(o);
    Json.RoundTrip(o);
  }

  lemma LookupSingle(m: Json.Member, key: string)
    ensures Lookup([m], key) == if m.key == key then Some(m.value) else None
  {
    assert [m][..0] == [];
  }

  /** A payload with a single member. */
  lemma ApplySingle(t: string, m: Json.Member)
    ensures ApplyObject(t, [m]) ==
      if m.key == "content" && Truthy(m.value) then t + AsText(m.value)
      else if m.key == "imageUrl" && Truthy(m.value) then t + ImageMarkdown(AsText(m.value))
      else t
  {
    LookupSingle(m, "content");
    LookupSingle(m, "imageUrl");
    assert "content" != "imageUrl" by { assert |"content"| != |"imageUrl"|; }
  }

  /** A data line whose payload has a single member. */
  lemma SingleMemberLine(t: string, m: Json.Member)
    ensures ApplyFrame(t, DataLine([m])) ==
      if m.key == "content" && Truthy(m.value) then t + AsText(m.value)
      else if m.key == "imageUrl" && Truthy(m.value) then t + ImageMarkdown(AsText(m.value))
      else t
  {
    DataLineEffect(t, [m]);
    ApplySingle(t, m);
  }

  lemma KeysDistinct()
    ensures "content" != "imageUrl"
  {
    assert |"content"| != |"imageUrl"|;
  }

  lemma ContentFrame(t: string, c: string)
    ensures ApplyFrame(t, FrameBody(Content(c))) == t + c
  {
    SingleMemberLine(t, Json.Member("content", Json.JString(c)));
  }

  lemma ImageFrame(t: string, u: string)
    ensures ApplyFrame(t, FrameBody(ImageUrl(u))) == if u == "" then t else t + ImageMarkdown(u)
  {
    KeysDistinct();
    SingleMemberLine(t, Json.Member("imageUrl", Json.JString(u)));
  }

  lemma DoneFrame(t: string)
    ensures ApplyFrame(t, FrameBody(Done)) == t
  {
    SingleMemberLine(t, Json.Member("done", Json.JBool(true)));
  }

  lemma ErrorFrame(t: string, m: string)
    ensures ApplyFrame(t, FrameBody(Error(m))) == t
  {
    SingleMemberLine(t, Json.Member("error", Json.JString(m)));
  }

  /** The frame of an event that adds no text leaves the transcript alone. */
  lemma SilentFrame(t: string, e: Event)
    requires !e.Content?
    ensures ApplyFrame(t, FrameBody(e)) == t + EventText(e)
  {
    assert t + "" == t;
    match e
    case ImageUrl(u) => ImageFrame(t, u);
    case Done => DoneFrame(t);
    case Error(m) => ErrorFrame(t, m);
  }

  /** Each server frame contributes exactly the text its event stands for:
      a content fragment verbatim, an image as its markdown, and nothing for
      `done` and `error`. */
  lemma FrameRoundTrip(t: string, e: Event)
    ensures ApplyFrame(t, FrameBody(e)) == t + EventText(e)
  {
    if e.Content? {
      ContentFrame(t, e.text);
    } else {
      SilentFrame(t, e);
    }
  }

  /** Within one payload the content is applied before the image, whichever
      order the members are listed in. */
  lemma ContentBeforeImage(t: string, c: string, u: string, o: Json.Object)
    requires c != "" && u != ""
    requires o == [Json.Member("imageUrl", Json.JString(u)), Json.Member("content", Json.JString(c))]
    ensures ApplyObject(t, o) == t + c + ImageMarkdown(u)
  {
    KeysDistinct();
    LookupPair(o[0], o[1], "content");
    LookupPair(o[0], o[1], "imageUrl");
  }

  lemma LookupPair(m0: Json.Member, m1: Json.Member, key: string)
    ensures Lookup([m0, m1], key) ==
      if m1.key == key then Some(m1.value) else if m0.key == key then Some(m0.value) else None
  {
    assert [m0, m1][..1] == [m0];
    LookupSingle(m0, key);
  }

  // ---------------------------------------------------------------------------
  // The read loop
  // ---------------------------------------------------------------------------

  /** The consumer between reads: the incomplete tail of the stream, the
      frames applied so far, and the displayed transcript. */
  datatype ClientState = ClientState(buffer: string, frames: seq<string>, transcript: string)

  const Start := ClientState("", [], "")

  /** One read: `buffer += chunk`, split, keep the last piece, apply the
      others. The pieces applied and the new buffer rebuild the old buffer
      plus the chunk; the buffer never holds a complete frame. */
  function Step(st: ClientState, chunk: string): (r: ClientState)
    ensures |r.frames| >= |st.frames| && r.frames[..|st.frames|] == st.frames
    ensures Join(r.frames[|st.frames|..] + [r.buffer], Separator) == st.buffer + chunk
    ensures NoSeparator(r.buffer)
    ensures r.transcript == ApplyFrames(st.transcript, r.frames[|st.frames|..])
  {
    var ps := SplitFrames(st.buffer + chunk);
    SplitPieces(st.buffer + chunk);
    SliceAppend(st.frames, Init(ps));
    ClientState(Last(ps), st.frames + Init(ps), ApplyFrames(st.transcript, Init(ps)))
  }

  /** The complete pieces and the last one rebuild the text; the last one
      holds no separator. */
  lemma SplitPieces(text: string)
    ensures var ps := SplitFrames(text);
            Join(Init(ps) + [Last(ps)], Separator) == text && NoSeparator(Last(ps))
  {
    var ps := SplitFrames(text);
    SplitSound(text);
    assert ps == Init(ps) + [Last(ps)];
  }

  lemma SliceAppend(a: seq<string>, b: seq<string>)
    ensures (a + b)[..|a|] == a && (a + b)[|a|..] == b
  {
  }

  function Run(st: ClientState, chunks: seq<string>): ClientState
    decreases |chunks|
  {
    if |chunks| == 0 then st else Run(Step(st, chunks[0]), chunks[1..])
  }

  lemma ConcatCons(chunks: seq<string>)
    requires |chunks| >= 1
    ensures Concat(chunks) == chunks[0] + Concat(chunks[1..])
  {
    ConcatAppend([chunks[0]], chunks[1..]);
    assert [chunks[0]] + chunks[1..] == chunks;
    assert Concat([chunks[0]]) == chunks[0];
  }

  /** Splitting a text read in two parts: the complete pieces of the first
      part, then those of its tail followed by the second part. */
  lemma SplitCompose(a: string, c: string)
    ensures var p0 := SplitFrames(a);
            var q := SplitFrames(Last(p0) + c);
            var ps := SplitFrames(a + c);
            Last(ps) == Last(q) && Init(ps) == Init(p0) + Init(q)
  {
    var p0 := SplitFrames(a);
    var q := SplitFrames(Last(p0) + c);
    SplitAppend(a, c);
    assert (Init(p0) + q)[..|Init(p0) + q| - 1] == Init(p0) + Init(q);
  }

  lemma StepClosedForm(st: ClientState, c: string)
    ensures var ps := SplitFrames(st.buffer + c);
            Step(st, c) == ClientState(Last(ps), st.frames + Init(ps), ApplyFrames(st.transcript, Init(ps)))
  {
  }

  lemma FramesAssoc(a: seq<string>, b: seq<string>, c: seq<string>)
    ensures a + b + c == a + (b + c)
  {
  }

  /** What a run of reads leaves behind depends only on the text read, not
      on where the reads split it: the frames applied are the complete pieces
      of the buffer plus all chunks, and the buffer is the last piece. */
  lemma {:induction false} RunClosedForm(st: ClientState, chunks: seq<string>)
    requires NoSeparator(st.buffer)
    ensures var ps := SplitFrames(st.buffer + Concat(chunks));
            Run(st, chunks) == ClientState(Last(ps), st.frames + Init(ps), ApplyFrames(st.transcript, Init(ps)))
    decreases |chunks|
  {
    if |chunks| == 0 {
      assert st.buffer + Concat(chunks) == st.buffer;
      NoSeparatorSplit(st.buffer);
      assert st.frames + [] == st.frames;
    } else {
      var a, rest := st.buffer + chunks[0], Concat(chunks[1..]);
      var p0 := SplitFrames(a);
      var q := SplitFrames(Last(p0) + rest);
      StepClosedForm(st, chunks[0]);
      RunClosedForm(Step(st, chunks[0]), chunks[1..]);
      ConcatCons(chunks);
      AppendAssoc(st.buffer, chunks[0], rest);
      SplitCompose(a, rest);
      ApplyFramesAppend(st.transcript, Init(p0), Init(q));
      FramesAssoc(st.frames, Init(p0), Init(q));
    }
  }

  /** A run from the initial state in closed form. */
  lemma RunFromStart(chunks: seq<string>)
    ensures var ps := SplitFrames(Concat(chunks));
            Run(Start, chunks) == ClientState(Last(ps), Init(ps), ApplyFrames("", Init(ps)))
  {
    RunClosedForm(Start, chunks);
    assert Start.buffer + Concat(chunks) == Concat(chunks);
    assert Start.frames + Init(SplitFrames(Concat(chunks))) == Init(SplitFrames(Concat(chunks)));
  }

  /** Chunking invariance: two ways of cutting the same stream into reads
      leave the consumer in the same state. */
  lemma ChunkingInvariance(c1: seq<string>, c2: seq<string>)
    requires Concat(c1) == Concat(c2)
    ensures Run(Start, c1) == Run(Start, c2)
  {
    RunFromStart(c1);
    RunFromStart(c2);
  }

  /** When the stream ends, an unterminated tail is never applied: reading
      it only grows the buffer. */
  lemma TrailingPieceDiscarded(chunks: seq<string>, tail: string)
    requires NoSeparator(Run(Start, chunks).buffer + tail)
    ensures Run(Start, chunks + [tail]).transcript == Run(Start, chunks).transcript
    ensures Run(Start, chunks + [tail]).frames == Run(Start, chunks).frames
    ensures Run(Start, chunks + [tail]).buffer == Run(Start, chunks).buffer + tail
  {
    var text := Concat(chunks);
    RunClosedForm(Start, chunks);
    RunClosedForm(Start, chunks + [tail]);
    ConcatAppend(chunks, [tail]);
    assert Concat([tail]) == Concat([]) + tail;
    assert "" + text == text;
    assert "" + (text + tail) == text + tail;
    SplitAppend(text, tail);
    NoSeparatorSplit(Last(SplitFrames(text)) + tail);
  }

  /** One read in closed form: splitting the old buffer plus the chunk and
      applying its complete pieces continues the split of all text read. */
  lemma ReadStep(chunks: seq<string>, i: nat)
    requires i < |chunks|
    ensures var before := SplitFrames(Concat(chunks[..i]));
            var lines := SplitFrames(Last(before) + chunks[i]);
            var after := SplitFrames(Concat(chunks[..i + 1]));
            && Last(lines) == Last(after)
            && ApplyFrames(ApplyFrames("", Init(before)), Init(lines)) == ApplyFrames("", Init(after))
  {
    var text := Concat(chunks[..i]);
    assert chunks[..i + 1][..i] == chunks[..i];
    assert Concat(chunks[..i + 1]) == text + chunks[i];
    var before := SplitFrames(text);
    var lines := SplitFrames(Last(before) + chunks[i]);
    SplitCompose(text, chunks[i]);
    ApplyFramesAppend("", Init(before), Init(lines));
  }

  /** The `for (const line of lines)` loop over the complete pieces. */
  method ApplyLines(t: string, lines: seq<string>) returns (r: string)
    ensures r == ApplyFrames(t, lines)
  {
    r := t;
    var j := 0;
    while j < |lines|
      invariant 0 <= j <= |lines|
      invariant r == ApplyFrames(t, lines[..j])
    {
      assert lines[..j + 1][..j] == lines[..j];
      r := ApplyFrame(r, lines[j]);
      j := j + 1;
    }
    assert lines[..j] == lines;
  }

  /** The read loop as the hook runs it. The transcript it builds is the one
      every chunking of the same stream yields, and the unterminated tail is
      left in the buffer. */
  method ConsumeStream(chunks: seq<string>) returns (transcript: string, leftover: string)
    ensures var ps := SplitFrames(Concat(chunks));
            transcript == ApplyFrames("", Init(ps)) && leftover == Last(ps)
    ensures NoSeparator(leftover)
  {
    var buffer := "";
    transcript := "";
    var i := 0;
    assert SplitFrames(Concat(chunks[..0])) == [""] by {
      assert chunks[..0] == [];
      NoSeparatorSplit("");
    }
    while i < |chunks|
      invariant 0 <= i <= |chunks|
      invariant var ps := SplitFrames(Concat(chunks[..i]));
                buffer == Last(ps) && transcript == ApplyFrames("", Init(ps))
    {
      ReadStep(chunks, i);
      var lines := SplitFrames(buffer + chunks[i]);
      buffer := Last(lines);
      transcript := ApplyLines(transcript, Init(lines));
      i := i + 1;
    }
    assert chunks[..i] == chunks;
    leftover := buffer;
    SplitSound(Concat(chunks));
  }

  // ---------------------------------------------------------------------------
  // Reading what the server wrote
  // ---------------------------------------------------------------------------

  /** A single line followed by a blank line splits into the line and an
      empty tail. */
  lemma SplitOneFrame(body: string)
    requires SingleLine(body)
    ensures SplitFrames(body + Separator) == [body, ""]
  {
    var s := body + Separator;
    SeparatorAt(s, |body|);
    forall k | 0 <= k < |body|
      ensures !OccursAt(s, Separator, k)
    {
      SeparatorAt(s, k);
      assert s[k] == body[k];
    }
    assert IndexOf(s, Separator, 0) == Some(|body|);
    assert s[..|body|] == body;
    assert s[|body| + 2..] == "";
    NoSeparatorSplit("");
  }

  predicate AllSingleLines(bs: seq<string>) {
    forall i :: 0 <= i < |bs| ==> SingleLine(bs[i])
  }

  lemma AllSingleLinesPrefix(bs: seq<string>)
    requires AllSingleLines(bs) && |bs| > 0
    ensures AllSingleLines(bs[..|bs| - 1]) && SingleLine(bs[|bs| - 1])
  {
    var bs' := bs[..|bs| - 1];
    forall i | 0 <= i < |bs'|
      ensures SingleLine(bs'[i])
    {
      assert bs'[i] == bs[i];
    }
  }

  /** Splitting after one more framed line. */
  lemma FramedSplitStep(prev: seq<string>, body: string)
    requires SplitFrames(Framed(prev)) == prev + [""]
    requires SingleLine(body)
    ensures SplitFrames(Framed(prev + [body])) == prev + [body] + [""]
  {
    var bs := prev + [body];
    var frame := body + Separator;
    assert bs[..|bs| - 1] == prev;
    assert Framed(bs) == Framed(prev) + frame;
    SplitAppend(Framed(prev), frame);
    assert Init(prev + [""]) == prev;
    assert Last(prev + [""]) + frame == frame;
    SplitOneFrame(body);
  }

  /** Single lines, each followed by a blank line, split back into those
      lines and an empty tail. */
  lemma {:induction false} FramedSplit(bs: seq<string>)
    requires AllSingleLines(bs)
    ensures SplitFrames(Framed(bs)) == bs + [""]
    decreases |bs|
  {
    if |bs| == 0 {
      NoSeparatorSplit("");
    } else {
      var bs' := bs[..|bs| - 1];
      AllSingleLinesPrefix(bs);
      FramedSplit(bs');
      FramedSplitStep(bs', bs[|bs| - 1]);
      assert bs' + [bs[|bs| - 1]] == bs;
    }
  }

  lemma {:induction false} BodiesAreLines(es: seq<Event>)
    ensures AllSingleLines(Bodies(es))
    decreases |es|
  {
    if |es| > 0 {
      var es' := es[..|es| - 1];
      BodiesAreLines(es');
      DataLineShape(Payload(es[|es| - 1]));
      forall i | 0 <= i < |es|
        ensures SingleLine(Bodies(es)[i])
      {
        if i < |es'| { assert Bodies(es)[i] == Bodies(es')[i]; }
      }
    }
  }

  lemma {:induction false} ApplyBodies(es: seq<Event>)
    ensures ApplyFrames("", Bodies(es)) == Transcript(es)
    decreases |es|
  {
    if |es| > 0 {
      var es' := es[..|es| - 1];
      ApplyBodies(es');
      assert Bodies(es)[..|es| - 1] == Bodies(es');
      FrameRoundTrip(Transcript(es'), es[|es| - 1]);
    }
  }

  /** The server's wire text splits into its frame bodies and an empty
      trailing piece. */
  lemma WireSplit(es: seq<Event>)
    ensures SplitFrames(Wire(es)) == Bodies(es) + [""]
  {
    BodiesAreLines(es);
    FramedSplit(Bodies(es));
  }

  lemma InitLastEmpty(bs: seq<string>)
    ensures Init(bs + [""]) == bs && Last(bs + [""]) == ""
  {
  }

  /** However the server's frames are cut into reads, the client applies
      every frame, keeps nothing in its buffer, and shows the text the
      events stand for. */
  lemma ClientReadsServer(es: seq<Event>, chunks: seq<string>)
    requires Concat(chunks) == Wire(es)
    ensures Run(Start, chunks) == ClientState("", Bodies(es), Transcript(es))
  {
    RunFromStart(chunks);
    WireSplit(es);
    InitLastEmpty(Bodies(es));
    ApplyBodies(es);
  }
}
