/** POST /api/conversations/:id/messages (chat/routes.ts, lines 98-191):
    store the user's message, stream the model's reply to the client as
    Server-Sent Events while accumulating it, generate the image the reply
    asks for, store the assistant's message and close the stream.

    The handler is modelled as a pure function from the store, the request
    and the behaviour of its collaborators (the fragments the model streams,
    what the image model does, and which call throws) to the new store and
    the sequence of effects performed. */
module ChatRelay {
  import opened Wrappers
  import opened Text
  import opened Events
  import opened ChatStore
  import ImageSelection
  import Directive
  import ChatRoutes

  const SendFailed := "Failed to send message"

  datatype Effect =
    | SaveMessage(role: Role, content: string)  // `chatStorage.createMessage`
    | OpenModelStream(history: seq<Message>)    // `generateContentStream` with the history
    | CallImage(prompt: string)                 // the image model call
    | Write(event: Event)                       // one `res.write` of an event
    | Respond(status: int, error: string)       // a JSON error reply

  /** The call that throws, if any. `OpenThrows` covers reading the history
      and opening the model stream; `StreamThrows` is the model stream
      failing after the fragments it delivered. A throwing call has no
      effect. Exceptions of the image call are caught where they occur and
      are part of the image outcome instead. */
  datatype SendFault =
    | NoFault
    | LookupThrows
    | SaveUserThrows
    | OpenThrows
    | StreamThrows
    | SaveAssistantThrows

  datatype Upstream = Upstream(
    fragments: seq<string>,                   // `chunk.text || ""` for each chunk
    image: ImageSelection.ImageOutcome,       // what the image call does, if made
    fault: SendFault)

  datatype SendResult = SendResult(store: Store, trace: seq<Effect>)

  // ---------------------------------------------------------------------------
  // Pieces of the handler
  // ---------------------------------------------------------------------------

  /** The non-empty fragments, in order. */
  function NonEmpty(fs: seq<string>): (r: seq<string>)
    ensures forall k :: 0 <= k < |r| ==> r[k] != ""
  {
    if |fs| == 0 then []
    else if fs[|fs| - 1] == "" then NonEmpty(fs[..|fs| - 1])
    else NonEmpty(fs[..|fs| - 1]) + [fs[|fs| - 1]]
  }

  /** The forwarding loop (lines 134-142): the events written and the
      accumulated reply. */
  function Relay(fs: seq<string>): (r: (seq<Event>, string))
    ensures |r.0| == |NonEmpty(fs)|
    ensures forall k :: 0 <= k < |r.0| ==> r.0[k] == Content(NonEmpty(fs)[k])
    ensures r.1 == Concat(fs)
    ensures Transcript(r.0) == r.1
  {
    if |fs| == 0 then ([], "")
    else
      var (ws, acc) := Relay(fs[..|fs| - 1]);
      var f := fs[|fs| - 1];
      if f != "" then
        assert (ws + [Content(f)])[..|ws|] == ws;
        (ws + [Content(f)], acc + f)
      else (ws, acc + f)
  }

  /** The image step (lines 145-174): the reply after it, and the effects it
      performs. Failures of the image call are swallowed. */
  function ImageStep(acc: string, image: ImageSelection.ImageOutcome): (r: (string, seq<Effect>))
  {
    match Directive.ImagePrompt(acc)
    case None => (acc, [])
    case Some(p) =>
      if image.Responded? && ImageSelection.SelectImage(image.response).Some? then
        var uri := ImageSelection.DataUri(ImageSelection.SelectImage(image.response).value);
        (acc + ImageMarkdown(uri), [CallImage(p), Write(ImageUrl(uri))])
      else (acc, [CallImage(p)])
  }

  function Writes(es: seq<Event>): (r: seq<Effect>)
    ensures |r| == |es|
    ensures forall k :: 0 <= k < |r| ==> r[k] == Write(es[k])
  {
    if |es| == 0 then [] else Writes(es[..|es| - 1]) + [Write(es[|es| - 1])]
  }

  /** Something was written to the stream: the response headers are sent
      (`res.headersSent`). */
  predicate Started(tr: seq<Effect>) {
    exists k :: 0 <= k < |tr| && tr[k].Write?
  }

  /** What happens once the model stream is open (lines 134-174): the
      content events, then the image call and event, as far as the run gets
      before `fault`; and the reply text reached. */
  function Streamed(fs: seq<string>, image: ImageSelection.ImageOutcome, fault: SendFault): (r: (seq<Effect>, string))
  {
    var (ws, acc) := Relay(fs);
    if fault == StreamThrows then (Writes(ws), acc)
    else
      var (reply, effects) := ImageStep(acc, image);
      (Writes(ws) + effects, reply)
  }

  /** How the stream ends: storing the reply and `done` (lines 176-180), or
      the catch block (lines 181-190), which can only write an `error`
      event once something has been written. */
  function Ending(fault: SendFault, started: bool, reply: string): seq<Effect> {
    if fault == NoFault then [SaveMessage(Assistant, reply), Write(Done)]
    else if started then [Write(Error(SendFailed))]
    else [Respond(500, SendFailed)]
  }

  /** The handler. A conversation the user cannot see is answered with
      404 before anything is stored or written. */
  function SendMessage(st: Store, id: int, user: string, content: string, up: Upstream): (r: SendResult)
    requires Valid(st)
    ensures Valid(r.store)
    ensures up.fault != LookupThrows && GetConversation(st, id, user).None? ==>
              r.store == st && r.trace == [Respond(404, ChatRoutes.NotFound)]
  {
    if up.fault == LookupThrows then SendResult(st, [Respond(500, SendFailed)])
    else if GetConversation(st, id, user).None? then SendResult(st, [Respond(404, ChatRoutes.NotFound)])
    else if up.fault == SaveUserThrows then SendResult(st, [Respond(500, SendFailed)])
    else
      var st1 := CreateMessage(st, id, User, content);
      if up.fault == OpenThrows then
        // nothing has been written: a JSON error reply
        SendResult(st1, [SaveMessage(User, content), Respond(500, SendFailed)])
      else
        var prefix := [SaveMessage(User, content), OpenModelStream(MessagesOf(st1, id))];
        var (middle, reply) := Streamed(up.fragments, up.image, up.fault);
        var trace := prefix + middle + Ending(up.fault, Started(middle), reply);
        if up.fault == NoFault then SendResult(CreateMessage(st1, id, Assistant, reply), trace)
        else SendResult(st1, trace)
  }

  // ---------------------------------------------------------------------------
  // Reading a trace
  // ---------------------------------------------------------------------------

  /** The events written to the stream, in order. */
  function Written(tr: seq<Effect>): seq<Event> {
    if |tr| == 0 then []
    else if tr[|tr| - 1].Write? then Written(tr[..|tr| - 1]) + [tr[|tr| - 1].event]
    else Written(tr[..|tr| - 1])
  }

  /** The messages stored, in order. */
  function Saved(tr: seq<Effect>): seq<Message> {
    if |tr| == 0 then []
    else if tr[|tr| - 1].SaveMessage? then
      Saved(tr[..|tr| - 1]) + [Message(tr[|tr| - 1].role, tr[|tr| - 1].content)]
    else Saved(tr[..|tr| - 1])
  }

  lemma WrittenOne(e: Effect)
    ensures Written([e]) == if e.Write? then [e.event] else []
    ensures Saved([e]) == if e.SaveMessage? then [Message(e.role, e.content)] else []
  {
    assert [e][..0] == [];
  }

  lemma WrittenTwo(a: Effect, b: Effect)
    ensures Written([a, b]) == Written([a]) + Written([b])
    ensures Saved([a, b]) == Saved([a]) + Saved([b])
  {
    assert [a, b][..1] == [a];
    WrittenOne(a);
    WrittenOne(b);
  }

  lemma {:induction false} WrittenAppend(a: seq<Effect>, b: seq<Effect>)
    ensures Written(a + b) == Written(a) + Written(b)
    decreases |b|
  {
    if |b| == 0 {
      assert a + b == a;
    } else {
      var b' := b[..|b| - 1];
      assert (a + b)[..|a + b| - 1] == a + b';
      assert (a + b)[|a + b| - 1] == b[|b| - 1];
      WrittenAppend(a, b');
    }
  }

  lemma {:induction false} SavedAppend(a: seq<Effect>, b: seq<Effect>)
    ensures Saved(a + b) == Saved(a) + Saved(b)
    decreases |b|
  {
    if |b| == 0 {
      assert a + b == a;
    } else {
      var b' := b[..|b| - 1];
      assert (a + b)[..|a + b| - 1] == a + b';
      assert (a + b)[|a + b| - 1] == b[|b| - 1];
      SavedAppend(a, b');
    }
  }

  /** The stream is started exactly when some event was written. */
  lemma {:induction false} StartedIffWritten(tr: seq<Effect>)
    ensures Started(tr) <==> |Written(tr)| > 0
    decreases |tr|
  {
    if |tr| > 0 {
      var init := tr[..|tr| - 1];
      StartedIffWritten(init);
      if Started(init) {
        var k :| 0 <= k < |init| && init[k].Write?;
        assert tr[k].Write?;
      }
      if Started(tr) && !tr[|tr| - 1].Write? {
        var k :| 0 <= k < |tr| && tr[k].Write?;
        assert init[k].Write?;
      }
    }
  }

  lemma {:induction false} WrittenWrites(es: seq<Event>)
    ensures Written(Writes(es)) == es
    decreases |es|
  {
    if |es| > 0 {
      var w := Writes(es);
      assert w[..|w| - 1] == Writes(es[..|es| - 1]);
      WrittenWrites(es[..|es| - 1]);
    }
  }

  lemma {:induction false} SavedWrites(es: seq<Event>)
    ensures Saved(Writes(es)) == []
    decreases |es|
  {
    if |es| > 0 {
      var w := Writes(es);
      assert w[..|w| - 1] == Writes(es[..|es| - 1]);
      SavedWrites(es[..|es| - 1]);
    }
  }

  // ---------------------------------------------------------------------------
  // Ordering of effects
  // ---------------------------------------------------------------------------

  /** An effect after which the handler does nothing more: the final reply
      or the last event of the stream. */
  predicate Terminal(e: Effect) {
    e.Respond? || (e.Write? && (e.event.Done? || e.event.Error?))
  }

  /** Effects between opening the model stream and the end: content and
      image events and the image call. */
  predicate Middle(m: seq<Effect>) {
    forall k :: 0 <= k < |m| ==>
      m[k].CallImage? || (m[k].Write? && (m[k].event.Content? || m[k].event.ImageUrl?))
  }

  /** The ordering rules of the handler, for a request with message
      `content` whose history, once the message is stored, is `h`:
      exactly one terminal effect, at the end; the user's message is stored
      first and the model sees it; the assistant's message is stored at most
      once, right before `done`; `done` is always preceded by that store; and
      a JSON error reply is never mixed with stream writes. */
  predicate WellOrdered(tr: seq<Effect>, content: string, h: seq<Message>) {
    && |tr| >= 1
    && Terminal(tr[|tr| - 1])
    && (forall k :: 0 <= k < |tr| - 1 ==> !Terminal(tr[k]))
    && (|tr| > 1 ==> tr[0] == SaveMessage(User, content))
    && (forall k :: 0 <= k < |tr| && tr[k].OpenModelStream? ==> k == 1 && tr[k].history == h)
    && (forall k :: 0 < k < |tr| && tr[k].SaveMessage? ==>
          tr[k].role == Assistant && k == |tr| - 2 && tr[k + 1] == Write(Done))
    && (forall k :: 0 <= k < |tr| && tr[k] == Write(Done) ==>
          k >= 1 && tr[k - 1].SaveMessage? && tr[k - 1].role == Assistant)
    && (tr[|tr| - 1].Respond? ==> forall k :: 0 <= k < |tr| ==> !tr[k].Write?)
  }

  lemma MiddleAppend(a: seq<Effect>, b: seq<Effect>)
    requires Middle(a) && Middle(b)
    ensures Middle(a + b)
  {
    forall k | 0 <= k < |a + b|
      ensures (a + b)[k].CallImage? || ((a + b)[k].Write? && ((a + b)[k].event.Content? || (a + b)[k].event.ImageUrl?))
    {
      if k < |a| { assert (a + b)[k] == a[k]; } else { assert (a + b)[k] == b[k - |a|]; }
    }
  }

  lemma RelayMiddle(fs: seq<string>)
    ensures Middle(Writes(Relay(fs).0))
  {
  }

  lemma ImageStepMiddle(acc: string, image: ImageSelection.ImageOutcome)
    ensures Middle(ImageStep(acc, image).1)
  {
  }

  lemma StreamedMiddle(fs: seq<string>, image: ImageSelection.ImageOutcome, fault: SendFault)
    ensures Middle(Streamed(fs, image, fault).0)
  {
    var (ws, acc) := Relay(fs);
    RelayMiddle(fs);
    ImageStepMiddle(acc, image);
    MiddleAppend(Writes(ws), ImageStep(acc, image).1);
  }

  /** The parts of `WellOrdered` every trace that reached the model has. */
  lemma PrefixOrdered(c: string, h: seq<Message>, m: seq<Effect>, tail: seq<Effect>)
    requires Middle(m) && |tail| >= 1 && Terminal(tail[|tail| - 1])
    requires forall k :: 0 <= k < |tail| - 1 ==> !Terminal(tail[k]) && !tail[k].OpenModelStream?
    ensures var tr := [SaveMessage(User, c), OpenModelStream(h)] + m + tail;
            && |tr| >= 1
            && Terminal(tr[|tr| - 1])
            && (forall k :: 0 <= k < |tr| - 1 ==> !Terminal(tr[k]))
            && tr[0] == SaveMessage(User, c)
            && (forall k :: 0 <= k < |tr| && tr[k].OpenModelStream? ==> k == 1 && tr[k].history == h)
  {
    var tr := [SaveMessage(User, c), OpenModelStream(h)] + m + tail;
    var n := |m| + 2;
    assert forall k :: 2 <= k < n ==> tr[k] == m[k - 2];
    assert forall k :: n <= k < |tr| ==> tr[k] == tail[k - n];
  }

  /** Ending with the stored reply and `done`. */
  lemma DoneOrdered(c: string, h: seq<Message>, m: seq<Effect>, reply: string)
    requires Middle(m)
    ensures WellOrdered([SaveMessage(User, c), OpenModelStream(h)] + m + [SaveMessage(Assistant, reply), Write(Done)], c, h)
  {
    var tail := [SaveMessage(Assistant, reply), Write(Done)];
    var tr := [SaveMessage(User, c), OpenModelStream(h)] + m + tail;
    PrefixOrdered(c, h, m, tail);
    var n := |m| + 2;
    assert forall k :: 2 <= k < n ==> tr[k] == m[k - 2];
    assert tr[n] == SaveMessage(Assistant, reply) && tr[n + 1] == Write(Done);
  }

  /** Ending with an `error` event or a JSON error reply. */
  lemma ErrorOrdered(c: string, h: seq<Message>, m: seq<Effect>, last: Effect)
    requires Middle(m)
    requires last == Write(Error(SendFailed)) || (last == Respond(500, SendFailed) && !Started(m))
    ensures WellOrdered([SaveMessage(User, c), OpenModelStream(h)] + m + [last], c, h)
  {
    var tr := [SaveMessage(User, c), OpenModelStream(h)] + m + [last];
    PrefixOrdered(c, h, m, [last]);
    var n := |m| + 2;
    assert forall k :: 2 <= k < n ==> tr[k] == m[k - 2];
    if last.Respond? {
      forall k | 0 <= k < |tr|
        ensures !tr[k].Write?
      {
        if 2 <= k < n { assert m[k - 2] == tr[k]; }
      }
    }
  }

  /** The trace of a request that failed before reaching the model. */
  lemma EarlyOrdered(c: string, h: seq<Message>, tr: seq<Effect>)
    requires || (exists s, e :: tr == [Respond(s, e)])
             || tr == [SaveMessage(User, c), Respond(500, SendFailed)]
    ensures WellOrdered(tr, c, h)
  {
  }

  /** The handler's effects are well ordered, whatever the request and
      whatever its collaborators do. */
  lemma SendOrdering(st: Store, id: int, user: string, content: string, up: Upstream)
    requires Valid(st)
    ensures WellOrdered(SendMessage(st, id, user, content, up).trace, content,
                        MessagesOf(st, id) + [Message(User, content)])
  {
    var tr := SendMessage(st, id, user, content, up).trace;
    var h := MessagesOf(st, id) + [Message(User, content)];
    if up.fault in {LookupThrows, SaveUserThrows, OpenThrows} || GetConversation(st, id, user).None? {
      EarlyOrdered(content, h, tr);
    } else {
      assert MessagesOf(CreateMessage(st, id, User, content), id) == h;
      var (m, reply) := Streamed(up.fragments, up.image, up.fault);
      StreamedMiddle(up.fragments, up.image, up.fault);
      if up.fault == NoFault {
        DoneOrdered(content, h, m, reply);
      } else {
        ErrorOrdered(content, h, m, Ending(up.fault, Started(m), reply)[0]);
      }
    }
  }

  // ---------------------------------------------------------------------------
  // What is stored and what is streamed
  // ---------------------------------------------------------------------------

  /** A content event per text, in order. */
  function Contents(ts: seq<string>): (r: seq<Event>)
    ensures |r| == |ts|
    ensures forall k :: 0 <= k < |r| ==> r[k] == Content(ts[k])
  {
    if |ts| == 0 then [] else Contents(ts[..|ts| - 1]) + [Content(ts[|ts| - 1])]
  }

  /** The image the handler obtains for reply text `acc`: only when the
      text holds a directive with a non-empty prompt, the call answers, and
      the answer holds image data. */
  function GeneratedImage(acc: string, image: ImageSelection.ImageOutcome): Option<ImageSelection.Image> {
    if Directive.ImagePrompt(acc).Some? && image.Responded? then ImageSelection.SelectImage(image.response)
    else None
  }

  /** The image events that follow the content events. */
  function ImageEvents(acc: string, image: ImageSelection.ImageOutcome): seq<Event> {
    match GeneratedImage(acc, image)
    case Some(img) => [ImageUrl(ImageSelection.DataUri(img))]
    case None => []
  }

  /** The reply text once the image step is done. */
  function FinalReply(acc: string, image: ImageSelection.ImageOutcome): string {
    match GeneratedImage(acc, image)
    case Some(img) => acc + ImageMarkdown(ImageSelection.DataUri(img))
    case None => acc
  }

  lemma ImageStepNoPrompt(acc: string, image: ImageSelection.ImageOutcome)
    requires Directive.ImagePrompt(acc).None?
    ensures ImageStep(acc, image) == (acc, [])
    ensures FinalReply(acc, image) == acc && ImageEvents(acc, image) == []
  {
  }

  lemma ImageStepNoImage(acc: string, image: ImageSelection.ImageOutcome, p: string)
    requires Directive.ImagePrompt(acc) == Some(p)
    requires !(image.Responded? && ImageSelection.SelectImage(image.response).Some?)
    ensures ImageStep(acc, image) == (acc, [CallImage(p)])
    ensures FinalReply(acc, image) == acc && ImageEvents(acc, image) == []
  {
  }

  lemma ImageStepImage(acc: string, image: ImageSelection.ImageOutcome, p: string, img: ImageSelection.Image)
    requires Directive.ImagePrompt(acc) == Some(p)
    requires image.Responded? && ImageSelection.SelectImage(image.response) == Some(img)
    ensures var uri := ImageSelection.DataUri(img);
            && ImageStep(acc, image) == (acc + ImageMarkdown(uri), [CallImage(p), Write(ImageUrl(uri))])
            && FinalReply(acc, image) == acc + ImageMarkdown(uri)
            && ImageEvents(acc, image) == [ImageUrl(uri)]
  {
  }

  /** The effects of the image step, read back: at most the call and one
      image event, and nothing stored. */
  lemma CallEffects(p: string, es: seq<Event>)
    requires |es| <= 1
    ensures var effects := [CallImage(p)] + Writes(es);
            && Written(effects) == es && Saved(effects) == []
            && effects[0] == CallImage(p)
            && forall k :: 1 <= k < |effects| ==> !effects[k].CallImage?
  {
    WrittenOne(CallImage(p));
    WrittenWrites(es);
    SavedWrites(es);
    WrittenAppend([CallImage(p)], Writes(es));
    SavedAppend([CallImage(p)], Writes(es));
  }

  /** The image step against its reference: the call is made exactly when
      there is a prompt, with that prompt; the reply and the events are
      those of the generated image, if any. */
  lemma ImageStepSpec(acc: string, image: ImageSelection.ImageOutcome)
    ensures ImageStep(acc, image).0 == FinalReply(acc, image)
    ensures Written(ImageStep(acc, image).1) == ImageEvents(acc, image)
    ensures Saved(ImageStep(acc, image).1) == []
    ensures forall k :: 0 <= k < |ImageStep(acc, image).1| && ImageStep(acc, image).1[k].CallImage? ==>
              Directive.ImagePrompt(acc) == Some(ImageStep(acc, image).1[k].prompt)
    ensures Directive.ImagePrompt(acc).Some? ==> ImageStep(acc, image).1[0] == CallImage(Directive.ImagePrompt(acc).value)
  {
    match Directive.ImagePrompt(acc)
    case None =>
      ImageStepNoPrompt(acc, image);
      assert Written([]) == [] && Saved([]) == [];
    case Some(p) =>
      ImageStepCalls(acc, image, p);
      CallEffects(p, ImageEvents(acc, image));
  }

  /** With a prompt, the image step calls the model and writes the image
      events, at most one. */
  lemma ImageStepCalls(acc: string, image: ImageSelection.ImageOutcome, p: string)
    requires Directive.ImagePrompt(acc) == Some(p)
    ensures ImageStep(acc, image).0 == FinalReply(acc, image)
    ensures ImageStep(acc, image).1 == [CallImage(p)] + Writes(ImageEvents(acc, image))
    ensures |ImageEvents(acc, image)| <= 1
  {
    if image.Responded? && ImageSelection.SelectImage(image.response).Some? {
      var img := ImageSelection.SelectImage(image.response).value;
      var uri := ImageSelection.DataUri(img);
      ImageStepImage(acc, image, p, img);
      assert Writes([ImageUrl(uri)]) == [Write(ImageUrl(uri))];
    } else {
      ImageStepNoImage(acc, image, p);
    }
  }

  /** An image event's transcript text is the markdown the reply gains. */
  lemma ImageEventsText(acc: string, image: ImageSelection.ImageOutcome)
    ensures acc + Transcript(ImageEvents(acc, image)) == FinalReply(acc, image)
  {
    match GeneratedImage(acc, image)
    case None =>
    case Some(img) =>
      var uri := ImageSelection.DataUri(img);
      TranscriptOne(ImageUrl(uri));
  }

  /** The middle of the trace: the content events, then the image events
      unless the model stream threw. */
  lemma StreamedContents(fs: seq<string>, image: ImageSelection.ImageOutcome, fault: SendFault)
    ensures var acc := Concat(fs);
            && Written(Streamed(fs, image, fault).0) ==
                 Contents(NonEmpty(fs)) + (if fault == StreamThrows then [] else ImageEvents(acc, image))
            && Saved(Streamed(fs, image, fault).0) == []
            && Streamed(fs, image, fault).1 == (if fault == StreamThrows then acc else FinalReply(acc, image))
  {
    var (ws, acc) := Relay(fs);
    assert ws == Contents(NonEmpty(fs));
    WrittenWrites(ws);
    SavedWrites(ws);
    ImageStepSpec(acc, image);
    var effects := ImageStep(acc, image).1;
    WrittenAppend(Writes(ws), effects);
    SavedAppend(Writes(ws), effects);
  }

  /** The two effects before the model stream writes nothing and store the
      user's message. */
  lemma PrefixEffects(c: string, h: seq<Message>)
    ensures Written([SaveMessage(User, c), OpenModelStream(h)]) == []
    ensures Saved([SaveMessage(User, c), OpenModelStream(h)]) == [Message(User, c)]
  {
    WrittenTwo(SaveMessage(User, c), OpenModelStream(h));
    WrittenOne(SaveMessage(User, c));
    WrittenOne(OpenModelStream(h));
  }

  lemma WrittenThree(p: seq<Effect>, m: seq<Effect>, tail: seq<Effect>)
    ensures Written(p + m + tail) == Written(p) + Written(m) + Written(tail)
  {
    WrittenAppend(p, m);
    WrittenAppend(p + m, tail);
  }

  lemma SavedThree(p: seq<Effect>, m: seq<Effect>, tail: seq<Effect>)
    ensures Saved(p + m + tail) == Saved(p) + Saved(m) + Saved(tail)
  {
    SavedAppend(p, m);
    SavedAppend(p + m, tail);
  }

  /** The events written along a trace that reached the model. */
  lemma StreamedWritten(c: string, h: seq<Message>, m: seq<Effect>, tail: seq<Effect>)
    ensures Written([SaveMessage(User, c), OpenModelStream(h)] + m + tail) == Written(m) + Written(tail)
  {
    PrefixEffects(c, h);
    WrittenThree([SaveMessage(User, c), OpenModelStream(h)], m, tail);
  }

  /** The messages stored along a trace that reached the model. */
  lemma StreamedSaved(c: string, h: seq<Message>, m: seq<Effect>, tail: seq<Effect>)
    ensures Saved([SaveMessage(User, c), OpenModelStream(h)] + m + tail) == [Message(User, c)] + Saved(m) + Saved(tail)
  {
    PrefixEffects(c, h);
    SavedThree([SaveMessage(User, c), OpenModelStream(h)], m, tail);
  }

  /** The trace and store of a request that reached the model. */
  lemma StreamedShape(st: Store, id: int, user: string, content: string, up: Upstream)
    requires Valid(st) && GetConversation(st, id, user).Some?
    requires up.fault == NoFault || up.fault == StreamThrows || up.fault == SaveAssistantThrows
    ensures var r := SendMessage(st, id, user, content, up);
            var st1 := CreateMessage(st, id, User, content);
            var m := Streamed(up.fragments, up.image, up.fault).0;
            var reply := Streamed(up.fragments, up.image, up.fault).1;
            && MessagesOf(st1, id) == MessagesOf(st, id) + [Message(User, content)]
            && r.trace == [SaveMessage(User, content), OpenModelStream(MessagesOf(st1, id))] + m
                          + Ending(up.fault, Started(m), reply)
            && r.store == (if up.fault == NoFault then CreateMessage(st1, id, Assistant, reply) else st1)
  {
  }

  /** The events of a successful request spell out the stored reply. */
  lemma SuccessTranscript(fs: seq<string>, image: ImageSelection.ImageOutcome)
    ensures Transcript(Contents(NonEmpty(fs)) + ImageEvents(Concat(fs), image) + [Done])
            == FinalReply(Concat(fs), image)
  {
    var cs := Contents(NonEmpty(fs));
    var acc := Concat(fs);
    assert Relay(fs).0 == cs;
    TranscriptAppend(cs, ImageEvents(acc, image));
    TranscriptAppend(cs + ImageEvents(acc, image), [Done]);
    TranscriptOne(Done);
    ImageEventsText(acc, image);
  }

  /** Stored and written along the trace of a successful request, whatever
      its middle `m` holds, as long as the middle stores nothing. */
  lemma SuccessTrace(c: string, h: seq<Message>, m: seq<Effect>, reply: string)
    requires Saved(m) == []
    ensures var tr := [SaveMessage(User, c), OpenModelStream(h)] + m + [SaveMessage(Assistant, reply), Write(Done)];
            && Saved(tr) == [Message(User, c), Message(Assistant, reply)]
            && Written(tr) == Written(m) + [Done]
  {
    var tail := [SaveMessage(Assistant, reply), Write(Done)];
    WrittenTwo(SaveMessage(Assistant, reply), Write(Done));
    WrittenOne(SaveMessage(Assistant, reply));
    WrittenOne(Write(Done));
    StreamedWritten(c, h, m, tail);
    StreamedSaved(c, h, m, tail);
  }

  /** The trace of a request that goes through, in terms of its middle. */
  lemma SuccessShape(st: Store, id: int, user: string, content: string, up: Upstream)
    requires Valid(st) && GetConversation(st, id, user).Some? && up.fault == NoFault
    ensures var r := SendMessage(st, id, user, content, up);
            var m := Streamed(up.fragments, up.image, up.fault).0;
            var reply := FinalReply(Concat(up.fragments), up.image);
            var h := MessagesOf(CreateMessage(st, id, User, content), id);
            && r.trace == [SaveMessage(User, content), OpenModelStream(h)] + m
                          + [SaveMessage(Assistant, reply), Write(Done)]
            && MessagesOf(r.store, id) == MessagesOf(st, id) + [Message(User, content), Message(Assistant, reply)]
            && Written(m) == Contents(NonEmpty(up.fragments)) + ImageEvents(Concat(up.fragments), up.image)
            && Saved(m) == []
  {
    StreamedShape(st, id, user, content, up);
    StreamedContents(up.fragments, up.image, up.fault);
  }

  /** A request that goes through stores the user's message and then the
      reply: the concatenated fragments followed by the image markdown, if
      an image was obtained. It streams one content event per non-empty
      fragment in arrival order, then the image event, then `done`, and the
      events spell out the stored reply. */
  lemma SendSucceeds(st: Store, id: int, user: string, content: string, up: Upstream)
    requires Valid(st) && GetConversation(st, id, user).Some? && up.fault == NoFault
    ensures var r := SendMessage(st, id, user, content, up);
            var acc := Concat(up.fragments);
            && Saved(r.trace) == [Message(User, content), Message(Assistant, FinalReply(acc, up.image))]
            && MessagesOf(r.store, id) == MessagesOf(st, id) + Saved(r.trace)
            && Written(r.trace) == Contents(NonEmpty(up.fragments)) + ImageEvents(acc, up.image) + [Done]
            && Transcript(Written(r.trace)) == FinalReply(acc, up.image)
  {
    var m := Streamed(up.fragments, up.image, up.fault).0;
    SuccessShape(st, id, user, content, up);
    SuccessTrace(content, MessagesOf(CreateMessage(st, id, User, content), id), m,
                 FinalReply(Concat(up.fragments), up.image));
    SuccessTranscript(up.fragments, up.image);
  }

  /** A failure of the image call, or an answer without image data, is
      swallowed: the stored reply is the concatenated fragments and the
      stream still ends with `done`. */
  lemma ImageFailureSwallowed(st: Store, id: int, user: string, content: string, up: Upstream)
    requires Valid(st) && GetConversation(st, id, user).Some? && up.fault == NoFault
    requires up.image.Threw? || ImageSelection.SelectImage(up.image.response).None?
    ensures var r := SendMessage(st, id, user, content, up);
            && Saved(r.trace) == [Message(User, content), Message(Assistant, Concat(up.fragments))]
            && r.trace[|r.trace| - 1] == Write(Done)
  {
    var acc := Concat(up.fragments);
    assert GeneratedImage(acc, up.image).None?;
    SendSucceeds(st, id, user, content, up);
    SuccessShape(st, id, user, content, up);
  }

  /** Without a prompt the middle of the trace is the content events. */
  lemma NoPromptMiddle(fs: seq<string>, image: ImageSelection.ImageOutcome, fault: SendFault)
    requires Directive.ImagePrompt(Concat(fs)).None?
    ensures Streamed(fs, image, fault).0 == Writes(Relay(fs).0)
  {
    var ws := Writes(Relay(fs).0);
    assert ws + [] == ws;
  }

  predicate NoImageCall(tr: seq<Effect>) {
    forall k :: 0 <= k < |tr| ==> !tr[k].CallImage?
  }

  lemma NoImageCallAppend(a: seq<Effect>, b: seq<Effect>)
    requires NoImageCall(a) && NoImageCall(b)
    ensures NoImageCall(a + b)
  {
    forall k | 0 <= k < |a + b|
      ensures !(a + b)[k].CallImage?
    {
      if k >= |a| { assert (a + b)[k] == b[k - |a|]; }
    }
  }

  lemma WritesNoImageCall(es: seq<Event>)
    ensures NoImageCall(Writes(es))
  {
  }

  lemma EndingNoImageCall(fault: SendFault, started: bool, reply: string)
    ensures NoImageCall(Ending(fault, started, reply))
  {
  }

  /** A reply without a directive, or whose directive has an empty prompt,
      makes no image call. */
  lemma NoPromptNoImageCall(st: Store, id: int, user: string, content: string, up: Upstream)
    requires Valid(st)
    requires Directive.ImagePrompt(Concat(up.fragments)).None?
    ensures NoImageCall(SendMessage(st, id, user, content, up).trace)
  {
    if up.fault !in {LookupThrows, SaveUserThrows, OpenThrows} && GetConversation(st, id, user).Some? {
      var m := Streamed(up.fragments, up.image, up.fault).0;
      var reply := Streamed(up.fragments, up.image, up.fault).1;
      var h := MessagesOf(CreateMessage(st, id, User, content), id);
      StreamedShape(st, id, user, content, up);
      NoPromptMiddle(up.fragments, up.image, up.fault);
      WritesNoImageCall(Relay(up.fragments).0);
      EndingNoImageCall(up.fault, Started(m), reply);
      TraceNoImageCall(content, h, m, Ending(up.fault, Started(m), reply));
    }
  }

  lemma TraceNoImageCall(c: string, h: seq<Message>, m: seq<Effect>, tail: seq<Effect>)
    requires NoImageCall(m) && NoImageCall(tail)
    ensures NoImageCall([SaveMessage(User, c), OpenModelStream(h)] + m + tail)
  {
    var prefix := [SaveMessage(User, c), OpenModelStream(h)];
    NoImageCallAppend(prefix, m);
    NoImageCallAppend(prefix + m, tail);
  }

  /** What a failed stream has sent before the failure. */
  function SentBeforeFailure(fs: seq<string>, image: ImageSelection.ImageOutcome, fault: SendFault): seq<Event> {
    Contents(NonEmpty(fs)) + (if fault == StreamThrows then [] else ImageEvents(Concat(fs), image))
  }

  /** Stored along the trace of a request whose stream failed. */
  lemma FailureSaved(c: string, h: seq<Message>, m: seq<Effect>, fault: SendFault, reply: string)
    requires fault != NoFault && Saved(m) == []
    ensures Saved([SaveMessage(User, c), OpenModelStream(h)] + m + Ending(fault, Started(m), reply)) == [Message(User, c)]
  {
    var tail := Ending(fault, Started(m), reply);
    assert tail == [tail[0]];
    WrittenOne(tail[0]);
    StreamedSaved(c, h, m, tail);
  }

  /** Written along the trace of a request whose stream failed. */
  lemma FailureWritten(c: string, h: seq<Message>, m: seq<Effect>, fault: SendFault, reply: string)
    requires fault != NoFault
    ensures var tr := [SaveMessage(User, c), OpenModelStream(h)] + m + Ending(fault, Started(m), reply);
            && (|Written(m)| > 0 ==> Written(tr) == Written(m) + [Error(SendFailed)])
            && (|Written(m)| == 0 ==> Written(tr) == [] && tr[|tr| - 1] == Respond(500, SendFailed))
  {
    var tail := Ending(fault, Started(m), reply);
    StartedIffWritten(m);
    StreamedWritten(c, h, m, tail);
    if Started(m) {
      assert tail == [Write(Error(SendFailed))];
      WrittenOne(Write(Error(SendFailed)));
    } else {
      assert tail == [Respond(500, SendFailed)];
      WrittenOne(Respond(500, SendFailed));
    }
  }

  /** The events of a failed stream spell out the reply as far as it got. */
  lemma FailureTranscript(fs: seq<string>, image: ImageSelection.ImageOutcome, fault: SendFault)
    ensures Transcript(SentBeforeFailure(fs, image, fault) + [Error(SendFailed)])
            == Transcript(SentBeforeFailure(fs, image, fault))
    ensures Transcript(SentBeforeFailure(fs, image, fault))
            == if fault == StreamThrows then Concat(fs) else FinalReply(Concat(fs), image)
  {
    var cs := Contents(NonEmpty(fs));
    var acc := Concat(fs);
    assert Relay(fs).0 == cs;
    var sent := SentBeforeFailure(fs, image, fault);
    TranscriptAppend(sent, [Error(SendFailed)]);
    TranscriptOne(Error(SendFailed));
    if fault == StreamThrows {
      assert sent == cs;
    } else {
      TranscriptAppend(cs, ImageEvents(acc, image));
      ImageEventsText(acc, image);
    }
  }

  /** A failure once the model stream is open loses the reply: only the
      user's message is stored. If something was written, the stream ends
      with one `error` event and the events spell out the reply as far as it
      got; otherwise the reply is a JSON 500. */
  lemma SendFails(st: Store, id: int, user: string, content: string, up: Upstream)
    requires Valid(st) && GetConversation(st, id, user).Some?
    requires up.fault == StreamThrows || up.fault == SaveAssistantThrows
    ensures var r := SendMessage(st, id, user, content, up);
            var acc := Concat(up.fragments);
            var sent := SentBeforeFailure(up.fragments, up.image, up.fault);
            && Saved(r.trace) == [Message(User, content)]
            && MessagesOf(r.store, id) == MessagesOf(st, id) + Saved(r.trace)
            && (|sent| > 0 ==> Written(r.trace) == sent + [Error(SendFailed)])
            && (|sent| == 0 ==> Written(r.trace) == [] && r.trace[|r.trace| - 1] == Respond(500, SendFailed))
            && Transcript(Written(r.trace)) ==
                 (if up.fault == StreamThrows then acc else FinalReply(acc, up.image))
  {
    FailedStore(st, id, user, content, up);
    FailedStream(st, id, user, content, up);
    FailureTranscript(up.fragments, up.image, up.fault);
  }

  /** The store part of `SendFails`. */
  lemma FailedStore(st: Store, id: int, user: string, content: string, up: Upstream)
    requires Valid(st) && GetConversation(st, id, user).Some?
    requires up.fault == StreamThrows || up.fault == SaveAssistantThrows
    ensures var r := SendMessage(st, id, user, content, up);
            && Saved(r.trace) == [Message(User, content)]
            && MessagesOf(r.store, id) == MessagesOf(st, id) + Saved(r.trace)
  {
    var h := MessagesOf(CreateMessage(st, id, User, content), id);
    StreamedShape(st, id, user, content, up);
    var m := Streamed(up.fragments, up.image, up.fault).0;
    var reply := Streamed(up.fragments, up.image, up.fault).1;
    StreamedContents(up.fragments, up.image, up.fault);
    FailureSaved(content, h, m, up.fault, reply);
  }

  /** The stream part of `SendFails`. */
  lemma FailedStream(st: Store, id: int, user: string, content: string, up: Upstream)
    requires Valid(st) && GetConversation(st, id, user).Some?
    requires up.fault == StreamThrows || up.fault == SaveAssistantThrows
    ensures var r := SendMessage(st, id, user, content, up);
            var sent := SentBeforeFailure(up.fragments, up.image, up.fault);
            && (|sent| > 0 ==> Written(r.trace) == sent + [Error(SendFailed)])
            && (|sent| == 0 ==> Written(r.trace) == [] && r.trace[|r.trace| - 1] == Respond(500, SendFailed))
  {
    var h := MessagesOf(CreateMessage(st, id, User, content), id);
    StreamedShape(st, id, user, content, up);
    var m := Streamed(up.fragments, up.image, up.fault).0;
    var reply := Streamed(up.fragments, up.image, up.fault).1;
    StreamedContents(up.fragments, up.image, up.fault);
    FailureWritten(content, h, m, up.fault, reply);
  }

  /** Whatever happens, the store changes only by the messages the trace
      records, appended to the conversation in that order. */
  lemma StoreFollowsTrace(st: Store, id: int, user: string, content: string, up: Upstream)
    requires Valid(st)
    ensures var r := SendMessage(st, id, user, content, up);
            && MessagesOf(r.store, id) == MessagesOf(st, id) + Saved(r.trace)
            && (forall other :: other != id ==> MessagesOf(r.store, other) == MessagesOf(st, other))
            && (forall other, u :: GetConversation(r.store, other, u).Some? <==> GetConversation(st, other, u).Some?)
  {
    var r := SendMessage(st, id, user, content, up);
    if up.fault in {LookupThrows, SaveUserThrows} || GetConversation(st, id, user).None? {
      WrittenOne(r.trace[0]);
    } else if up.fault == OpenThrows {
      WrittenTwo(SaveMessage(User, content), Respond(500, SendFailed));
      WrittenOne(SaveMessage(User, content));
      WrittenOne(Respond(500, SendFailed));
    } else if up.fault == NoFault {
      SendSucceeds(st, id, user, content, up);
    } else {
      SendFails(st, id, user, content, up);
    }
  }
}
