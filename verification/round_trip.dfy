/** The relay end to end: what the server streams for a message, read by
    the client's stream consumer under any cutting of the stream into
    reads, shows the reply the server stores. */
module RoundTrip {
  import opened Wrappers
  import opened Text
  import opened Events
  import opened ChatStore
  import opened ChatRelay
  import SseClient
  import ChatHook

  /** A request that goes through: however the stream is cut into reads,
      the client ends with an empty buffer, having applied every event, and
      its transcript is the assistant message the server stored last. */
  lemma ClientShowsStoredReply(st: Store, id: int, user: string, content: string, up: Upstream,
                               chunks: seq<string>)
    requires Valid(st) && GetConversation(st, id, user).Some? && up.fault == NoFault
    requires Concat(chunks) == Wire(Written(SendMessage(st, id, user, content, up).trace))
    ensures var r := SendMessage(st, id, user, content, up);
            var ms := MessagesOf(r.store, id);
            var client := SseClient.Run(SseClient.Start, chunks);
            && |ms| >= 1
            && ms[|ms| - 1] == Message(Assistant, client.transcript)
            && client.buffer == ""
            && client.frames == Bodies(Written(r.trace))
  {
    var r := SendMessage(st, id, user, content, up);
    SendSucceeds(st, id, user, content, up);
    SseClient.ClientReadsServer(Written(r.trace), chunks);
  }

  /** A request whose stream fails after it started: the client shows the
      reply as far as the server got (the fragments, and the image if the
      failure came later), although nothing of it was stored. */
  lemma ClientShowsPartialReply(st: Store, id: int, user: string, content: string, up: Upstream,
                                chunks: seq<string>)
    requires Valid(st) && GetConversation(st, id, user).Some?
    requires up.fault == StreamThrows || up.fault == SaveAssistantThrows
    requires Concat(chunks) == Wire(Written(SendMessage(st, id, user, content, up).trace))
    ensures var r := SendMessage(st, id, user, content, up);
            var acc := Concat(up.fragments);
            var client := SseClient.Run(SseClient.Start, chunks);
            && client.transcript == (if up.fault == StreamThrows then acc else FinalReply(acc, up.image))
            && MessagesOf(r.store, id) == MessagesOf(st, id) + [Message(User, content)]
  {
    var r := SendMessage(st, id, user, content, up);
    SendFails(st, id, user, content, up);
    SseClient.ClientReadsServer(Written(r.trace), chunks);
  }

  /** The whole exchange for a conversation the user owns: the hook posts
      the typed text, the server stores it and then the reply, and the text
      the hook shows before it clears the stream is that stored reply, while
      the optimistic cache entry carries the same text as the stored user
      message. */
  lemma HookShowsStoredReply(hs: ChatHook.HookState, now: int, isoNow: string,
                             st: Store, id: int, user: string, content: string, up: Upstream,
                             chunks: seq<string>)
    requires id >= 1 && Valid(st) && GetConversation(st, id, user).Some? && up.fault == NoFault
    requires hs.cache.Some?
    requires Concat(chunks) == Wire(Written(SendMessage(st, id, user, content, up).trace))
    ensures var call := ChatHook.SendMessage(Some(id), hs, content, now, isoNow, ChatHook.Stream(chunks));
            var ms := MessagesOf(SendMessage(st, id, user, content, up).store, id);
            var cached := call.state.cache.value.messages;
            && |ms| >= 2 && |cached| >= 1
            && ms[|ms| - 2] == Message(User, cached[|cached| - 1].content)
            && ms[|ms| - 1] == Message(Assistant, call.shown)
  {
    var r := SendMessage(st, id, user, content, up);
    SendSucceeds(st, id, user, content, up);
    var ms := MessagesOf(r.store, id);
    assert ms[|ms| - 2] == Saved(r.trace)[0];
    ClientShowsStoredReply(st, id, user, content, up, chunks);
    ChatHook.StreamedSend(id, hs, content, now, isoNow, chunks);
  }
}
