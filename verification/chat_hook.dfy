/** The client side of sending a message: `useChatStream(conversationId)
    .sendMessage(content)`. It appends the user's message to the cached
    conversation straight away, posts it, shows the reply as the stream
    delivers it, and in every case ends by clearing the streaming state and
    asking for the conversation and the list to be fetched again. */
module ChatHook {
  import opened Wrappers
  import opened Text
  import opened Events
  import Json
  import Routes
  import SseClient

  /** A message as the conversation query caches it. */
  datatype CachedMessage = CachedMessage(id: int, role: string, content: string, createdAt: string)

  /** The cached answer of `GET /api/conversations/:id`. */
  datatype CachedConversation = CachedConversation(id: int, title: string, messages: seq<CachedMessage>)

  /** The query keys the hook asks to be fetched again. */
  datatype QueryKey = ConversationKey(id: int) | ConversationListKey

  /** The route the message is posted to. */
  const MessagesPath := "/api/conversations/:id/messages"

  /** The key of the request body. */
  const ContentKey := "content"

  // ---------------------------------------------------------------------------
  // The optimistic update
  // ---------------------------------------------------------------------------

  /** The updater given to `setQueryData`: a conversation not in the cache
      stays absent; a cached one gains the user's message at the end, with
      the clock's value as its provisional id, and nothing else changes. */
  function OptimisticAppend(cached: Option<CachedConversation>, content: string, now: int, isoNow: string)
    : (r: Option<CachedConversation>)
    ensures r.None? <==> cached.None?
    ensures r.Some? ==> r.value.id == cached.value.id && r.value.title == cached.value.title
    ensures r.Some? ==> |r.value.messages| == |cached.value.messages| + 1
    ensures r.Some? ==> r.value.messages[..|cached.value.messages|] == cached.value.messages
    ensures r.Some? ==> var last := r.value.messages[|cached.value.messages|];
                        last.role == "user" && last.content == content && last.id == now
  {
    match cached
    case None => None
    case Some(c) =>
      Some(c.(messages := c.messages + [CachedMessage(now, "user", content, isoNow)]))
  }

  /** Two sends in a row keep both messages, in the order they were sent. */
  lemma {:induction false} OptimisticAppendOrder(cached: CachedConversation, a: string, b: string,
                                                 t1: int, t2: int, iso1: string, iso2: string)
    ensures var r := OptimisticAppend(OptimisticAppend(Some(cached), a, t1, iso1), b, t2, iso2);
            var n := |cached.messages|;
            && r.Some? && |r.value.messages| == n + 2
            && r.value.messages[..n] == cached.messages
            && r.value.messages[n].content == a && r.value.messages[n + 1].content == b
  {
    var once := OptimisticAppend(Some(cached), a, t1, iso1);
    var n := |cached.messages|;
    assert once.value.messages[..n] == cached.messages;
    var r := OptimisticAppend(once, b, t2, iso2);
    assert r.value.messages[..n + 1] == once.value.messages;
    assert r.value.messages[..n] == r.value.messages[..n + 1][..n];
    assert r.value.messages[n] == r.value.messages[..n + 1][n];
  }

  // ---------------------------------------------------------------------------
  // The request
  // ---------------------------------------------------------------------------

  /** `JSON.stringify({ content })`. */
  function RequestBody(content: string): string {
    Json.Encode([Json.Member(ContentKey, Json.JString(content))])
  }

  /** What the server's `req.body.content` holds after the JSON body parser
      has read a body. */
  function ServerContent(body: string): Option<Json.Value> {
    match Json.Decode(body)
    case None => None
    case Some(o) => SseClient.Lookup(o, ContentKey)
  }

  /** The server reads back exactly the text that was typed. */
  lemma BodyCarriesContent(content: string)
    ensures ServerContent(RequestBody(content)) == Some(Json.JString(content))
  {
    Json.RoundTrip([Json.Member(ContentKey, Json.JString(content))]);
  }

  /** The URL for a conversation, and the server's `parseInt` of the `:id`
      segment gives the id back for every id the database hands out. */
  lemma {:induction false} UrlCarriesId(id: int)
    requires id >= 1
    ensures Routes.BuildUrlAsWritten(MessagesPath, Some([("id", Routes.Num(id))]))
            == "/api/conversations/" + NatDecimal(id) + "/messages"
    ensures DigitsValue(NatDecimal(id)) == id
  {
    Routes.ConversationUrls(id);
    Routes.NumericIdsAgree(MessagesPath, [("id", Routes.Num(id))]);
    NatDecimalValue(id);
  }

  // ---------------------------------------------------------------------------
  // sendMessage
  // ---------------------------------------------------------------------------

  /** What `fetch` came back with. `Stream` holds the decoded chunks the
      reader delivered before the stream ended, was aborted, or failed. */
  datatype Response = FetchThrows | NotOk(status: int) | NoBody | Stream(chunks: seq<string>)

  /** The hook's state: `isStreaming`, `streamedContent`, and the cache entry
      of the conversation. */
  datatype HookState = HookState(isStreaming: bool, streamedContent: string,
                                 cache: Option<CachedConversation>)

  datatype Request = Request(url: string, body: string)

  /** One call: the request posted (if any), the text the user saw last
      while streaming, the state once the call has finished, and the queries
      invalidated, in order. */
  datatype Call = Call(request: Option<Request>, shown: string, state: HookState,
                       invalidated: seq<QueryKey>)

  /** The conversation id is a number or null; both null and 0 are falsy. */
  predicate Selected(conversationId: Option<int>) {
    conversationId.Some? && conversationId.value != 0
  }

  /** The streamed text: reset to "" when the call begins, then grown by the
      stream consumer; a request that fails before the stream has no text. */
  function Shown(resp: Response): (r: string)
    ensures !resp.Stream? ==> r == ""
  {
    match resp
    case Stream(chunks) => SseClient.Run(SseClient.Start, chunks).transcript
    case _ => ""
  }

  function SendMessage(conversationId: Option<int>, st: HookState, content: string,
                       now: int, isoNow: string, resp: Response): (r: Call)
    ensures !Selected(conversationId) <==> r.request.None?
    ensures !Selected(conversationId) ==> r.state == st && r.invalidated == [] && r.shown == st.streamedContent
    ensures Selected(conversationId) ==>
              var id := conversationId.value;
              && ServerContent(r.request.value.body) == Some(Json.JString(content))
              && r.request.value.url == "/api/conversations/" + IntDecimal(id) + "/messages"
              && !r.state.isStreaming && r.state.streamedContent == ""
              && r.state.cache == OptimisticAppend(st.cache, content, now, isoNow)
              && r.invalidated == [ConversationKey(id), ConversationListKey]
              && r.shown == Shown(resp)
  {
    if !Selected(conversationId) then Call(None, st.streamedContent, st, [])
    else
      var id := conversationId.value;
      BodyCarriesContent(content);
      MessagesUrl(id);
      Send(id, st, content, now, isoNow, resp)
  }

  /** `buildUrl` as written fills the messages route with the id's decimal,
      since a number's text holds no `$`. */
  lemma MessagesUrl(id: int)
    ensures Routes.BuildUrlAsWritten(MessagesPath, Some([("id", Routes.Num(id))]))
            == "/api/conversations/" + IntDecimal(id) + "/messages"
  {
    Routes.ConversationUrls(id);
    Routes.NumericIdsAgree(MessagesPath, [("id", Routes.Num(id))]);
  }

  /** The body of `sendMessage` once a conversation is selected: the URL is
      built and the cache updated before `fetch`, whatever `fetch` does, and
      the `finally` block always runs. */
  function Send(id: int, st: HookState, content: string, now: int, isoNow: string,
                resp: Response): Call
  {
    var url := Routes.BuildUrlAsWritten(MessagesPath, Some([("id", Routes.Num(id))]));
    Call(Some(Request(url, RequestBody(content))), Shown(resp),
         HookState(false, "", OptimisticAppend(st.cache, content, now, isoNow)),
         [ConversationKey(id), ConversationListKey])
  }

  /** Whatever the server streams and however it is cut into reads, the user
      sees, just before the reset, the transcript of the events. */
  lemma ShowsServerStream(chunks: seq<string>, es: seq<Event>)
    requires Concat(chunks) == Wire(es)
    ensures Shown(Stream(chunks)) == Transcript(es)
  {
    SseClient.ClientReadsServer(es, chunks);
  }

  /** A send with the conversation cached: the text shown is the stream
      consumer's transcript, and the cache ends with the typed message. */
  lemma StreamedSend(id: int, st: HookState, content: string, now: int, isoNow: string,
                     chunks: seq<string>)
    requires id != 0 && st.cache.Some?
    ensures var call := SendMessage(Some(id), st, content, now, isoNow, Stream(chunks));
            var cached := call.state.cache.value.messages;
            && call.shown == SseClient.Run(SseClient.Start, chunks).transcript
            && |cached| >= 1 && cached[|cached| - 1].content == content
  {
  }
}
