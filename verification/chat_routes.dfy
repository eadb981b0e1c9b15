/** The conversation routes of the chat server (chat/routes.ts) as pure
    functions of the store, the requesting user and whether the storage
    layer throws. The message route is in module ChatRelay. */
module ChatRoutes {
  import opened Wrappers
  import opened Http
  import opened ChatStore

  const NotFound := "Conversation not found"
  const ListFailed := "Failed to fetch conversations"
  const GetFailed := "Failed to fetch conversation"
  const CreateFailed := "Failed to create conversation"
  const DeleteFailed := "Failed to delete conversation"
  const DefaultTitle := "New Chat"

  // ---------------------------------------------------------------------------
  // GET, POST and DELETE on /api/conversations
  // ---------------------------------------------------------------------------

  /** GET /api/conversations; `fails` is a storage exception. */
  function ListRoute(st: Store, user: string, fails: bool): (r: Reply<set<int>>)
    ensures fails ==> r == Failure(500, ListFailed)
    ensures !fails ==> r.Success? && r.status == 200
    ensures r.Success? ==> forall id :: id in r.body <==> GetConversation(st, id, user).Some?
  {
    if fails then Failure(500, ListFailed) else Success(200, ConversationsOf(st, user))
  }

  /** Where reading a conversation can throw. */
  datatype GetFault = GetOk | LookupFails | MessagesFail

  /** GET /api/conversations/:id: the conversation with its messages, only
      for its owner. */
  function GetRoute(st: Store, id: int, user: string, fault: GetFault): (r: Reply<Conversation>)
    ensures fault == LookupFails ==> r == Failure(500, GetFailed)
    ensures fault != LookupFails && GetConversation(st, id, user).None? ==> r == Failure(404, NotFound)
    ensures fault == MessagesFail && GetConversation(st, id, user).Some? ==> r == Failure(500, GetFailed)
    ensures r.Success? <==> fault == GetOk && GetConversation(st, id, user).Some?
    ensures r.Success? ==> r.status == 200 && r.body.owner == user && r.body.messages == MessagesOf(st, id)
    ensures r.Success? ==> r.body == GetConversation(st, id, user).value.(messages := MessagesOf(st, id))
  {
    match fault
    case LookupFails => Failure(500, GetFailed)
    case _ =>
      match GetConversation(st, id, user)
      case None => Failure(404, NotFound)
      case Some(c) =>
        if fault.MessagesFail? then Failure(500, GetFailed)
        else Success(200, c.(messages := MessagesOf(st, id)))
  }

  /** POST /api/conversations: `title` is the request's `title` field. */
  function CreateRoute(st: Store, user: string, title: Option<string>, fails: bool): (r: (Store, Reply<int>))
    requires Valid(st)
    ensures Valid(r.0)
    ensures fails ==> r == (st, Failure(500, CreateFailed))
    ensures !fails ==> r.1.Success? && r.1.status == 201
    ensures r.1.Success? ==>
              && r.1.body !in st.conversations
              && GetConversation(r.0, r.1.body, user) == Some(Conversation(user, OrElse(title, DefaultTitle), []))
              && ConversationsOf(r.0, user) == ConversationsOf(st, user) + {r.1.body}
  {
    if fails then (st, Failure(500, CreateFailed))
    else
      var (st1, id) := CreateConversation(st, user, OrElse(title, DefaultTitle));
      CreateThenDeleteListing(st, user, OrElse(title, DefaultTitle));
      (st1, Success(201, id))
  }

  /** DELETE /api/conversations/:id: 204 whether or not the conversation
      existed or belonged to the user. */
  function DeleteRoute(st: Store, id: int, user: string, fails: bool): (r: (Store, Reply<()>))
    requires Valid(st)
    ensures Valid(r.0)
    ensures fails ==> r == (st, Failure(500, DeleteFailed))
    ensures !fails ==> r.1 == Success(204, ())
    ensures !fails ==> GetConversation(r.0, id, user).None?
    ensures forall other :: other != id ==> GetConversation(r.0, other, user) == GetConversation(st, other, user)
    ensures GetConversation(st, id, user).None? ==> r.0 == st
    ensures forall other, u :: u != user ==> GetConversation(r.0, other, u) == GetConversation(st, other, u)
  {
    if fails then
      (st, Failure(500, DeleteFailed))
    else
      (DeleteConversation(st, id, user), Success(204, ()))
  }
}
