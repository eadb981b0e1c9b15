/** The conversation store the chat routes rely on (`chatStorage`), as an
    abstract map from conversation ids to conversations. Only the behaviour
    the routes assume is modelled: a conversation is visible to its owner
    only, new conversations get fresh ids, and messages are kept in the
    order they were created. */
module ChatStore {
  import opened Wrappers

  /** The role strings the routes store: `"user"` and `"assistant"`. */
  datatype Role = User | Assistant

  datatype Message = Message(role: Role, content: string)

  datatype Conversation = Conversation(owner: string, title: string, messages: seq<Message>)

  datatype Store = Store(conversations: map<int, Conversation>, nextId: int)

  /** Ids handed out so far are all below `nextId`, and ids are positive
      (a serial key). */
  predicate Valid(st: Store) {
    && st.nextId >= 1
    && forall id :: id in st.conversations ==> 1 <= id < st.nextId
  }

  const Empty := Store(map[], 1)

  /** `getConversation(id, userId)`: the conversation when it exists and
      belongs to `user`. */
  function GetConversation(st: Store, id: int, user: string): (r: Option<Conversation>)
    ensures r.Some? <==> id in st.conversations && st.conversations[id].owner == user
    ensures r.Some? ==> r.value == st.conversations[id]
  {
    if id in st.conversations && st.conversations[id].owner == user
    then Some(st.conversations[id]) else None
  }

  /** `getMessagesByConversation(id)`, in creation order. */
  function MessagesOf(st: Store, id: int): seq<Message> {
    if id in st.conversations then st.conversations[id].messages else []
  }

  /** `getAllConversations(userId)`: the ids of the user's conversations. */
  function ConversationsOf(st: Store, user: string): (r: set<int>)
    ensures forall id :: id in r <==> GetConversation(st, id, user).Some?
  {
    set id | id in st.conversations && st.conversations[id].owner == user
  }

  /** `createConversation(userId, title)`: a fresh, empty conversation. */
  function CreateConversation(st: Store, user: string, title: string): (r: (Store, int))
    requires Valid(st)
    ensures Valid(r.0)
    ensures r.1 !in st.conversations
    ensures GetConversation(r.0, r.1, user) == Some(Conversation(user, title, []))
    ensures forall id :: id != r.1 ==> GetConversation(r.0, id, user) == GetConversation(st, id, user)
    ensures forall id :: id in st.conversations ==> id in r.0.conversations && r.0.conversations[id] == st.conversations[id]
  {
    var id := st.nextId;
    (Store(st.conversations[id := Conversation(user, title, [])], id + 1), id)
  }

  /** `deleteConversation(id, userId)`: removes the conversation when the
      user owns it, and does nothing otherwise. */
  function DeleteConversation(st: Store, id: int, user: string): (r: Store)
    requires Valid(st)
    ensures Valid(r)
    ensures GetConversation(r, id, user).None?
    ensures GetConversation(st, id, user).None? ==> r == st
    ensures forall other :: other != id && other in st.conversations ==>
              other in r.conversations && r.conversations[other] == st.conversations[other]
  {
    if GetConversation(st, id, user).Some?
    then Store(st.conversations - {id}, st.nextId) else st
  }

  /** `createMessage(id, role, content)`: appends to an existing
      conversation. */
  function CreateMessage(st: Store, id: int, role: Role, content: string): (r: Store)
    requires Valid(st)
    ensures Valid(r)
    ensures id in st.conversations ==> MessagesOf(r, id) == MessagesOf(st, id) + [Message(role, content)]
    ensures id !in st.conversations ==> r == st
    ensures forall other :: other != id ==> MessagesOf(r, other) == MessagesOf(st, other)
    ensures forall other, user :: GetConversation(r, other, user).Some? <==> GetConversation(st, other, user).Some?
  {
    if id in st.conversations then
      var c := st.conversations[id];
      Store(st.conversations[id := c.(messages := c.messages + [Message(role, content)])], st.nextId)
    else st
  }

  /** A conversation just created is listed for its owner; one just deleted
      is not, and no other conversation of the user changes visibility. */
  lemma CreateThenDeleteListing(st: Store, user: string, title: string)
    requires Valid(st)
    ensures var (st1, id) := CreateConversation(st, user, title);
            && ConversationsOf(st1, user) == ConversationsOf(st, user) + {id}
            && ConversationsOf(DeleteConversation(st1, id, user), user) == ConversationsOf(st, user)
  {
    var (st1, id) := CreateConversation(st, user, title);
    var st2 := DeleteConversation(st1, id, user);
    assert ConversationsOf(st1, user) == ConversationsOf(st, user) + {id} by {
      forall x ensures x in ConversationsOf(st1, user) <==> x in ConversationsOf(st, user) + {id} {
        if x != id {
          assert GetConversation(st1, x, user) == GetConversation(st, x, user);
        }
      }
    }
    forall x ensures x in ConversationsOf(st2, user) <==> x in ConversationsOf(st, user) {
      if x != id && x in st.conversations {
        assert GetConversation(st1, x, user) == GetConversation(st, x, user);
      }
    }
  }
}
