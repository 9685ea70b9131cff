/** The conversation controllers. Each is a pure function from the chat store,
    the caller (where the controller reads it) and the request body fields to
    the next store and the response. */
module ChatControllers {
  import opened Wrappers
  import opened Mongo
  import opened Http
  import opened ChatModel

  datatype Outcome = Outcome(store: ChatStore, response: Response<Chat>)

  /** The placeholder name given to a new one-on-one chat. */
  const DirectChatName := "sender"
  const FillAllFields := "Please fill all the fields"
  const TooFewUsers := "More than 2 users are required to form a group chat"
  const ChatNotFound := "Chat not found"

  /** Find-or-create the one-on-one chat between `caller` and `userId`. */
  function AccessChat(store: ChatStore, caller: UserId, userId: Option<string>): (o: Outcome)
    ensures !Truthy(userId) ==> o == Outcome(store, Error(StatusBadRequest, BadRequestText))
    // an existing chat matches: the first one in store order is returned, nothing is written
    ensures Truthy(userId) && (exists i :: 0 <= i < |store| && IsDirectBetween(store[i], caller, userId.value)) ==>
      && o.store == store
      && o.response.Ok? && o.response.code == StatusOk
      && exists i :: 0 <= i < |store| && o.response.body == store[i]
           && IsDirectBetween(store[i], caller, userId.value)
           && forall k :: 0 <= k < i ==> !IsDirectBetween(store[k], caller, userId.value)
    // no chat matches: exactly one new direct chat is appended and returned
    ensures Truthy(userId) && (forall i :: 0 <= i < |store| ==> !IsDirectBetween(store[i], caller, userId.value)) ==>
      && |o.store| == |store| + 1
      && o.store[..|store|] == store
      && o.response == Ok(StatusOk, o.store[|store|])
      && o.store[|store|].chatName == DirectChatName
      && !o.store[|store|].isGroupChat
      && o.store[|store|].users == [caller, userId.value]
      && o.store[|store|].groupAdmin == None
      && forall i :: 0 <= i < |store| ==> store[i].id != o.store[|store|].id
    ensures UniqueIds(store) ==> UniqueIds(o.store)
  {
    if !Truthy(userId) then
      Outcome(store, Error(StatusBadRequest, BadRequestText))
    else
      match FindDirect(store, caller, userId.value)
      case Some(i) => Outcome(store, Ok(StatusOk, store[i]))
      case None =>
        var c := Chat(NewChatId(store), DirectChatName, false, [caller, userId.value], None);
        Outcome(store + [c], Ok(StatusOk, c))
  }

  /** Create a group named `name` from the already parsed `users` list; the
      creator is appended to the members and made admin. `users` is None when
      the field is absent or empty. */
  function CreateGroupChat(store: ChatStore, caller: UserId, users: Option<seq<UserId>>, name: Option<string>): (o: Outcome)
    ensures users.None? || !Truthy(name) ==> o == Outcome(store, Error(StatusBadRequest, FillAllFields))
    ensures users.Some? && Truthy(name) && |users.value| < 2 ==>
      o == Outcome(store, Error(StatusBadRequest, TooFewUsers))
    ensures users.Some? && Truthy(name) && |users.value| >= 2 ==>
      && |o.store| == |store| + 1
      && o.store[..|store|] == store
      && o.response == Ok(StatusOk, o.store[|store|])
      && o.store[|store|].chatName == name.value
      && o.store[|store|].isGroupChat
      && o.store[|store|].users == users.value + [caller]
      && o.store[|store|].groupAdmin == Some(caller)
      && forall i :: 0 <= i < |store| ==> store[i].id != o.store[|store|].id
    ensures o.response.Ok? ==> GroupWellFormed(o.response.body) && |o.response.body.users| >= 3
    ensures GroupsWellFormed(store) ==> GroupsWellFormed(o.store)
    ensures UniqueIds(store) ==> UniqueIds(o.store)
    ensures DistinctDirectChats(store) ==> DistinctDirectChats(o.store)
  {
    if users.None? || !Truthy(name) then
      Outcome(store, Error(StatusBadRequest, FillAllFields))
    else if |users.value| < 2 then
      Outcome(store, Error(StatusBadRequest, TooFewUsers))
    else
      var c := Chat(NewChatId(store), name.value, true, Push(users.value, caller), Some(caller));
      Outcome(store + [c], Ok(StatusOk, c))
  }

  /** `findByIdAndUpdate(chatId, update, {new: true})`: apply `update` to the
      chat with this id and return the updated chat, or 404. */
  function FindByIdAndUpdate(store: ChatStore, chatId: ObjectId, update: Chat -> Chat): (o: Outcome)
    ensures FindById(store, chatId).None? ==> o == Outcome(store, Error(StatusNotFound, ChatNotFound))
    ensures FindById(store, chatId).Some? ==>
      var i := FindById(store, chatId).value;
      && o.store == store[i := update(store[i])]
      && o.response == Ok(StatusOk, update(store[i]))
  {
    match FindById(store, chatId)
    case None => Outcome(store, Error(StatusNotFound, ChatNotFound))
    case Some(i) =>
      var c := update(store[i]);
      Outcome(store[i := c], Ok(StatusOk, c))
  }

  /** Replace the name of a chat. The caller is not consulted. */
  function RenameGroup(store: ChatStore, chatId: Option<string>, chatName: Option<string>): (o: Outcome)
    ensures !Truthy(chatId) || !Truthy(chatName) ==> o == Outcome(store, Error(StatusBadRequest, FillAllFields))
    ensures Truthy(chatId) && Truthy(chatName) && (forall k :: 0 <= k < |store| ==> store[k].id != chatId.value) ==>
      o == Outcome(store, Error(StatusNotFound, ChatNotFound))
    ensures Truthy(chatId) && Truthy(chatName) && (exists k :: 0 <= k < |store| && store[k].id == chatId.value) ==>
      exists i :: 0 <= i < |store| && store[i].id == chatId.value
        && o.store == store[i := store[i].(chatName := chatName.value)]
        && o.response == Ok(StatusOk, o.store[i])
    ensures UniqueIds(store) ==> UniqueIds(o.store)
    ensures GroupsWellFormed(store) ==> GroupsWellFormed(o.store)
    ensures DistinctDirectChats(store) ==> DistinctDirectChats(o.store)
  {
    if !Truthy(chatId) || !Truthy(chatName) then
      Outcome(store, Error(StatusBadRequest, FillAllFields))
    else
      FindByIdAndUpdate(store, chatId.value, (c: Chat) => c.(chatName := chatName.value))
  }

  /** `$push` a user onto a chat's members. Neither the caller nor
      `isGroupChat` is checked, and an existing member is added again. */
  function AddToGroup(store: ChatStore, chatId: Option<string>, userId: Option<string>): (o: Outcome)
    ensures !Truthy(chatId) || !Truthy(userId) ==> o == Outcome(store, Error(StatusBadRequest, FillAllFields))
    ensures Truthy(chatId) && Truthy(userId) && (forall k :: 0 <= k < |store| ==> store[k].id != chatId.value) ==>
      o == Outcome(store, Error(StatusNotFound, ChatNotFound))
    ensures Truthy(chatId) && Truthy(userId) && (exists k :: 0 <= k < |store| && store[k].id == chatId.value) ==>
      exists i :: 0 <= i < |store| && store[i].id == chatId.value
        && o.store == store[i := store[i].(users := store[i].users + [userId.value])]
        && o.response == Ok(StatusOk, o.store[i])
    ensures UniqueIds(store) ==> UniqueIds(o.store)
    ensures GroupsWellFormed(store) ==> GroupsWellFormed(o.store)
  {
    if !Truthy(chatId) || !Truthy(userId) then
      Outcome(store, Error(StatusBadRequest, FillAllFields))
    else
      FindByIdAndUpdate(store, chatId.value, (c: Chat) => c.(users := Push(c.users, userId.value)))
  }

  /** `$pull` a user from a chat's members: every occurrence goes. Neither the
      caller, `isGroupChat` nor the admin is checked. */
  function RemoveFromGroup(store: ChatStore, chatId: Option<string>, userId: Option<string>): (o: Outcome)
    ensures !Truthy(chatId) || !Truthy(userId) ==> o == Outcome(store, Error(StatusBadRequest, FillAllFields))
    ensures Truthy(chatId) && Truthy(userId) && (forall k :: 0 <= k < |store| ==> store[k].id != chatId.value) ==>
      o == Outcome(store, Error(StatusNotFound, ChatNotFound))
    ensures Truthy(chatId) && Truthy(userId) && (exists k :: 0 <= k < |store| && store[k].id == chatId.value) ==>
      exists i :: 0 <= i < |store| && store[i].id == chatId.value
        && o.store == store[i := store[i].(users := Pull(store[i].users, userId.value))]
        && o.response == Ok(StatusOk, o.store[i])
        && userId.value !in o.store[i].users
    ensures UniqueIds(store) ==> UniqueIds(o.store)
  {
    if !Truthy(chatId) || !Truthy(userId) then
      Outcome(store, Error(StatusBadRequest, FillAllFields))
    else
      FindByIdAndUpdate(store, chatId.value, (c: Chat) => c.(users := Pull(c.users, userId.value)))
  }
}
