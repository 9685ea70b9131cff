/** The chat collection: a chat record as the controllers read and write it, the
    store as the sequence of chats in insertion order, the two queries the
    controllers run against it, and the invariants a well-kept store has. */
module ChatModel {
  import opened Wrappers
  import opened Mongo

  /** A chat document. `users` is an array, so order and repetitions are kept. */
  datatype Chat = Chat(
    id: ObjectId,
    chatName: string,
    isGroupChat: bool,
    users: seq<UserId>,
    groupAdmin: Option<UserId>)

  type ChatStore = seq<Chat>

  /** The id a newly created chat receives. */
  function NewChatId(store: ChatStore): (id: ObjectId)
    ensures id != ""
    ensures forall i :: 0 <= i < |store| ==> store[i].id != id
  {
    FreshIdFor(store, (c: Chat) => c.id)
  }

  /** No two chats share an id. */
  predicate UniqueIds(store: ChatStore) {
    forall i, j :: 0 <= i < |store| && 0 <= j < |store| && store[i].id == store[j].id ==> i == j
  }

  /** `findById`: the position of the first chat with this id. */
  function FindById(store: ChatStore, id: ObjectId): (r: Option<nat>)
    ensures r.Some? ==> r.value < |store| && store[r.value].id == id
    ensures r.Some? ==> forall k :: 0 <= k < r.value ==> store[k].id != id
    ensures r.None? <==> forall k :: 0 <= k < |store| ==> store[k].id != id
  {
    FindFirst(store, (c: Chat) => c.id == id)
  }

  /** The one-on-one query: not a group, and `users` contains both ids. The test
      is containment, so a chat with extra members matches too, and when
      `a == b` any direct chat containing `a` matches. */
  predicate IsDirectBetween(c: Chat, a: UserId, b: UserId) {
    !c.isGroupChat && a in c.users && b in c.users
  }

  /** The position of the first chat the one-on-one query matches. */
  function FindDirect(store: ChatStore, a: UserId, b: UserId): (r: Option<nat>)
    ensures r.Some? ==> r.value < |store| && IsDirectBetween(store[r.value], a, b)
    ensures r.Some? ==> forall k :: 0 <= k < r.value ==> !IsDirectBetween(store[k], a, b)
    ensures r.None? <==> forall k :: 0 <= k < |store| ==> !IsDirectBetween(store[k], a, b)
  {
    FindFirst(store, (c: Chat) => IsDirectBetween(c, a, b))
  }

  /** The set of member ids of a chat. */
  function Members(c: Chat): set<UserId> {
    set u | u in c.users
  }

  /** No two direct chats have the same members: the "one conversation per
      pair" invariant. */
  predicate DistinctDirectChats(store: ChatStore) {
    forall i, j :: 0 <= i < j < |store| && !store[i].isGroupChat && !store[j].isGroupChat ==>
      Members(store[i]) != Members(store[j])
  }

  /** A group has an admin who is a member, and at least three entries. */
  predicate GroupWellFormed(c: Chat) {
    c.isGroupChat ==> c.groupAdmin.Some? && c.groupAdmin.value in c.users && |c.users| >= 3
  }

  predicate GroupsWellFormed(store: ChatStore) {
    forall i :: 0 <= i < |store| ==> GroupWellFormed(store[i])
  }
}
