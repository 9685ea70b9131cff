/** Properties relating several calls of the conversation controllers. */
module ChatLaws {
  import opened Wrappers
  import opened Mongo
  import opened Http
  import opened ChatModel
  import opened ChatControllers

  /** Sequential idempotence and symmetry of `accessChat`: asking again for the
      same pair, in either order, returns the same chat and writes nothing. */
  lemma AccessChatIdempotent(store: ChatStore, a: UserId, b: UserId)
    requires a != "" && b != ""
    ensures
      var o1 := AccessChat(store, a, Some(b));
      var o2 := AccessChat(o1.store, a, Some(b));
      var o3 := AccessChat(o2.store, b, Some(a));
      && o1.response.Ok?
      && o2 == Outcome(o1.store, o1.response)
      && o3 == Outcome(o1.store, o1.response)
  {
    var o1 := AccessChat(store, a, Some(b));
    FindDirectSymmetric(store, a, b);
    if FindDirect(store, a, b).None? {
      var c := o1.store[|store|];
      assert o1.store == store + [c];
      FindDirectAfterCreate(store, a, b, c);
      FindDirectSymmetric(o1.store, a, b);
    }
  }

  /** The one-on-one query does not depend on the order of the two ids. */
  lemma FindDirectSymmetric(store: ChatStore, a: UserId, b: UserId)
    ensures FindDirect(store, a, b) == FindDirect(store, b, a)
  {
    var r1 := FindDirect(store, a, b);
    var r2 := FindDirect(store, b, a);
    if r1.Some? {
      assert IsDirectBetween(store[r1.value], b, a);
      assert r2.Some?;
      assert !(r2.value < r1.value) && !(r1.value < r2.value);
    } else {
      assert forall k :: 0 <= k < |store| ==> !IsDirectBetween(store[k], b, a);
    }
  }

  /** A chat appended when the query found nothing is what the query finds next. */
  lemma FindDirectAfterCreate(store: ChatStore, a: UserId, b: UserId, c: Chat)
    requires FindDirect(store, a, b).None?
    requires IsDirectBetween(c, a, b)
    ensures FindDirect(store + [c], a, b) == Some(|store|)
  {
    var s1 := store + [c];
    assert s1[|store|] == c;
    assert forall k :: 0 <= k < |store| ==> s1[k] == store[k];
    var r := FindDirect(s1, a, b);
    assert r.Some?;
    assert !(r.value < |store|);
  }

  /** `accessChat` keeps the store free of two direct chats with the same
      members, sequentially: it creates a chat only when none contains both ids. */
  lemma AccessChatKeepsDirectChatsDistinct(store: ChatStore, caller: UserId, userId: Option<string>)
    requires DistinctDirectChats(store)
    ensures DistinctDirectChats(AccessChat(store, caller, userId).store)
  {
    if Truthy(userId) && FindDirect(store, caller, userId.value).None? {
      var s1 := AccessChat(store, caller, userId).store;
      var c := s1[|store|];
      assert caller in Members(c) && userId.value in Members(c);
      forall i | 0 <= i < |store| && !store[i].isGroupChat
        ensures Members(store[i]) != Members(c)
      {
        assert !IsDirectBetween(store[i], caller, userId.value);
      }
      forall i, j | 0 <= i < j < |s1| && !s1[i].isGroupChat && !s1[j].isGroupChat
        ensures Members(s1[i]) != Members(s1[j])
      {
        if j == |store| {
          assert s1[i] == store[i];
        } else {
          assert s1[i] == store[i] && s1[j] == store[j];
        }
      }
    }
  }

  /** With `userId` equal to the caller, any direct chat that contains the
      caller is returned, whatever its other members. */
  lemma AccessChatSelfMatchesAnyDirectChat(store: ChatStore, caller: UserId, i: nat)
    requires caller != ""
    requires i < |store| && !store[i].isGroupChat && caller in store[i].users
    ensures
      var o := AccessChat(store, caller, Some(caller));
      && o.store == store
      && o.response.Ok?
      && !o.response.body.isGroupChat
      && caller in o.response.body.users
  {
    assert IsDirectBetween(store[i], caller, caller);
  }

  /** An update that keeps the id keeps the position `findById` reports. */
  lemma FindByIdAfterUpdate(store: ChatStore, chatId: ObjectId, i: nat, c: Chat)
    requires FindById(store, chatId) == Some(i)
    requires c.id == store[i].id
    ensures FindById(store[i := c], chatId) == Some(i)
  {
    var s1 := store[i := c];
    assert s1[i].id == chatId;
    assert forall k :: 0 <= k < i ==> s1[k].id == store[k].id;
    var r := FindById(s1, chatId);
    assert r.Some?;
    assert !(r.value < i);
  }

  /** `addToGroup` on a chat `findById` locates. */
  lemma AddToGroupAt(store: ChatStore, chatId: ObjectId, x: UserId, i: nat)
    requires chatId != "" && x != ""
    requires FindById(store, chatId) == Some(i)
    ensures AddToGroup(store, Some(chatId), Some(x)).store == store[i := store[i].(users := store[i].users + [x])]
  {}

  /** `removeFromGroup` on a chat `findById` locates. */
  lemma RemoveFromGroupAt(store: ChatStore, chatId: ObjectId, x: UserId, i: nat)
    requires chatId != "" && x != ""
    requires FindById(store, chatId) == Some(i)
    ensures RemoveFromGroup(store, Some(chatId), Some(x)).store == store[i := store[i].(users := Pull(store[i].users, x))]
  {}

  /** The group-size rule: one invitee is refused, two are enough, and the
      creator is appended as the last member and made admin. */
  lemma CreateGroupChatMinimumSize(store: ChatStore, a: UserId, b: UserId, c: UserId, name: string)
    requires name != ""
    ensures CreateGroupChat(store, a, Some([b]), Some(name)) == Outcome(store, Error(StatusBadRequest, TooFewUsers))
    ensures
      var o := CreateGroupChat(store, a, Some([b, c]), Some(name));
      o.response.Ok? && o.response.body.users == [b, c, a] && o.response.body.groupAdmin == Some(a)
  {}

  /** `addToGroup` is not idempotent: adding the same user twice leaves two
      more entries in the chat's members. */
  lemma AddToGroupTwice(store: ChatStore, chatId: ObjectId, x: UserId)
    requires chatId != "" && x != ""
    requires exists k :: 0 <= k < |store| && store[k].id == chatId
    ensures
      var o1 := AddToGroup(store, Some(chatId), Some(x));
      var o2 := AddToGroup(o1.store, Some(chatId), Some(x));
      var i := FindById(store, chatId).value;
      && o2.store != o1.store
      && o2.store == store[i := store[i].(users := store[i].users + [x, x])]
  {
    var i := FindById(store, chatId).value;
    var u := store[i].users;
    var s1 := store[i := store[i].(users := u + [x])];
    AddToGroupAt(store, chatId, x, i);
    FindByIdAfterUpdate(store, chatId, i, s1[i]);
    AddToGroupAt(s1, chatId, x, i);
    assert s1[i].users + [x] == u + [x, x];
    UpdateMembersTwice(store, i, u + [x], u + [x, x]);
    assert |u + [x, x]| != |s1[i].users|;
  }

  /** Adding then removing a user leaves the chat's members as if the user had
      only been removed: the pushed copy and any earlier copies are gone, and
      everyone else is where they were. */
  lemma AddThenRemove(store: ChatStore, chatId: ObjectId, x: UserId)
    requires chatId != "" && x != ""
    requires exists k :: 0 <= k < |store| && store[k].id == chatId
    ensures
      var o1 := AddToGroup(store, Some(chatId), Some(x));
      var o2 := RemoveFromGroup(o1.store, Some(chatId), Some(x));
      var i := FindById(store, chatId).value;
      o2.store == store[i := store[i].(users := Pull(store[i].users, x))]
  {
    var i := FindById(store, chatId).value;
    var u := store[i].users;
    var s1 := store[i := store[i].(users := u + [x])];
    AddToGroupAt(store, chatId, x, i);
    FindByIdAfterUpdate(store, chatId, i, s1[i]);
    RemoveFromGroupAt(s1, chatId, x, i);
    PullPush(u, x);
    UpdateMembersTwice(store, i, u + [x], Pull(u, x));
  }

  /** Replacing a chat's members twice is replacing them once with the second list. */
  lemma UpdateMembersTwice(store: ChatStore, i: nat, u1: seq<UserId>, u2: seq<UserId>)
    requires i < |store|
    ensures
      var s1 := store[i := store[i].(users := u1)];
      s1[i := s1[i].(users := u2)] == store[i := store[i].(users := u2)]
  {}

  /** Round trip: adding a user who was not a member and removing them again
      restores the store exactly. */
  lemma AddThenRemoveRestores(store: ChatStore, chatId: ObjectId, x: UserId)
    requires chatId != "" && x != ""
    requires exists k :: 0 <= k < |store| && store[k].id == chatId
    requires forall k :: 0 <= k < |store| && store[k].id == chatId ==> x !in store[k].users
    ensures
      var o1 := AddToGroup(store, Some(chatId), Some(x));
      RemoveFromGroup(o1.store, Some(chatId), Some(x)).store == store
  {
    AddThenRemove(store, chatId, x);
    var i := FindById(store, chatId).value;
    var u := store[i].users;
    assert x !in u;
    PullAbsent(u, x);
    assert store[i].(users := Pull(u, x)) == store[i];
    assert store[i := store[i]] == store;
  }

  /** Removing a user who is not a member succeeds and changes nothing. */
  lemma RemoveAbsentIsNoOp(store: ChatStore, chatId: ObjectId, x: UserId)
    requires chatId != "" && x != ""
    requires exists k :: 0 <= k < |store| && store[k].id == chatId
    requires forall k :: 0 <= k < |store| && store[k].id == chatId ==> x !in store[k].users
    ensures RemoveFromGroup(store, Some(chatId), Some(x)) == Outcome(store, Ok(StatusOk, store[FindById(store, chatId).value]))
  {
    var i := FindById(store, chatId).value;
    PullAbsent(store[i].users, x);
    assert store[i := store[i].(users := store[i].users)] == store;
  }

  /** Removing the same user twice is removing them once. */
  lemma RemoveTwice(store: ChatStore, chatId: ObjectId, x: UserId)
    requires chatId != "" && x != ""
    ensures
      var o1 := RemoveFromGroup(store, Some(chatId), Some(x));
      RemoveFromGroup(o1.store, Some(chatId), Some(x)).store == o1.store
  {
    var o1 := RemoveFromGroup(store, Some(chatId), Some(x));
    match FindById(store, chatId)
    case None =>
    case Some(i) =>
      RemoveFromGroupAt(store, chatId, x, i);
      FindByIdAfterUpdate(store, chatId, i, o1.store[i]);
      RemoveFromGroupAt(o1.store, chatId, x, i);
      PullIdempotent(store[i].users, x);
      assert o1.store[i := o1.store[i].(users := o1.store[i].users)] == o1.store;
  }

  /** Nothing stops the admin from being removed: the group is left with an
      admin who is not a member. */
  lemma RemovingAdminBreaksGroup(store: ChatStore, chatId: ObjectId, x: UserId)
    requires chatId != "" && x != ""
    requires exists k :: 0 <= k < |store| && store[k].id == chatId
    requires forall k :: 0 <= k < |store| && store[k].id == chatId ==>
      store[k].isGroupChat && store[k].groupAdmin == Some(x)
    ensures
      var o := RemoveFromGroup(store, Some(chatId), Some(x));
      o.response.Ok? && !GroupWellFormed(o.response.body)
  {}
}
