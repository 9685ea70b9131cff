/** The document-store operations the controllers rely on: allocation of fresh
    object ids, `find` in natural (insertion) order, and the `$push` and `$pull`
    array updates. A collection is a sequence of documents in insertion order. */
module Mongo {
  import opened Wrappers

  /** An opaque document identifier, compared only for equality. */
  type ObjectId = string

  /** The id of a user document, as it appears in other documents. */
  type UserId = ObjectId

  /** An upper bound on the length of every id in `ids`. */
  function MaxLength(ids: seq<ObjectId>): (m: nat)
    ensures forall i :: 0 <= i < |ids| ==> |ids[i]| <= m
    ensures |ids| > 0 ==> exists i :: 0 <= i < |ids| && |ids[i]| == m
  {
    if |ids| == 0 then 0
    else
      var rest := MaxLength(ids[1..]);
      if |ids[0]| >= rest then |ids[0]| else rest
  }

  /** A non-empty id that differs from every id in `used`: the store never hands
      out an id twice. */
  function FreshId(used: seq<ObjectId>): (id: ObjectId)
    ensures id != ""
    ensures id !in used
  {
    seq(MaxLength(used) + 1, _ => 'o')
  }

  /** A fresh id for a new document of `docs`, whose ids `idOf` reads. */
  function FreshIdFor<T>(docs: seq<T>, idOf: T -> ObjectId): (id: ObjectId)
    ensures id != ""
    ensures forall i :: 0 <= i < |docs| ==> idOf(docs[i]) != id
  {
    var ids := seq(|docs|, i requires 0 <= i < |docs| => idOf(docs[i]));
    var id := FreshId(ids);
    assert forall i :: 0 <= i < |docs| ==> ids[i] == idOf(docs[i]);
    id
  }

  /** Index of the first element satisfying `p`, scanning in insertion order;
      `find(...)` followed by `[0]`, and `findOne`. */
  function FindFirst<T>(s: seq<T>, p: T -> bool): (r: Option<nat>)
    ensures r.Some? ==> r.value < |s| && p(s[r.value])
    ensures r.Some? ==> forall k :: 0 <= k < r.value ==> !p(s[k])
    ensures r.None? <==> forall k :: 0 <= k < |s| ==> !p(s[k])
  {
    if |s| == 0 then None
    else if p(s[0]) then Some(0)
    else
      match FindFirst(s[1..], p)
      case None => None
      case Some(i) => Some(i + 1)
  }

  /** `$push`: append `x` at the end, whether or not it is already present. */
  function Push(xs: seq<ObjectId>, x: ObjectId): (r: seq<ObjectId>)
    ensures |r| == |xs| + 1 && r[..|xs|] == xs && r[|xs|] == x
    ensures multiset(r)[x] == multiset(xs)[x] + 1
  {
    xs + [x]
  }

  /** `$pull`: remove every occurrence of `x`, keeping the other elements. */
  function Pull(xs: seq<ObjectId>, x: ObjectId): (r: seq<ObjectId>)
    ensures x !in r
    ensures forall y :: y != x ==> multiset(r)[y] == multiset(xs)[y]
  {
    if |xs| == 0 then []
    else
      assert xs == [xs[0]] + xs[1..];
      (if xs[0] == x then [] else [xs[0]]) + Pull(xs[1..], x)
  }

  /** `$pull` works element by element, so it keeps the survivors in their order. */
  lemma {:induction false} PullAppend(a: seq<ObjectId>, b: seq<ObjectId>, x: ObjectId)
    ensures Pull(a + b, x) == Pull(a, x) + Pull(b, x)
  {
    if |a| == 0 {
      assert a + b == b;
    } else {
      var head := if a[0] == x then [] else [a[0]];
      assert (a + b)[0] == a[0];
      assert (a + b)[1..] == a[1..] + b;
      assert Pull(a + b, x) == head + Pull(a[1..] + b, x);
      assert Pull(a, x) == head + Pull(a[1..], x);
      PullAppend(a[1..], b, x);
      assert head + (Pull(a[1..], x) + Pull(b, x)) == (head + Pull(a[1..], x)) + Pull(b, x);
    }
  }

  /** Pulling an absent element changes nothing. */
  lemma {:induction false} PullAbsent(xs: seq<ObjectId>, x: ObjectId)
    requires x !in xs
    ensures Pull(xs, x) == xs
  {
    if |xs| > 0 {
      PullAbsent(xs[1..], x);
      assert xs == [xs[0]] + xs[1..];
    }
  }

  /** Pulling twice is pulling once. */
  lemma PullIdempotent(xs: seq<ObjectId>, x: ObjectId)
    ensures Pull(Pull(xs, x), x) == Pull(xs, x)
  {
    PullAbsent(Pull(xs, x), x);
  }

  /** `$pull` undoes a `$push` of the same element up to the removal of its
      earlier copies; when there were none, it restores the array exactly. */
  lemma PullPush(xs: seq<ObjectId>, x: ObjectId)
    ensures Pull(Push(xs, x), x) == Pull(xs, x)
    ensures x !in xs ==> Pull(Push(xs, x), x) == xs
  {
    PullAppend(xs, [x], x);
    assert Pull([x], x) == [];
    assert Pull(xs, x) + [] == Pull(xs, x);
    if x !in xs {
      PullAbsent(xs, x);
    }
  }
}
