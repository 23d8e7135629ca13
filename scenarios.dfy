/** Where the set as written departs from what a Set promises, each next to
    the behaviour evidently intended. The class methods are proved to act as
    the functions of SetSpec say, so the lemmas below hold for the class. */
module Scenarios {
  import opened Handles
  import opened Store
  import opened SetSpec
  import opened PhantomSet

  /** A set with nothing in it. */
  function Empty<E>(phantom: bool): Stored<E> {
    Stored(Refs(phantom, map[]), [], 0)
  }

  /** As written: with phantom references `get()` answers null, so the
      element add(e) accepts into an empty set is not contained and toArray
      does not list it. */
  lemma PhantomAddIsInvisible<E>(hashOf: E -> int, e: E)
    ensures var (st, b) := AddStep(Empty(true), hashOf, e);
      && b && |st.store| == 1
      && !Held(st.refs, st.store, Some(e))
      && LiveElems(st.refs, st.store) == []
  {
    var (st, b) := AddStep(Empty(true), hashOf, e);
    assert st.store == [0];
    PhantomLiveElemsEmpty(st.refs, st.store);
  }

  /** As intended: with references whose `get()` answers the referent until
      it is collected, the element is contained and listed. */
  lemma WeakAddIsVisible<E>(hashOf: E -> int, e: E)
    ensures var (st, b) := AddStep(Empty(false), hashOf, e);
      && b && |st.store| == 1
      && Held(st.refs, st.store, Some(e))
      && LiveElems(st.refs, st.store) == [e]
  {
    var (st, b) := AddStep(Empty(false), hashOf, e);
    assert st.store == [0];
    assert st.store == [] + [0];
    LiveElemsSnoc(st.refs, [], 0);
  }

  /** As written: with phantom references every two references are equal,
      so after add(a) the store takes a distinct b with a's hash code for a
      duplicate, and add(b) answers false and leaves the store as it is. */
  lemma PhantomCollisionRejects<E>(hashOf: E -> int, a: E, b: E)
    requires hashOf(a) == hashOf(b)
    ensures var (st1, added1) := AddStep(Empty(true), hashOf, a);
      var (st2, added2) := AddStep(st1, hashOf, b);
      added1 && !added2 && st2.store == st1.store
  {
    var (st1, added1) := AddStep(Empty(true), hashOf, a);
    assert st1.store == [0];
    var r' := WithFresh(st1.refs, 1, b, hashOf);
    assert SameKey(r', 1, st1.store[0]);
  }

  /** As intended: a distinct element with the same hash code is added, and
      afterwards both are contained. */
  lemma WeakCollisionAccepts<E>(hashOf: E -> int, a: E, b: E)
    requires hashOf(a) == hashOf(b) && a != b
    ensures var (st1, added1) := AddStep(Empty(false), hashOf, a);
      var (st2, added2) := AddStep(st1, hashOf, b);
      && added1 && added2 && |st2.store| == 2
      && Held(st2.refs, st2.store, Some(a)) && Held(st2.refs, st2.store, Some(b))
  {
    var (st1, added1) := AddStep(Empty(false), hashOf, a);
    assert st1.store == [0];
    AddStepAnswer(st1, hashOf, b);
    AddStepHolds(st1, hashOf, b);
    var st2 := AddStep(st1, hashOf, b).0;
    assert st2.store[0] == 0;
  }

  /** Two live references of a snapshot without duplicate referents answer
      different elements, so neither is the same key as the other. */
  lemma LiveSnapshotKeys<E>(r: Refs<E>, snap: seq<Handle>, i: nat, j: nat)
    requires i < j < |snap| && NoDuplicates(r, snap)
    requires r.Get(snap[i]).Some? && r.Get(snap[j]).Some?
    ensures r.Get(snap[i]) != r.Get(snap[j]) && !SameKey(r, snap[j], snap[i])
  {
  }

  /** next() with no element found yet: it returns the element of the first
      live reference from the iterator's position and keeps every stored
      reference the collector has not cleared, adding none. */
  method NextKeeping<E(==)>(it: SetIterator<E>) returns (x: Result<E>)
    requires it.Valid() && it.elem.None?
    modifies it, it.owner
    ensures it.Valid() && it.elem.None? && it.owner.cells == old(it.owner.cells)
    ensures x.Ok? <==> NextLive(it.owner.View(), it.snap, old(it.pos)) < |it.snap|
    ensures x.Ok? ==>
      && 0 < it.pos && it.pos - 1 == NextLive(it.owner.View(), it.snap, old(it.pos))
      && it.lastReturned == Some(it.snap[it.pos - 1])
      && it.owner.View().Get(it.snap[it.pos - 1]) == Some(x.value)
    ensures forall h :: h in old(it.owner.store) && !it.owner.View().Cleared(h) ==> h in it.owner.store
    ensures forall h :: h in it.owner.store ==> h in old(it.owner.store)
  {
    ghost var r, s0 := it.owner.View(), it.owner.store;
    x := it.Next();
    forall h ensures h in Uncleared(r, s0) <==> h in s0 && !r.Cleared(h) {
      SweepRemovesCleared(r, s0, h);
    }
  }

  /** hasNext() with no element found yet: it answers whether a live
      reference follows, visits it, and keeps every stored reference the
      collector has not cleared, adding none. */
  method LookaheadKeeping<E(==)>(it: SetIterator<E>) returns (more: bool)
    requires it.Valid() && it.elem.None?
    modifies it, it.owner
    ensures it.Valid() && it.owner.cells == old(it.owner.cells)
    ensures it.lastReturned == old(it.lastReturned)
    ensures more <==> NextLive(it.owner.View(), it.snap, old(it.pos)) < |it.snap|
    ensures more ==>
      && old(it.pos) < it.pos && it.lastVisited == Some(it.snap[it.pos - 1])
      && it.elem.Some? && it.owner.View().Get(it.snap[it.pos - 1]) == it.elem
    ensures forall h :: h in old(it.owner.store) && !it.owner.View().Cleared(h) ==> h in it.owner.store
    ensures forall h :: h in it.owner.store ==> h in old(it.owner.store)
  {
    ghost var r, s0 := it.owner.View(), it.owner.store;
    more := it.HasNext();
    forall h ensures h in Uncleared(r, s0) <==> h in s0 && !r.Cleared(h) {
      SweepRemovesCleared(r, s0, h);
    }
  }

  /** next() and then hasNext(): next returns the element of the first live
      reference from the iterator's position, and hasNext answers whether
      another live reference follows it, having visited that one. Together
      they drop only references the collector has cleared, so the returned
      reference stays in the set. */
  method NextThenLookahead<E(==)>(it: SetIterator<E>) returns (x: Result<E>, k: nat, more: bool)
    requires it.Valid() && it.elem.None?
    modifies it, it.owner
    ensures it.Valid() && it.owner.cells == old(it.owner.cells)
    ensures x.Ok? <==> NextLive(it.owner.View(), it.snap, old(it.pos)) < |it.snap|
    ensures x.Ok? ==>
      && k == NextLive(it.owner.View(), it.snap, old(it.pos))
      && it.lastReturned == Some(it.snap[k])
      && it.owner.View().Get(it.snap[k]) == Some(x.value)
      && (more <==> NextLive(it.owner.View(), it.snap, k + 1) < |it.snap|)
      && (it.snap[k] in old(it.owner.store) ==> it.snap[k] in it.owner.store)
    ensures forall h :: h in old(it.owner.store) && !it.owner.View().Cleared(h) ==> h in it.owner.store
    ensures forall h :: h in it.owner.store ==> h in old(it.owner.store)
    ensures more ==>
      && x.Ok? && k < it.pos - 1 && it.lastVisited == Some(it.snap[it.pos - 1])
      && it.elem.Some? && it.owner.View().Get(it.snap[it.pos - 1]) == it.elem
  {
    k, more := 0, false;
    x := NextKeeping(it);
    if x.Ok? {
      k := it.pos - 1;
      more := LookaheadKeeping(it);
    }
  }

  /** As written: next() answers an element, hasNext() looks ahead to the
      next one, and then remove() takes out the reference hasNext visited
      (whose element the following next() would still answer) rather than
      the one whose element next answered, which stays in the set. hasNext
      answers true exactly when a live reference follows the returned one,
      so the case arises for every iterator with two live references ahead. */
  method RemoveAfterLookahead<E(==)>(it: SetIterator<E>)
    returns (x: Result<E>, k: nat, more: bool, before: seq<Handle>, gone: Handle)
    requires it.Valid() && it.elem.None? && NoDuplicates(it.owner.View(), it.snap)
    modifies it, it.owner
    ensures it.owner.cells == old(it.owner.cells)
    ensures x.Ok? <==> NextLive(it.owner.View(), it.snap, old(it.pos)) < |it.snap|
    ensures x.Ok? ==>
      && k == NextLive(it.owner.View(), it.snap, old(it.pos))
      && it.lastReturned == Some(it.snap[k])
      && it.owner.View().Get(it.snap[k]) == Some(x.value)
      && (more <==> NextLive(it.owner.View(), it.snap, k + 1) < |it.snap|)
    ensures more ==>
      && x.Ok? && gone != it.snap[k]
      && it.elem.Some? && it.owner.View().Get(gone) == it.elem && it.elem != Some(x.value)
      && it.owner.store == RemoveKey(it.owner.View(), before, gone)
      && (it.snap[k] in old(it.owner.store) ==> it.snap[k] in it.owner.store)
    ensures more && gone in old(it.owner.store) ==>
      && gone !in it.owner.store
      && forall h :: h in old(it.owner.store) && !it.owner.View().Cleared(h) && h != gone ==> h in it.owner.store
    ensures forall h :: h in it.owner.store ==> h in old(it.owner.store)
  {
    gone, before := 0, [];
    ghost var r := it.owner.View();
    x, k, more := NextThenLookahead(it);
    if more {
      gone := it.lastVisited.value;
      LiveSnapshotKeys(r, it.snap, k, it.pos - 1);
      before := it.owner.store;
      if it.snap[k] in before {
        RemoveKeyKeeps(r, before, gone, it.snap[k]);
      }
      if gone in before {
        RemoveKeyLive(r, before, gone);
      } else {
        RemoveKeyShrinks(r, before, gone);
      }
      var _ := it.Remove();
    }
  }

  /** As intended: remove() takes out the reference whose element next()
      answered, whatever hasNext() looked at since, and no other live
      reference. */
  method RemoveReturnedAfterLookahead<E(==)>(it: SetIterator<E>) returns (x: Result<E>, more: bool, before: seq<Handle>, gone: Handle)
    requires it.Valid() && it.elem.None?
    modifies it, it.owner
    ensures it.owner.cells == old(it.owner.cells)
    ensures x.Ok? <==> NextLive(it.owner.View(), it.snap, old(it.pos)) < |it.snap|
    ensures x.Ok? ==>
      && gone == it.snap[NextLive(it.owner.View(), it.snap, old(it.pos))]
      && it.owner.View().Get(gone) == Some(x.value)
      && it.owner.store == RemoveKey(it.owner.View(), before, gone)
    ensures x.Ok? && gone in old(it.owner.store) ==>
      && gone !in it.owner.store
      && forall h :: h in old(it.owner.store) && !it.owner.View().Cleared(h) && h != gone ==> h in it.owner.store
    ensures forall h :: h in it.owner.store ==> h in old(it.owner.store)
  {
    gone, before := 0, [];
    ghost var r := it.owner.View();
    var k;
    x, k, more := NextThenLookahead(it);
    if x.Err? {
      return;
    }
    gone := it.snap[k];
    before := it.owner.store;
    if gone in before {
      RemoveKeyLive(r, before, gone);
    } else {
      RemoveKeyShrinks(r, before, gone);
    }
    var _ := it.RemoveReturned();
  }

  /** As written: with phantom references hasNext() on a new iterator visits
      every reference of its snapshot and answers false, and remove() then
      succeeds and takes the last visited reference out of the set, although
      next() has returned nothing. */
  method RemoveWithoutNext<E(==)>(it: SetIterator<E>) returns (more: bool, r: Result<()>)
    requires it.Valid() && it.owner.phantom && 0 < |it.snap|
    requires it.pos == 0 && it.elem.None? && it.lastVisited.None? && it.lastReturned.None?
    modifies it, it.owner
    ensures !more && it.lastReturned.None? && r == Ok(())
    ensures var last := it.snap[|it.snap| - 1];
      last in old(it.owner.store) && !old(it.owner.View()).Cleared(last) ==> last !in it.owner.store
  {
    ghost var r0, s0 := it.owner.View(), it.owner.store;
    ghost var last := it.snap[|it.snap| - 1];
    more := it.HasNext();
    assert NextLive(r0, it.snap, 0) == |it.snap|;
    assert it.lastVisited == Some(last);
    ghost var before := it.owner.store;
    if last in s0 && !r0.Cleared(last) {
      SweepRemovesCleared(r0, s0, last);
      var i :| 0 <= i < |before| && before[i] == last;
      RemoveKeyRemovesItself(r0, before, i);
      RemoveAtMembers(before, i);
    }
    r := it.Remove();
  }

  /** As intended: remove() with nothing returned by next() fails with
      IllegalState and leaves the set as hasNext() left it. */
  method RemoveReturnedWithoutNext<E(==)>(it: SetIterator<E>) returns (more: bool, r: Result<()>)
    requires it.Valid() && it.owner.phantom && 0 < |it.snap|
    requires it.pos == 0 && it.elem.None? && it.lastVisited.None? && it.lastReturned.None?
    modifies it, it.owner
    ensures !more && r == Err(IllegalState)
    ensures forall h :: h in it.owner.store <==> h in old(it.owner.store) && !it.owner.View().Cleared(h)
  {
    ghost var r0, s0 := it.owner.View(), it.owner.store;
    more := it.HasNext();
    assert NextLive(r0, it.snap, 0) == |it.snap|;
    forall h ensures h in Uncleared(r0, s0) <==> h in s0 && !r0.Cleared(h) {
      SweepRemovesCleared(r0, s0, h);
    }
    r := it.RemoveReturned();
  }

  /** clear() leaves the reference queue as it is: the next sweep still
      polls the references the collector enqueued before clear(), and onGc
      runs once for each of them. */
  method ClearThenSize<E(==)>(s: PhantomHashSet<E>) returns (n: nat)
    requires s.Valid()
    modifies s
    ensures n == 0 && s.store == [] && s.queue == []
    ensures s.gcLog == old(s.gcLog) + Nulls(|old(s.queue)|)
  {
    s.Clear();
    n := s.Size();
  }
}
