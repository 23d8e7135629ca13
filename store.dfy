/** The backing store of the set (a concurrent hash set of references), seen
    single-threaded: a sequence of distinct handles in the store's iteration
    order. It finds a key by captured hash code plus `equals`, so a lookup
    can answer a reference other than the one it was given. */
module Store {
  import opened Handles

  predicate Distinct(s: seq<Handle>) {
    forall i, j :: 0 <= i < j < |s| ==> s[i] != s[j]
  }

  function RemoveAt(s: seq<Handle>, k: nat): (t: seq<Handle>)
    requires k < |s|
    ensures |t| == |s| - 1
    ensures forall i :: 0 <= i < |t| ==> t[i] == (if i < k then s[i] else s[i + 1])
  {
    s[..k] + s[k + 1..]
  }

  /** Removing one entry of a store without repetitions removes exactly that
      handle and keeps the store free of repetitions. */
  lemma RemoveAtMembers(s: seq<Handle>, k: nat)
    requires k < |s| && Distinct(s)
    ensures Distinct(RemoveAt(s, k))
    ensures forall x :: x in RemoveAt(s, k) <==> x in s && x != s[k]
  {
    var t := RemoveAt(s, k);
    forall x | x in s && x != s[k] ensures x in t {
      var i :| 0 <= i < |s| && s[i] == x;
      if i < k { assert t[i] == x; } else { assert t[i - 1] == x; }
    }
  }

  /** The store's key test: same captured hash code, then q.equals(x). */
  predicate SameKey<E>(r: Refs<E>, q: Handle, x: Handle) {
    r.Hash(x) == r.Hash(q) && r.Equal(q, x)
  }

  /** Where the store finds the key q: the first handle that is the same key,
      or |s| when there is none. */
  function FindKey<E>(r: Refs<E>, s: seq<Handle>, q: Handle): (k: nat)
    ensures k <= |s|
    ensures k < |s| ==> SameKey(r, q, s[k])
    ensures forall i :: 0 <= i < k ==> !SameKey(r, q, s[i])
  {
    if s == [] then 0
    else if SameKey(r, q, s[0]) then 0
    else 1 + FindKey(r, s[1..], q)
  }

  /** store.remove(q) */
  function RemoveKey<E>(r: Refs<E>, s: seq<Handle>, q: Handle): seq<Handle> {
    var k := FindKey(r, s, q);
    if k < |s| then RemoveAt(s, k) else s
  }

  /** store.remove(q) of a live stored reference takes out that reference
      and nothing else. */
  lemma RemoveKeyLive<E>(r: Refs<E>, s: seq<Handle>, q: Handle)
    requires WellFormed(r, s) && q in s && r.Get(q).Some?
    ensures forall h :: h in RemoveKey(r, s, q) <==> h in s && h != q
  {
    var i :| 0 <= i < |s| && s[i] == q;
    RemoveKeyRemovesItself(r, s, i);
    RemoveAtMembers(s, i);
  }

  /** store.remove(q) adds nothing. */
  lemma RemoveKeyShrinks<E>(r: Refs<E>, s: seq<Handle>, q: Handle)
    requires Distinct(s)
    ensures forall h :: h in RemoveKey(r, s, q) ==> h in s
  {
    var k := FindKey(r, s, q);
    if k < |s| {
      RemoveAtMembers(s, k);
    }
  }

  /** store.remove(q) keeps every stored handle that is not the same key as q. */
  lemma RemoveKeyKeeps<E>(r: Refs<E>, s: seq<Handle>, q: Handle, h: Handle)
    requires Distinct(s) && h in s && !SameKey(r, q, h)
    ensures h in RemoveKey(r, s, q)
  {
    var k := FindKey(r, s, q);
    if k < |s| {
      RemoveAtMembers(s, k);
    }
  }

  /** store.add(n): the new key goes in unless the store already has the same
      key; the boolean says whether it went in. */
  function AddKey<E>(r: Refs<E>, s: seq<Handle>, n: Handle): (res: (seq<Handle>, bool))
    ensures res.1 <==> forall i :: 0 <= i < |s| ==> !SameKey(r, n, s[i])
    ensures res.0 == if res.1 then s + [n] else s
  {
    if FindKey(r, s, n) < |s| then (s, false) else (s + [n], true)
  }

  // ---------------------------------------------------------------------
  // Invariants of the store

  predicate InCells<E>(r: Refs<E>, s: seq<Handle>) {
    forall i :: 0 <= i < |s| ==> s[i] in r.cells
  }

  /** No two references in the store refer to the same present element. */
  predicate NoDuplicates<E>(r: Refs<E>, s: seq<Handle>) {
    forall i, j :: 0 <= i < j < |s| && r.Referent(s[i]).Some? ==> r.Referent(s[i]) != r.Referent(s[j])
  }

  /** No two references in the store carry the same captured hash code. */
  predicate HashesDistinct<E>(r: Refs<E>, s: seq<Handle>) {
    forall i, j :: 0 <= i < j < |s| ==> r.Hash(s[i]) != r.Hash(s[j])
  }

  predicate WellFormed<E>(r: Refs<E>, s: seq<Handle>) {
    && Distinct(s)
    && InCells(r, s)
    && NoDuplicates(r, s)
    && (r.phantom ==> HashesDistinct(r, s))
  }

  lemma RemoveAtWellFormed<E>(r: Refs<E>, s: seq<Handle>, k: nat)
    requires k < |s| && WellFormed(r, s)
    ensures WellFormed(r, RemoveAt(s, k))
    ensures forall x :: x in RemoveAt(s, k) <==> x in s && x != s[k]
  {
    RemoveAtMembers(s, k);
    var t := RemoveAt(s, k);
    forall i, j | 0 <= i < j < |t|
      ensures t[i] == s[if i < k then i else i + 1] && t[j] == s[if j < k then j else j + 1]
    {
    }
  }

  /** When the store holds no two equal keys, removing the key s[k] removes
      the handle s[k] itself: with weak references because a present referent
      occurs once, with phantom references because hash codes are distinct. */
  lemma RemoveKeyRemovesItself<E>(r: Refs<E>, s: seq<Handle>, k: nat)
    requires k < |s| && WellFormed(r, s)
    requires !r.phantom ==> r.Referent(s[k]).Some?
    ensures RemoveKey(r, s, s[k]) == RemoveAt(s, k)
  {
    assert SameKey(r, s[k], s[k]);
  }

  // ---------------------------------------------------------------------
  // What the stale-reference sweep removes

  /** The store after a complete sweep: every handle the collector has not
      cleared, in the same order. */
  function Uncleared<E>(r: Refs<E>, s: seq<Handle>): (t: seq<Handle>)
    ensures |t| <= |s|
  {
    if s == [] then []
    else
      var n := |s| - 1;
      Uncleared(r, s[..n]) + (if r.Cleared(s[n]) then [] else [s[n]])
  }

  lemma UnclearedSnoc<E>(r: Refs<E>, s: seq<Handle>, h: Handle)
    ensures Uncleared(r, s + [h]) == Uncleared(r, s) + (if r.Cleared(h) then [] else [h])
  {
    assert (s + [h])[..|s|] == s;
  }

  /** Removing a cleared handle does not change what a sweep leaves. */
  lemma {:induction false} UnclearedRemoveCleared<E>(r: Refs<E>, s: seq<Handle>, k: nat)
    requires k < |s| && r.Cleared(s[k])
    ensures Uncleared(r, RemoveAt(s, k)) == Uncleared(r, s)
  {
    var n := |s| - 1;
    assert s == s[..n] + [s[n]];
    UnclearedSnoc(r, s[..n], s[n]);
    if k < n {
      var t := RemoveAt(s, k);
      assert t == RemoveAt(s[..n], k) + [s[n]];
      UnclearedSnoc(r, RemoveAt(s[..n], k), s[n]);
      UnclearedRemoveCleared(r, s[..n], k);
    } else {
      assert RemoveAt(s, k) == s[..n];
    }
  }

  /** A store without cleared references is what a sweep leaves unchanged. */
  lemma {:induction false} UnclearedIsIdentity<E>(r: Refs<E>, s: seq<Handle>)
    requires forall i :: 0 <= i < |s| ==> !r.Cleared(s[i])
    ensures Uncleared(r, s) == s
  {
    if s != [] {
      var n := |s| - 1;
      UnclearedIsIdentity(r, s[..n]);
      assert s == s[..n] + [s[n]];
      UnclearedSnoc(r, s[..n], s[n]);
    }
  }

  /** The handles of s the collector cleared with captured hash code v. */
  ghost function StaleWith<E>(r: Refs<E>, s: seq<Handle>, v: int): set<Handle> {
    set x | x in s && r.Cleared(x) && r.Hash(x) == v
  }

  /** The handles of the queue q with captured hash code v. */
  ghost function QueuedWith<E>(r: Refs<E>, q: seq<Handle>, v: int): set<Handle> {
    set x | x in q && r.Hash(x) == v
  }

  /** Every hash class of cleared store handles has at least as many queued
      handles: each poll can take one of them out. */
  ghost predicate StaleCovered<E>(r: Refs<E>, s: seq<Handle>, q: seq<Handle>) {
    forall v :: |StaleWith(r, s, v)| <= |QueuedWith(r, q, v)|
  }

  /** With phantom references a queued handle shares its hash code with no
      other handle of the store. */
  predicate HashesUnshared<E>(r: Refs<E>, q: seq<Handle>, s: seq<Handle>) {
    forall i, j :: 0 <= i < |q| && 0 <= j < |s| && r.Hash(q[i]) == r.Hash(s[j]) ==> q[i] == s[j]
  }

  lemma SubsetCard<T>(a: set<T>, b: set<T>)
    requires a <= b
    ensures |a| <= |b|
  {
    assert b == a + (b - a);
  }

  /** When every cleared store handle is queued, the count invariant holds. */
  lemma StaleCoveredFromInclusion<E>(r: Refs<E>, s: seq<Handle>, q: seq<Handle>)
    requires forall i :: 0 <= i < |s| && r.Cleared(s[i]) ==> s[i] in q
    ensures StaleCovered(r, s, q)
  {
    forall v ensures |StaleWith(r, s, v)| <= |QueuedWith(r, q, v)| {
      SubsetCard(StaleWith(r, s, v), QueuedWith(r, q, v));
    }
  }

  /** With no queued handle left, the count invariant says no cleared handle
      is left in the store. */
  lemma NoStaleWhenQueueEmpty<E>(r: Refs<E>, s: seq<Handle>)
    requires StaleCovered(r, s, [])
    ensures forall i :: 0 <= i < |s| ==> !r.Cleared(s[i])
  {
    forall i | 0 <= i < |s| ensures !r.Cleared(s[i]) {
      var v := r.Hash(s[i]);
      assert |StaleWith(r, s, v)| <= |QueuedWith(r, [], v)|;
      assert QueuedWith(r, [], v) == {};
      assert StaleWith(r, s, v) == {};
      assert s[i] !in StaleWith(r, s, v);
    }
  }

  /** What the store finds for a polled (cleared) handle p is a cleared
      handle with p's hash code. */
  lemma PolledKeyIsCleared<E>(r: Refs<E>, s: seq<Handle>, q: seq<Handle>)
    requires q != [] && r.Cleared(q[0]) && InCells(r, s)
    requires r.phantom ==> HashesUnshared(r, q, s)
    ensures var k := FindKey(r, s, q[0]);
      k < |s| ==> r.Cleared(s[k]) && r.Hash(s[k]) == r.Hash(q[0])
  {
    var k := FindKey(r, s, q[0]);
    if k < |s| {
      assert SameKey(r, q[0], s[k]);
      if r.phantom {
        assert r.Hash(q[0]) == r.Hash(s[k]);
      }
    }
  }

  /** If the store has a cleared handle with p's hash code, it finds one. */
  lemma PolledKeyFound<E>(r: Refs<E>, s: seq<Handle>, p: Handle, x: Handle)
    requires r.Cleared(p) && x in s && r.Cleared(x) && r.Hash(x) == r.Hash(p)
    ensures FindKey(r, s, p) < |s|
  {
    var i :| 0 <= i < |s| && s[i] == x;
    assert SameKey(r, p, s[i]);
  }

  lemma QueuedWithTail<E>(r: Refs<E>, q: seq<Handle>, v: int)
    requires q != [] && Distinct(q)
    ensures QueuedWith(r, q[1..], v) == QueuedWith(r, q, v) - {q[0]}
  {
    forall x ensures x in QueuedWith(r, q[1..], v) <==> x in QueuedWith(r, q, v) && x != q[0] {
      if x in q[1..] {
        var i :| 0 <= i < |q| - 1 && q[1..][i] == x;
        assert q[i + 1] == x;
      }
      if x in q && x != q[0] {
        var i :| 0 <= i < |q| && q[i] == x;
        assert q[1..][i - 1] == x;
      }
    }
  }

  lemma StaleWithRemoveAt<E>(r: Refs<E>, s: seq<Handle>, k: nat, v: int)
    requires k < |s| && Distinct(s)
    ensures StaleWith(r, RemoveAt(s, k), v) == StaleWith(r, s, v) - {s[k]}
  {
    RemoveAtMembers(s, k);
  }

  /** One step of the sweep: poll the head of the queue and remove its key
      from the store. What is removed is a cleared handle, so the uncleared
      handles stay as they were, and the count invariant is kept. */
  lemma SweepStep<E>(r: Refs<E>, s: seq<Handle>, q: seq<Handle>)
    requires q != [] && Distinct(q) && WellFormed(r, s)
    requires forall i :: 0 <= i < |q| ==> r.Cleared(q[i])
    requires StaleCovered(r, s, q)
    requires r.phantom ==> HashesUnshared(r, q, s)
    ensures WellFormed(r, RemoveKey(r, s, q[0]))
    ensures forall x :: x in RemoveKey(r, s, q[0]) ==> x in s
    ensures Uncleared(r, RemoveKey(r, s, q[0])) == Uncleared(r, s)
    ensures StaleCovered(r, RemoveKey(r, s, q[0]), q[1..])
  {
    var p := q[0];
    var k := FindKey(r, s, p);
    var s' := RemoveKey(r, s, p);
    var q' := q[1..];
    PolledKeyIsCleared(r, s, q);
    if k < |s| {
      RemoveAtWellFormed(r, s, k);
      UnclearedRemoveCleared(r, s, k);
    }
    forall v ensures |StaleWith(r, s', v)| <= |QueuedWith(r, q', v)| {
      QueuedWithTail(r, q, v);
      if v == r.Hash(p) {
        assert p in QueuedWith(r, q, v);
        if k < |s| {
          StaleWithRemoveAt(r, s, k, v);
          assert s[k] in StaleWith(r, s, v);
        } else if x :| x in StaleWith(r, s, v) {
          PolledKeyFound(r, s, p, x);
        } else {
          assert StaleWith(r, s', v) == {};
        }
      } else {
        assert QueuedWith(r, q', v) == QueuedWith(r, q, v);
        if k < |s| {
          StaleWithRemoveAt(r, s, k, v);
          SubsetCard(StaleWith(r, s', v), StaleWith(r, s, v));
        }
      }
    }
  }

  /** Polling the head keeps the rest of the queue as it was. */
  lemma PollKeepsQueue<E>(r: Refs<E>, q: seq<Handle>)
    requires q != [] && Distinct(q)
    requires forall i :: 0 <= i < |q| ==> r.Cleared(q[i])
    ensures Distinct(q[1..])
    ensures forall i :: 0 <= i < |q| - 1 ==> r.Cleared(q[1..][i])
  {
    forall i, j | 0 <= i < j < |q| - 1 ensures q[1..][i] != q[1..][j] {
      assert q[1..][i] == q[i + 1] && q[1..][j] == q[j + 1];
    }
  }

  /** One sweep step keeps queued hash codes unshared. */
  lemma SweepStepUnshared<E>(r: Refs<E>, s: seq<Handle>, q: seq<Handle>)
    requires q != [] && HashesUnshared(r, q, s)
    ensures HashesUnshared(r, q[1..], RemoveKey(r, s, q[0]))
  {
    var t := RemoveKey(r, s, q[0]);
    var f := FindKey(r, s, q[0]);
    forall i, j | 0 <= i < |q| - 1 && 0 <= j < |t| && r.Hash(q[1..][i]) == r.Hash(t[j])
      ensures q[1..][i] == t[j]
    {
      var j' := if f < |s| && j >= f then j + 1 else j;
      assert t[j] == s[j'];
      assert q[1..][i] == q[i + 1];
    }
  }

  /** The loop invariant of the sweep: s0 is the store when the sweep began,
      s the store now and q what is left of the queue. */
  ghost predicate Sweeping<E>(r: Refs<E>, s0: seq<Handle>, s: seq<Handle>, q: seq<Handle>) {
    && WellFormed(r, s) && Distinct(q)
    && (forall i :: 0 <= i < |q| ==> r.Cleared(q[i]))
    && Uncleared(r, s) == Uncleared(r, s0)
    && StaleCovered(r, s, q)
    && (r.phantom ==> HashesUnshared(r, q, s))
  }

  /** Polling the head of the queue and removing its key keeps the sweep's
      invariant. */
  lemma SweepKeeps<E>(r: Refs<E>, s0: seq<Handle>, s: seq<Handle>, q: seq<Handle>)
    requires q != [] && Sweeping(r, s0, s, q)
    ensures Sweeping(r, s0, RemoveKey(r, s, q[0]), q[1..])
  {
    SweepStep(r, s, q);
    PollKeepsQueue(r, q);
    if r.phantom {
      SweepStepUnshared(r, s, q);
    }
  }

  /** At the end of the sweep the store holds exactly the uncleared
      references it began with. */
  lemma SweepDone<E>(r: Refs<E>, s0: seq<Handle>, s: seq<Handle>)
    requires Sweeping(r, s0, s, [])
    ensures s == Uncleared(r, s0)
    ensures forall i :: 0 <= i < |s| ==> !r.Cleared(s[i])
  {
    NoStaleWhenQueueEmpty(r, s);
    UnclearedIsIdentity(r, s);
  }

  /** removeStale's loop as a function: poll each queued handle in turn and
      store.remove it. */
  function Drain<E>(r: Refs<E>, s: seq<Handle>, q: seq<Handle>): seq<Handle>
    decreases |q|
  {
    if q == [] then s else Drain(r, RemoveKey(r, s, q[0]), q[1..])
  }

  /** Draining the rest of the queue completes the sweep: the store ends
      with exactly the uncleared handles it began with. */
  lemma {:induction false} DrainSweeps<E>(r: Refs<E>, s0: seq<Handle>, s: seq<Handle>, q: seq<Handle>)
    requires Sweeping(r, s0, s, q)
    ensures Sweeping(r, s0, Drain(r, s, q), [])
    ensures Drain(r, s, q) == Uncleared(r, s0)
    decreases |q|
  {
    if q == [] {
      SweepDone(r, s0, s);
    } else {
      SweepKeeps(r, s0, s, q);
      DrainSweeps(r, s0, RemoveKey(r, s, q[0]), q[1..]);
    }
  }

  // ---------------------------------------------------------------------
  // Reading the store through get()

  /** contains: some reference in the store answers o from `get()`; never
      for a null o. */
  predicate Held<E>(r: Refs<E>, s: seq<Handle>, o: Option<E>) {
    o.Some? && exists i :: 0 <= i < |s| && r.Get(s[i]) == o
  }

  /** A store holds whatever a store with fewer references holds. */
  lemma HeldSubset<E>(r: Refs<E>, s: seq<Handle>, t: seq<Handle>, o: Option<E>)
    requires forall h :: h in t ==> h in s
    ensures Held(r, t, o) ==> Held(r, s, o)
  {
    if Held(r, t, o) {
      var i :| 0 <= i < |t| && r.Get(t[i]) == o;
      assert t[i] in s;
      var j :| 0 <= j < |s| && s[j] == t[i];
    }
  }

  /** Removing the one reference that answers an element leaves the store
      without it. */
  lemma NotHeldAfterRemoval<E>(r: Refs<E>, s: seq<Handle>, k: nat)
    requires k < |s| && NoDuplicates(r, s) && r.Get(s[k]).Some?
    ensures !Held(r, RemoveAt(s, k), r.Get(s[k]))
  {
    var t := RemoveAt(s, k);
    forall i | 0 <= i < |t| ensures r.Get(t[i]) != r.Get(s[k]) {
      var j := if i < k then i else i + 1;
      assert t[i] == s[j];
    }
  }

  /** Where a scan for x stops: the first reference whose `get()` answers x,
      or |s| when there is none. */
  function FirstHolding<E>(r: Refs<E>, s: seq<Handle>, x: E): (k: nat)
    ensures k <= |s|
    ensures k < |s| <==> Held(r, s, Some(x))
    ensures k < |s| ==> r.Get(s[k]) == Some(x)
    ensures forall i :: 0 <= i < k ==> r.Get(s[i]) != Some(x)
  {
    if s == [] then 0
    else if r.Get(s[0]) == Some(x) then 0
    else
      var k := 1 + FirstHolding(r, s[1..], x);
      assert forall i :: 1 <= i < |s| ==> s[i] == s[1..][i - 1];
      k
  }

  /** The first reference at or after `from` whose `get()` answers an
      element, or |s| when there is none. */
  function NextLive<E>(r: Refs<E>, s: seq<Handle>, from: nat): (k: nat)
    requires from <= |s|
    ensures from <= k <= |s|
    ensures k < |s| ==> r.Get(s[k]).Some?
    ensures forall i :: from <= i < k ==> r.Get(s[i]).None?
    decreases |s| - from
  {
    if from == |s| then from
    else if r.Get(s[from]).Some? then from
    else NextLive(r, s, from + 1)
  }

  /** The elements `get()` answers, in store order, skipping the references
      that answer null. */
  function LiveElems<E>(r: Refs<E>, s: seq<Handle>): (xs: seq<E>)
    ensures |xs| <= |s|
  {
    if s == [] then []
    else
      var n := |s| - 1;
      LiveElems(r, s[..n]) + (if r.Get(s[n]).Some? then [r.Get(s[n]).value] else [])
  }

  lemma LiveElemsSnoc<E>(r: Refs<E>, s: seq<Handle>, h: Handle)
    ensures LiveElems(r, s + [h]) == LiveElems(r, s) + (if r.Get(h).Some? then [r.Get(h).value] else [])
  {
    assert (s + [h])[..|s|] == s;
  }

  /** An element is listed iff the store holds it. */
  lemma {:induction false} LiveElemsMembership<E>(r: Refs<E>, s: seq<Handle>, x: E)
    ensures x in LiveElems(r, s) <==> Held(r, s, Some(x))
  {
    if s != [] {
      var n := |s| - 1;
      LiveElemsMembership(r, s[..n], x);
      assert Held(r, s[..n], Some(x)) ==> Held(r, s, Some(x));
      if Held(r, s, Some(x)) && !Held(r, s[..n], Some(x)) {
        var i :| 0 <= i < |s| && r.Get(s[i]) == Some(x);
      }
    }
  }

  /** Each element is listed once: the store never refers to one element
      twice. */
  lemma {:induction false} LiveElemsDistinct<E>(r: Refs<E>, s: seq<Handle>)
    requires NoDuplicates(r, s)
    ensures forall i, j :: 0 <= i < j < |LiveElems(r, s)| ==> LiveElems(r, s)[i] != LiveElems(r, s)[j]
  {
    if s != [] {
      var n := |s| - 1;
      var p := s[..n];
      assert NoDuplicates(r, p) by {
        forall i, j | 0 <= i < j < |p| ensures p[i] == s[i] && p[j] == s[j] {}
      }
      LiveElemsDistinct(r, p);
      if r.Get(s[n]).Some? {
        var x := r.Get(s[n]).value;
        LiveElemsMembership(r, p, x);
      }
    }
  }

  /** With phantom references nothing is ever listed. */
  lemma {:induction false} PhantomLiveElemsEmpty<E>(r: Refs<E>, s: seq<Handle>)
    requires r.phantom
    ensures LiveElems(r, s) == []
  {
    if s != [] {
      PhantomLiveElemsEmpty(r, s[..|s| - 1]);
    }
  }

  /** With weak references, a store without cleared references lists one
      element per reference, namely its referent. */
  lemma {:induction false} LiveElemsOnePerHandle<E>(r: Refs<E>, s: seq<Handle>)
    requires !r.phantom && InCells(r, s)
    requires forall i :: 0 <= i < |s| ==> !r.Cleared(s[i])
    ensures |LiveElems(r, s)| == |s|
    ensures forall i :: 0 <= i < |s| ==> Some(LiveElems(r, s)[i]) == r.Referent(s[i])
  {
    if s != [] {
      var n := |s| - 1;
      LiveElemsOnePerHandle(r, s[..n]);
      assert r.Get(s[n]).Some?;
    }
  }

  /** References that answer null add nothing to the listing. */
  lemma {:induction false} LiveElemsSkipNulls<E>(r: Refs<E>, s: seq<Handle>, p: nat, a: nat, b: nat)
    requires p <= a <= b <= |s|
    requires forall i :: a <= i < b ==> r.Get(s[i]).None?
    ensures LiveElems(r, s[p..b]) == LiveElems(r, s[p..a])
    decreases b - a
  {
    if a < b {
      LiveElemsSkipNulls(r, s, p, a, b - 1);
      assert s[p..b] == s[p..b - 1] + [s[b - 1]];
      LiveElemsSnoc(r, s[p..b - 1], s[b - 1]);
    }
  }

  /** Advancing from p to the next live reference adds its element, and
      nothing at all when there is none. */
  lemma LiveElemsAdvance<E>(r: Refs<E>, s: seq<Handle>, p0: nat, p: nat)
    requires p0 <= p <= |s|
    ensures var k := NextLive(r, s, p);
      && (k < |s| ==> LiveElems(r, s[p0..k + 1]) == LiveElems(r, s[p0..p]) + [r.Get(s[k]).value])
      && (k == |s| ==> LiveElems(r, s[p0..]) == LiveElems(r, s[p0..p]))
  {
    var k := NextLive(r, s, p);
    LiveElemsSkipNulls(r, s, p0, p, k);
    if k < |s| {
      assert s[p0..k + 1] == s[p0..k] + [s[k]];
      LiveElemsSnoc(r, s[p0..k], s[k]);
    } else {
      assert s[p0..] == s[p0..k];
    }
  }

  // ---------------------------------------------------------------------
  // retainAll

  /** The references retainAll(c) keeps: those whose `get()` answers a
      member of c (null included). */
  function Retained<E>(r: Refs<E>, s: seq<Handle>, c: seq<Option<E>>): (t: seq<Handle>)
    ensures |t| <= |s|
  {
    if s == [] then []
    else
      var n := |s| - 1;
      Retained(r, s[..n], c) + (if r.Get(s[n]) in c then [s[n]] else [])
  }

  /** retainAll(c) keeps exactly the references whose `get()` answers a
      member of c. */
  lemma {:induction false} RetainedMembership<E>(r: Refs<E>, s: seq<Handle>, c: seq<Option<E>>, h: Handle)
    ensures h in Retained(r, s, c) <==> h in s && r.Get(h) in c
  {
    if s != [] {
      var n := |s| - 1;
      RetainedMembership(r, s[..n], c, h);
      assert s == s[..n] + [s[n]];
    }
  }

  lemma RetainedSnoc<E>(r: Refs<E>, s: seq<Handle>, h: Handle, c: seq<Option<E>>)
    ensures Retained(r, s + [h], c) == Retained(r, s, c) + (if r.Get(h) in c then [h] else [])
  {
    assert (s + [h])[..|s|] == s;
  }

  /** A second retainAll(c) keeps everything. */
  lemma {:induction false} RetainedIdempotent<E>(r: Refs<E>, s: seq<Handle>, c: seq<Option<E>>)
    ensures Retained(r, Retained(r, s, c), c) == Retained(r, s, c)
  {
    if s != [] {
      var n := |s| - 1;
      var p := Retained(r, s[..n], c);
      RetainedIdempotent(r, s[..n], c);
      assert s == s[..n] + [s[n]];
      RetainedSnoc(r, s[..n], s[n], c);
      if r.Get(s[n]) in c {
        RetainedSnoc(r, p, s[n], c);
      } else {
        assert Retained(r, s, c) == p;
      }
    }
  }

  /** With phantom references retainAll keeps all or nothing: all when c
      holds null, since `get()` answers null for every reference. */
  lemma {:induction false} PhantomRetained<E>(r: Refs<E>, s: seq<Handle>, c: seq<Option<E>>)
    requires r.phantom
    ensures Retained(r, s, c) == if None in c then s else []
  {
    if s != [] {
      var n := |s| - 1;
      PhantomRetained(r, s[..n], c);
      assert s == s[..n] + [s[n]];
      RetainedSnoc(r, s[..n], s[n], c);
    }
  }

  /** retainAll's filter seen from the front. */
  lemma {:induction false} RetainedCons<E>(r: Refs<E>, h: Handle, t: seq<Handle>, c: seq<Option<E>>)
    ensures Retained(r, [h] + t, c) == (if r.Get(h) in c then [h] else []) + Retained(r, t, c)
    decreases |t|
  {
    if t == [] {
      assert [h] + t == [] + [h];
      RetainedSnoc(r, [], h, c);
    } else {
      var n := |t| - 1;
      RetainedCons(r, h, t[..n], c);
      assert [h] + t == ([h] + t[..n]) + [t[n]];
      assert t == t[..n] + [t[n]];
      RetainedSnoc(r, [h] + t[..n], t[n], c);
      RetainedSnoc(r, t[..n], t[n], c);
    }
  }

  /** The walk of retainAll over s from position i on: a reference whose
      `get()` answers a member of c is passed over, any other is removed in
      place. */
  function RetainFrom<E>(r: Refs<E>, s: seq<Handle>, i: nat, c: seq<Option<E>>): seq<Handle>
    requires i <= |s|
    decreases |s| - i
  {
    if i == |s| then s
    else if r.Get(s[i]) in c then RetainFrom(r, s, i + 1, c)
    else RetainFrom(r, RemoveAt(s, i), i, c)
  }

  /** The walk keeps what it has passed and filters the rest; from the start
      it computes Retained. */
  lemma {:induction false} RetainFromFilters<E>(r: Refs<E>, s: seq<Handle>, i: nat, c: seq<Option<E>>)
    requires i <= |s|
    ensures RetainFrom(r, s, i, c) == s[..i] + Retained(r, s[i..], c)
    decreases |s| - i
  {
    if i == |s| {
      assert s[..i] == s && s[i..] == [];
    } else {
      assert s[i..] == [s[i]] + s[i + 1..];
      RetainedCons(r, s[i], s[i + 1..], c);
      if r.Get(s[i]) in c {
        RetainFromFilters(r, s, i + 1, c);
        assert s[..i + 1] == s[..i] + [s[i]];
      } else {
        var t := RemoveAt(s, i);
        RetainFromFilters(r, t, i, c);
        assert t[..i] == s[..i] && t[i..] == s[i + 1..];
      }
    }
  }
}
