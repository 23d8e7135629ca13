/** The set's operations as functions on values, with the invariant they keep
    and the properties the set promises. The class in PhantomSet is proved to
    behave as these functions say. */
module SetSpec {
  import opened Handles
  import opened Store

  datatype Error = NullArgument | NoSuchElement | IllegalState
  datatype Result<T> = Ok(value: T) | Err(error: Error)

  /** The part of the set's state a sweep does not drain: every reference
      created so far, the store, and the id the next reference gets. */
  datatype Stored<E(==)> = Stored(refs: Refs<E>, store: seq<Handle>, next: Handle)

  // ---------------------------------------------------------------------
  // The invariant

  /** Every reference was created below `bound`, and a reference with a
      present referent carries that referent's hash code. */
  ghost predicate CellsSound<E>(r: Refs<E>, hashOf: E -> int, bound: nat) {
    && (forall h :: h in r.cells ==> h < bound)
    && (forall h :: h in r.cells && r.cells[h].referent.Some? ==> r.cells[h].hash == hashOf(r.cells[h].referent.value))
  }

  /** The reference queue holds distinct cleared references, among them every
      cleared reference of the store; with phantom references no queued
      reference shares its hash code with another reference of the store. */
  ghost predicate QueueSound<E>(r: Refs<E>, s: seq<Handle>, q: seq<Handle>) {
    && Distinct(q)
    && (forall i :: 0 <= i < |q| ==> r.Cleared(q[i]))
    && (forall i :: 0 <= i < |s| && r.Cleared(s[i]) ==> s[i] in q)
    && (r.phantom ==> HashesUnshared(r, q, s))
  }

  ghost predicate Consistent<E>(st: Stored<E>, hashOf: E -> int, q: seq<Handle>) {
    CellsSound(st.refs, hashOf, st.next) && WellFormed(st.refs, st.store) && QueueSound(st.refs, st.store, q)
  }

  // ---------------------------------------------------------------------
  // removeStale

  /** What a complete sweep leaves: the store without its cleared references. */
  function AfterSweep<E>(st: Stored<E>): Stored<E> {
    st.(store := Uncleared(st.refs, st.store))
  }

  /** Polling the whole queue leaves the swept state, and it is consistent
      with an empty queue. */
  lemma DrainSound<E>(st: Stored<E>, hashOf: E -> int, q: seq<Handle>)
    requires Consistent(st, hashOf, q)
    ensures st.(store := Drain(st.refs, st.store, q)) == AfterSweep(st)
    ensures Consistent(AfterSweep(st), hashOf, [])
  {
    StaleCoveredFromInclusion(st.refs, st.store, q);
    DrainSweeps(st.refs, st.store, st.store, q);
    SweepDone(st.refs, st.store, Drain(st.refs, st.store, q));
  }

  /** With the queue drained a sweep changes nothing. */
  lemma SweepIdle<E>(st: Stored<E>, hashOf: E -> int)
    requires Consistent(st, hashOf, [])
    ensures AfterSweep(st) == st
  {
    UnclearedIsIdentity(st.refs, st.store);
  }

  /** The sweep takes out exactly the cleared references. */
  lemma {:induction false} SweepRemovesCleared<E>(r: Refs<E>, s: seq<Handle>, h: Handle)
    ensures h in Uncleared(r, s) <==> h in s && !r.Cleared(h)
  {
    if s != [] {
      var n := |s| - 1;
      SweepRemovesCleared(r, s[..n], h);
      assert s == s[..n] + [s[n]];
    }
  }

  // ---------------------------------------------------------------------
  // add

  /** The references with a fresh one for e beside them. */
  function WithFresh<E>(r: Refs<E>, n: Handle, e: E, hashOf: E -> int): (r': Refs<E>)
    ensures r'.phantom == r.phantom && r'.Referent(n) == Some(e) && r'.Hash(n) == hashOf(e)
  {
    Refs(r.phantom, r.cells[n := NewCell(Some(e), hashOf)])
  }

  /** add(e) on a swept state: nothing when the set contains e; otherwise a
      fresh reference is created and offered to the store. */
  function AddStep<E>(st: Stored<E>, hashOf: E -> int, e: E): (Stored<E>, bool) {
    if FirstHolding(st.refs, st.store, e) < |st.store| then (st, false)
    else
      var r' := WithFresh(st.refs, st.next, e, hashOf);
      var t := AddKey(r', st.store, st.next);
      (Stored(r', t.0, st.next + 1), t.1)
  }

  /** A fresh reference is none of the stored ones and leaves what they
      answer unchanged. */
  lemma FreshBeside<E>(st: Stored<E>, hashOf: E -> int, e: E)
    requires forall i :: 0 <= i < |st.store| ==> st.store[i] < st.next
    ensures var r' := WithFresh(st.refs, st.next, e, hashOf);
      forall i :: 0 <= i < |st.store| ==>
        && st.store[i] != st.next
        && r'.Referent(st.store[i]) == st.refs.Referent(st.store[i])
        && r'.Get(st.store[i]) == st.refs.Get(st.store[i])
        && r'.Hash(st.store[i]) == st.refs.Hash(st.store[i])
        && (SameKey(r', st.next, st.store[i]) <==>
             st.refs.Hash(st.store[i]) == hashOf(e) && (st.refs.phantom || st.refs.Get(st.store[i]) == Some(e)))
  {
  }

  /** Offering a fresh reference for an element the store does not hold
      keeps the invariant; the store takes it unless, with phantom
      references, a stored reference has e's hash code. */
  lemma InsertFresh<E>(st: Stored<E>, hashOf: E -> int, e: E)
    requires Consistent(st, hashOf, [])
    requires !Held(st.refs, st.store, Some(e))
    ensures var r' := WithFresh(st.refs, st.next, e, hashOf);
      var t := AddKey(r', st.store, st.next);
      && Consistent(Stored(r', t.0, st.next + 1), hashOf, [])
      && (t.1 <==> (st.refs.phantom ==> forall i :: 0 <= i < |st.store| ==> st.refs.Hash(st.store[i]) != hashOf(e)))
  {
    var r, s, n := st.refs, st.store, st.next;
    FreshBeside(st, hashOf, e);
    var t := AddKey(WithFresh(r, n, e, hashOf), s, n);
    if t.1 {
      forall i | 0 <= i < |s| ensures r.Referent(s[i]) != Some(e) {
        if r.phantom {
          assert r.Hash(s[i]) != hashOf(e);
        } else {
          assert r.Get(s[i]) != Some(e);
        }
      }
      assert t.0[|s|] == n;
    }
  }

  /** The stored references keep their referents, so whatever the set
      contained it still contains; with weak references it contains e. */
  lemma InsertFreshHolds<E>(st: Stored<E>, hashOf: E -> int, e: E)
    requires forall i :: 0 <= i < |st.store| ==> st.store[i] < st.next
    ensures var r' := WithFresh(st.refs, st.next, e, hashOf);
      var t := AddKey(r', st.store, st.next);
      && (forall i :: 0 <= i < |st.store| ==> r'.Referent(st.store[i]) == st.refs.Referent(st.store[i]))
      && (forall x :: Held(st.refs, st.store, x) ==> Held(r', t.0, x))
      && (!st.refs.phantom ==> Held(r', t.0, Some(e)))
  {
    var r, s, n := st.refs, st.store, st.next;
    var r' := WithFresh(r, n, e, hashOf);
    var t := AddKey(r', s, n);
    FreshBeside(st, hashOf, e);
    forall x | Held(r, s, x) ensures Held(r', t.0, x) {
      var i :| 0 <= i < |s| && r.Get(s[i]) == x;
      assert t.0[i] == s[i];
    }
    if !r.phantom {
      if t.1 {
        assert t.0[|s|] == n;
      } else {
        var i :| 0 <= i < |s| && SameKey(r', n, s[i]);
        assert r'.Get(s[i]) == Some(e);
      }
    }
  }

  /** add answers true iff the store grew, and then by the new reference
      alone, which refers to e and carries e's hash code. With weak
      references add answers true iff the set did not contain e; with phantom
      references, iff no stored reference has e's hash code. */
  lemma AddStepAnswer<E>(st: Stored<E>, hashOf: E -> int, e: E)
    requires Consistent(st, hashOf, [])
    ensures var (st', b) := AddStep(st, hashOf, e);
      && (b <==> |st'.store| == |st.store| + 1)
      && (!b ==> st'.store == st.store)
      && (b ==> st'.store == st.store + [st.next] && st'.refs.Referent(st.next) == Some(e) && st'.refs.Hash(st.next) == hashOf(e))
      && (!st.refs.phantom ==> (b <==> !Held(st.refs, st.store, Some(e))))
      && (st.refs.phantom ==> (b <==> forall i :: 0 <= i < |st.store| ==> st.refs.Hash(st.store[i]) != hashOf(e)))
  {
    if !Held(st.refs, st.store, Some(e)) {
      InsertFresh(st, hashOf, e);
    }
  }

  /** add keeps the invariant, only appends to the store, and keeps every
      stored reference's referent; what it appends refers to e. */
  lemma AddStepKeeps<E>(st: Stored<E>, hashOf: E -> int, e: E)
    requires Consistent(st, hashOf, [])
    ensures var st' := AddStep(st, hashOf, e).0;
      && Consistent(st', hashOf, []) && st'.refs.phantom == st.refs.phantom
      && |st.store| <= |st'.store| && st'.store[..|st.store|] == st.store
      && (forall i :: 0 <= i < |st.store| ==> st'.refs.Referent(st.store[i]) == st.refs.Referent(st.store[i]))
      && (forall k :: |st.store| <= k < |st'.store| ==> st'.refs.Referent(st'.store[k]) == Some(e))
  {
    if FirstHolding(st.refs, st.store, e) == |st.store| {
      InsertFresh(st, hashOf, e);
      FreshBeside(st, hashOf, e);
      var st' := AddStep(st, hashOf, e).0;
      if |st'.store| > |st.store| {
        assert st'.store[..|st.store|] == st.store;
      }
    }
  }

  /** add loses no element the set contained; with weak references the set
      contains e afterwards. This needs only that every stored reference was
      created before the fresh one. */
  lemma AddStepHolds<E>(st: Stored<E>, hashOf: E -> int, e: E)
    requires forall i :: 0 <= i < |st.store| ==> st.store[i] < st.next
    ensures var st' := AddStep(st, hashOf, e).0;
      && st'.refs.phantom == st.refs.phantom
      && (forall i :: 0 <= i < |st'.store| ==> st'.store[i] < st'.next)
      && (forall x :: Held(st.refs, st.store, x) ==> Held(st'.refs, st'.store, x))
      && (!st.refs.phantom ==> Held(st'.refs, st'.store, Some(e)))
  {
    if FirstHolding(st.refs, st.store, e) == |st.store| {
      InsertFreshHolds(st, hashOf, e);
    }
  }

  // ---------------------------------------------------------------------
  // addAll

  /** addAll(c) on a swept state, as its for loop runs: add each element in
      turn; a null element stops the loop with NullArgument, the additions
      before it done. Defined from the last element, so that
      AddEach(st, hashOf, c[..i]) is the state after i turns. */
  function AddEach<E>(st: Stored<E>, hashOf: E -> int, c: seq<Option<E>>): (Stored<E>, Result<bool>)
    decreases |c|
  {
    if c == [] then (st, Ok(false))
    else
      var p := AddEach(st, hashOf, c[..|c| - 1]);
      var e := c[|c| - 1];
      if p.1.Err? then p
      else if e.None? then (p.0, Err(NullArgument))
      else
        var step := AddStep(p.0, hashOf, e.value);
        (step.0, Ok(p.1.value || step.1))
  }

  /** Once a turn has failed, the rest of the loop does not run. */
  lemma {:induction false} AddEachStops<E>(st: Stored<E>, hashOf: E -> int, c: seq<Option<E>>, n: nat)
    requires n <= |c| && AddEach(st, hashOf, c[..n]).1.Err?
    ensures AddEach(st, hashOf, c) == AddEach(st, hashOf, c[..n])
    decreases |c|
  {
    if n < |c| {
      var m := |c| - 1;
      assert c[..m][..n] == c[..n];
      AddEachStops(st, hashOf, c[..m], n);
    } else {
      assert c[..n] == c;
    }
  }

  /** One more turn of addAll's loop, in the terms add(e) states its
      result in. */
  lemma AddEachNext<E>(st0: Stored<E>, hashOf: E -> int, c: seq<Option<E>>, i: nat,
                       st: Stored<E>, r: Result<bool>, st': Stored<E>, a: Result<bool>)
    requires i < |c| && (st, r) == AddEach(st0, hashOf, c[..i]) && r.Ok?
    requires c[i].None? ==> st' == st && a == Err(NullArgument)
    requires c[i].Some? ==> st' == AddStep(st, hashOf, c[i].value).0 && a == Ok(AddStep(st, hashOf, c[i].value).1)
    ensures (st', if a.Ok? then Ok(r.value || a.value) else a) == AddEach(st0, hashOf, c[..i + 1])
  {
    assert c[..i + 1][..i] == c[..i];
  }

  /** addAll fails iff c holds null, and then with NullArgument. */
  lemma {:induction false} AddEachNull<E>(st: Stored<E>, hashOf: E -> int, c: seq<Option<E>>)
    ensures AddEach(st, hashOf, c).1.Err? <==> None in c
    ensures AddEach(st, hashOf, c).1.Err? ==> AddEach(st, hashOf, c).1.error == NullArgument
    decreases |c|
  {
    if c != [] {
      var n := |c| - 1;
      AddEachNull(st, hashOf, c[..n]);
      assert c == c[..n] + [c[n]];
    }
  }

  /** addAll keeps the invariant and only appends to the store, keeping the
      referents of the references already there; it answers true iff the
      store grew. */
  lemma {:induction false} AddEachGrows<E>(st: Stored<E>, hashOf: E -> int, c: seq<Option<E>>)
    requires Consistent(st, hashOf, [])
    ensures var st', r := AddEach(st, hashOf, c).0, AddEach(st, hashOf, c).1;
      && Consistent(st', hashOf, []) && st'.refs.phantom == st.refs.phantom
      && |st.store| <= |st'.store| && st'.store[..|st.store|] == st.store
      && (forall i :: 0 <= i < |st.store| ==> st'.refs.Referent(st.store[i]) == st.refs.Referent(st.store[i]))
      && (r.Ok? ==> (r.value <==> |st.store| < |st'.store|))
    decreases |c|
  {
    if c != [] {
      var n := |c| - 1;
      AddEachGrows(st, hashOf, c[..n]);
      var p := AddEach(st, hashOf, c[..n]);
      if p.1.Ok? && c[n].Some? {
        var e := c[n].value;
        AddStepAnswer(p.0, hashOf, e);
        AddStepKeeps(p.0, hashOf, e);
        var st2 := AddStep(p.0, hashOf, e).0;
        assert st2.store[..|st.store|] == st.store by {
          assert st2.store[..|p.0.store|][..|st.store|] == st.store;
        }
        forall i | 0 <= i < |st.store| ensures st2.refs.Referent(st.store[i]) == st.refs.Referent(st.store[i]) {
          assert p.0.store[i] == st.store[i];
        }
      }
    }
  }

  /** Every reference addAll adds refers to an element of c. */
  lemma {:induction false} AddEachFromC<E>(st: Stored<E>, hashOf: E -> int, c: seq<Option<E>>)
    requires Consistent(st, hashOf, [])
    ensures var st' := AddEach(st, hashOf, c).0;
      forall k :: |st.store| <= k < |st'.store| ==> st'.refs.Referent(st'.store[k]) in c
    decreases |c|
  {
    if c != [] {
      var n := |c| - 1;
      AddEachGrows(st, hashOf, c[..n]);
      AddEachFromC(st, hashOf, c[..n]);
      var p := AddEach(st, hashOf, c[..n]);
      var st2 := AddEach(st, hashOf, c).0;
      forall k | |st.store| <= k < |st2.store| ensures st2.refs.Referent(st2.store[k]) in c {
        if p.1.Ok? && c[n].Some? {
          AddStepKeeps(p.0, hashOf, c[n].value);
          if k < |p.0.store| {
            assert st2.store[k] == p.0.store[k];
            assert p.0.refs.Referent(p.0.store[k]) in c[..n];
          } else {
            assert st2.refs.Referent(st2.store[k]) == c[n];
          }
        } else {
          assert st2.refs.Referent(st2.store[k]) in c[..n];
        }
      }
    }
  }

  /** addAll loses no element the set contained. This needs only that
      every stored reference was created before the next fresh one. */
  lemma {:induction false} AddEachKeepsHeld<E>(st: Stored<E>, hashOf: E -> int, c: seq<Option<E>>)
    requires forall i :: 0 <= i < |st.store| ==> st.store[i] < st.next
    ensures var st' := AddEach(st, hashOf, c).0;
      && st'.refs.phantom == st.refs.phantom
      && (forall i :: 0 <= i < |st'.store| ==> st'.store[i] < st'.next)
      && (forall x :: Held(st.refs, st.store, x) ==> Held(st'.refs, st'.store, x))
    decreases |c|
  {
    if c != [] {
      var n := |c| - 1;
      AddEachKeepsHeld(st, hashOf, c[..n]);
      var p := AddEach(st, hashOf, c[..n]);
      if p.1.Ok? && c[n].Some? {
        AddStepHolds(p.0, hashOf, c[n].value);
      }
    }
  }

  /** With weak references, after an addAll that succeeds the set contains
      every element of c. */
  lemma {:induction false} AddEachHolds<E>(st: Stored<E>, hashOf: E -> int, c: seq<Option<E>>)
    requires forall i :: 0 <= i < |st.store| ==> st.store[i] < st.next
    requires !st.refs.phantom && None !in c
    ensures var st' := AddEach(st, hashOf, c).0;
      forall i :: 0 <= i < |c| ==> Held(st'.refs, st'.store, c[i])
    decreases |c|
  {
    if c != [] {
      var n := |c| - 1;
      assert None !in c[..n] by {
        forall j | 0 <= j < n ensures c[..n][j] != None {
          assert c[..n][j] == c[j];
        }
      }
      AddEachHolds(st, hashOf, c[..n]);
      AddEachKeepsHeld(st, hashOf, c[..n]);
      AddEachNull(st, hashOf, c[..n]);
      var p := AddEach(st, hashOf, c[..n]);
      var e := c[n].value;
      AddStepHolds(p.0, hashOf, e);
      var st2 := AddStep(p.0, hashOf, e).0;
      assert AddEach(st, hashOf, c).0 == st2;
      forall i | 0 <= i < |c| ensures Held(st2.refs, st2.store, c[i]) {
        if i < n {
          assert c[..n][i] == c[i];
          assert Held(p.0.refs, p.0.store, c[i]);
        }
      }
    }
  }

  // ---------------------------------------------------------------------
  // remove and removeAll

  /** remove(o) on a swept state: the first reference whose `get()` answers
      o goes. */
  function RemoveStep<E>(st: Stored<E>, o: Option<E>): (Stored<E>, bool) {
    if Held(st.refs, st.store, o) then
      (st.(store := RemoveAt(st.store, FirstHolding(st.refs, st.store, o.value))), true)
    else (st, false)
  }

  /** remove keeps the invariant, whatever the queue. */
  lemma RemoveStepConsistent<E>(st: Stored<E>, hashOf: E -> int, q: seq<Handle>, o: Option<E>)
    requires Consistent(st, hashOf, q)
    ensures Consistent(RemoveStep(st, o).0, hashOf, q)
  {
    if Held(st.refs, st.store, o) {
      var s, k := st.store, FirstHolding(st.refs, st.store, o.value);
      RemoveAtWellFormed(st.refs, s, k);
      var t := RemoveAt(s, k);
      forall j | 0 <= j < |t| ensures t[j] == s[if j < k then j else j + 1] {
      }
    }
  }

  /** remove answers true iff the set contained o; afterwards it does not,
      only the one reference answering o is gone, and every other element is
      contained iff it was before. With phantom references remove always
      answers false. */
  lemma RemoveStepAnswer<E>(st: Stored<E>, o: Option<E>)
    requires WellFormed(st.refs, st.store)
    ensures var (st', b) := RemoveStep(st, o);
      && st'.refs == st.refs && st'.next == st.next
      && (b <==> Held(st.refs, st.store, o))
      && !Held(st'.refs, st'.store, o)
      && (forall h :: h in st'.store <==> h in st.store && !(b && st.refs.Get(h) == o))
      && (forall x :: x != o ==> (Held(st'.refs, st'.store, x) <==> Held(st.refs, st.store, x)))
      && (st.refs.phantom ==> !b)
  {
    var r, s := st.refs, st.store;
    var (st', b) := RemoveStep(st, o);
    if b {
      var k := FirstHolding(r, s, o.value);
      NotHeldAfterRemoval(r, s, k);
      RemoveAtMembers(s, k);
      var t := st'.store;
      forall h | h in s ensures h in t <==> !(r.Get(h) == o) {
        var i :| 0 <= i < |s| && s[i] == h;
        if i != k && r.Get(h) == o {
          assert r.Referent(s[i]) == r.Referent(s[k]);
        }
      }
      forall x | x != o ensures Held(r, t, x) <==> Held(r, s, x) {
        HeldSubset(r, s, t, x);
        if Held(r, s, x) {
          var i :| 0 <= i < |s| && r.Get(s[i]) == x;
          assert s[i] in t;
          var j :| 0 <= j < |t| && t[j] == s[i];
        }
      }
    }
  }

  /** removeAll(c) on a swept state: remove each element in turn; true iff
      some remove answered true. */
  function RemoveEach<E>(st: Stored<E>, c: seq<Option<E>>): (Stored<E>, bool)
    decreases |c|
  {
    if c == [] then (st, false)
    else
      var (st1, b) := RemoveStep(st, c[0]);
      var (st2, b2) := RemoveEach(st1, c[1..]);
      (st2, b || b2)
  }

  /** removeAll keeps the invariant and only shrinks the store; it answers
      true iff the store shrank. With phantom references it changes
      nothing. */
  lemma {:induction false} RemoveEachShrinks<E>(st: Stored<E>, hashOf: E -> int, c: seq<Option<E>>)
    requires Consistent(st, hashOf, [])
    ensures var (st', b) := RemoveEach(st, c);
      && Consistent(st', hashOf, [])
      && st'.refs == st.refs && st'.next == st.next
      && (forall h :: h in st'.store ==> h in st.store)
      && |st'.store| <= |st.store|
      && (b <==> |st'.store| < |st.store|)
      && (st.refs.phantom ==> st'.store == st.store && !b)
    decreases |c|
  {
    if c != [] {
      var st1 := RemoveStep(st, c[0]).0;
      RemoveStepConsistent(st, hashOf, [], c[0]);
      RemoveStepAnswer(st, c[0]);
      RemoveEachShrinks(st1, hashOf, c[1..]);
    }
  }

  /** After removeAll the set contains no element of c, and every reference
      it took out answered an element of c. */
  lemma {:induction false} RemoveEachClears<E>(st: Stored<E>, hashOf: E -> int, c: seq<Option<E>>)
    requires Consistent(st, hashOf, [])
    ensures var st' := RemoveEach(st, c).0;
      && (forall i :: 0 <= i < |c| ==> !Held(st'.refs, st'.store, c[i]))
      && (forall h :: h in st.store && h !in st'.store ==> st.refs.Get(h) in c)
    decreases |c|
  {
    if c != [] {
      var st1 := RemoveStep(st, c[0]).0;
      RemoveStepConsistent(st, hashOf, [], c[0]);
      RemoveStepAnswer(st, c[0]);
      RemoveEachShrinks(st1, hashOf, c[1..]);
      RemoveEachClears(st1, hashOf, c[1..]);
      var st2 := RemoveEach(st1, c[1..]).0;
      HeldSubset(st.refs, st1.store, st2.store, c[0]);
      forall i | 0 <= i < |c| ensures !Held(st2.refs, st2.store, c[i]) {
        if i > 0 {
          assert c[i] == c[1..][i - 1];
        }
      }
      forall h | h in st.store && h !in st2.store ensures st.refs.Get(h) in c {
        if h in st1.store {
          assert st.refs.Get(h) in c[1..];
        }
      }
    }
  }

  // ---------------------------------------------------------------------
  // retainAll

  /** One step of retainAll's walk: removing the reference at position i
      through store.remove takes out that reference alone and keeps the
      invariant. */
  lemma RemoveInPlace<E>(st: Stored<E>, hashOf: E -> int, i: nat)
    requires Consistent(st, hashOf, []) && i < |st.store|
    ensures RemoveKey(st.refs, st.store, st.store[i]) == RemoveAt(st.store, i)
    ensures Consistent(st.(store := RemoveAt(st.store, i)), hashOf, [])
  {
    RemoveKeyRemovesItself(st.refs, st.store, i);
    RemoveKeyConsistent(st, hashOf, [], st.store[i]);
  }

  // ---------------------------------------------------------------------
  // The collector, and clear

  /** The collector clearing a stored reference and enqueueing it keeps the
      invariant. */
  lemma CollectConsistent<E>(st: Stored<E>, hashOf: E -> int, q: seq<Handle>, h: Handle)
    requires Consistent(st, hashOf, q)
    requires h in st.store && st.refs.Referent(h).Some?
    ensures var r := st.refs;
      Consistent(st.(refs := Refs(r.phantom, r.cells[h := ClearCell(r.cells[h])])), hashOf, q + [h])
  {
    var r, s := st.refs, st.store;
    var r' := Refs(r.phantom, r.cells[h := ClearCell(r.cells[h])]);
    var q' := q + [h];
    assert h !in q;
    forall i | 0 <= i < |s| ensures r'.Hash(s[i]) == r.Hash(s[i]) && (s[i] != h ==> r'.Referent(s[i]) == r.Referent(s[i])) {
    }
    forall i | 0 <= i < |q| ensures r'.Cleared(q[i]) && r'.Hash(q[i]) == r.Hash(q[i]) {
    }
    assert Distinct(q') by {
      forall i, j | 0 <= i < j < |q'| ensures q'[i] != q'[j] {
        if j < |q| {
          assert q'[i] == q[i] && q'[j] == q[j];
        }
      }
    }
    forall i | 0 <= i < |s| && r'.Cleared(s[i]) ensures s[i] in q' {
      if s[i] != h {
        assert s[i] in q;
      }
    }
    if r.phantom {
      forall i, j | 0 <= i < |q'| && 0 <= j < |s| && r'.Hash(q'[i]) == r'.Hash(s[j]) ensures q'[i] == s[j] {
        if i < |q| {
          assert q'[i] == q[i];
        } else {
          var k :| 0 <= k < |s| && s[k] == h;
          assert r.Hash(s[k]) == r.Hash(s[j]);
        }
      }
    }
  }

  /** store.remove of any key keeps the invariant. */
  lemma RemoveKeyConsistent<E>(st: Stored<E>, hashOf: E -> int, q: seq<Handle>, h: Handle)
    requires Consistent(st, hashOf, q)
    ensures Consistent(st.(store := RemoveKey(st.refs, st.store, h)), hashOf, q)
  {
    var s := st.store;
    var k := FindKey(st.refs, s, h);
    if k < |s| {
      RemoveAtWellFormed(st.refs, s, k);
      var t := RemoveAt(s, k);
      forall j | 0 <= j < |t| ensures t[j] == s[if j < k then j else j + 1] {
      }
    }
  }
}
