/** GridConcurrentPhantomHashSet: a set that holds its elements only through
    reference objects, so that membership never keeps an element alive. The
    collector's work is the explicit action Collect; the reference queue is a
    sequence the stale-reference sweep drains at the start of almost every
    operation. */
module PhantomSet {
  import opened Handles
  import opened Store
  import opened SetSpec

  /** n calls' worth of null arguments */
  function Nulls<E>(n: nat): (s: seq<Option<E>>)
    ensures |s| == n && forall i :: 0 <= i < n ==> s[i] == None
  {
    if n == 0 then [] else Nulls(n - 1) + [None]
  }

  lemma NullsSnoc<E>(log: seq<Option<E>>, n: nat)
    ensures log + Nulls(n) + [None] == log + Nulls(n + 1)
  {
    assert Nulls<E>(n + 1) == Nulls(n) + [None];
  }

  class PhantomHashSet<E(==)> {
    /** What `get()` of the reference objects answers: with `phantom`, always
        null (java.lang.ref.PhantomReference); otherwise the referent until
        it is cleared (a weak reference). */
    const phantom: bool
    /** Object.hashCode of the elements */
    const hashOf: E -> int

    /** The backing store, in its iteration order */
    var store: seq<Handle>
    /** Every reference object created so far */
    var cells: map<Handle, Cell<E>>
    /** Identity for the next reference object */
    var nextId: Handle
    /** The reference queue: references enqueued by the collector and not yet
        polled */
    var queue: seq<Handle>
    /** The arguments of the onGc calls so far, in order */
    var gcLog: seq<Option<E>>

    function View(): Refs<E>
      reads this
    {
      Refs(phantom, cells)
    }

    function Snapshot(): Stored<E>
      reads this
    {
      Stored(View(), store, nextId)
    }

    ghost predicate Valid()
      reads this
    {
      Consistent(Snapshot(), hashOf, queue)
    }

    /** Nothing observable changed. */
    twostate predicate Untouched()
      reads this
    {
      && store == old(store) && cells == old(cells) && nextId == old(nextId)
      && queue == old(queue) && gcLog == old(gcLog)
    }

    /** The queue was drained: onGc was called once per polled reference, each
        time with null. */
    twostate predicate Drained()
      reads this
    {
      && queue == []
      && gcLog == old(gcLog) + Nulls(|old(queue)|)
    }

    /** One sweep and nothing else. */
    twostate predicate Swept()
      reads this
    {
      && Drained()
      && store == Uncleared(old(View()), old(store))
      && cells == old(cells) && nextId == old(nextId)
    }

    constructor (phantom: bool, hashOf: E -> int)
      ensures Valid()
      ensures this.phantom == phantom && this.hashOf == hashOf
      ensures store == [] && cells == map[] && nextId == 0
      ensures queue == [] && gcLog == []
    {
      this.phantom := phantom;
      this.hashOf := hashOf;
      store, cells, nextId := [], map[], 0;
      queue, gcLog := [], [];
    }

    /** The constructor from a collection: an empty set, then addAll(c). */
    static method FromCollection(phantom: bool, hashOf: E -> int, c: seq<Option<E>>) returns (r: Result<PhantomHashSet<E>>)
      ensures r.Err? <==> None in c
      ensures r.Ok? ==>
        && fresh(r.value) && r.value.Valid()
        && r.value.phantom == phantom && r.value.hashOf == hashOf
        && r.value.Snapshot() == AddEach(Stored(Refs(phantom, map[]), [], 0), hashOf, c).0
    {
      var s := new PhantomHashSet(phantom, hashOf);
      ghost var st0 := s.Snapshot();
      var a := s.AddAll(c);
      AddEachNull(st0, hashOf, c);
      if |c| > 0 && c[0].Some? {
        SweepIdle(st0, hashOf);
      }
      if a.Err? {
        return Err(a.error);
      }
      r := Ok(s);
    }

    /** The collector finds the referent of h unreachable: it clears h and
        enqueues it. The model enqueues only references the store holds,
        which is a modelling choice and not a property of the collector. */
    method Collect(h: Handle)
      requires Valid()
      requires h in store && View().Referent(h).Some?
      modifies this
      ensures Valid()
      ensures h in old(cells) && cells == old(cells)[h := ClearCell(old(cells)[h])]
      ensures queue == old(queue) + [h]
      ensures store == old(store) && nextId == old(nextId)
      ensures gcLog == old(gcLog)
    {
      CollectConsistent(Snapshot(), hashOf, queue, h);
      cells := cells[h := ClearCell(cells[h])];
      queue := queue + [h];
    }

    /** The hook called for every reference the sweep polls. */
    method OnGc(e: Option<E>)
      modifies this
      ensures gcLog == old(gcLog) + [e]
      ensures store == old(store) && cells == old(cells) && nextId == old(nextId)
      ensures queue == old(queue)
    {
      gcLog := gcLog + [e];
    }

    /** removeStale: poll every queued reference, remove it from the store
        and call onGc. The store matches the polled reference by hash code
        and equals, so it may take out another cleared reference of the same
        hash code; over the whole sweep every cleared reference goes and no
        uncleared one does. */
    method RemoveStale()
      requires Valid()
      modifies this
      ensures Valid() && Swept()
      ensures old(queue) == [] ==> Untouched()
    {
      if queue == [] {
        SweepIdle(Snapshot(), hashOf);
        return;
      }
      DrainSound(Snapshot(), hashOf, queue);
      DrainQueue();
    }

    /** removeStale's loop: poll until the queue is empty. */
    method DrainQueue()
      requires forall i :: 0 <= i < |queue| ==> View().Cleared(queue[i])
      modifies this
      ensures store == Drain(old(View()), old(store), old(queue))
      ensures queue == [] && cells == old(cells) && nextId == old(nextId)
      ensures gcLog == old(gcLog) + Nulls(|old(queue)|)
    {
      ghost var fin, rv := Drain(View(), store, queue), View();
      ghost var n, log := 0, gcLog;
      while queue != []
        invariant View() == rv && nextId == old(nextId) && n + |queue| == |old(queue)|
        invariant forall i :: 0 <= i < |queue| ==> rv.Cleared(queue[i])
        invariant Drain(rv, store, queue) == fin
        invariant gcLog == log + Nulls(n)
        decreases |queue|
      {
        var ref := queue[0];
        queue := queue[1..];
        store := RemoveKey(View(), store, ref);
        ghost var sn, qn := store, queue;
        OnGc(View().Get(ref));
        assert store == sn && queue == qn && View() == rv;
        NullsSnoc(log, n);
        n := n + 1;
      }
    }

    /** The for loop of contains: the first reference whose `get()` answers
        x, or |store| when there is none. */
    method FindLive(x: E) returns (k: nat)
      ensures k == FirstHolding(View(), store, x)
    {
      k := 0;
      while k < |store| && View().Get(store[k]) != Some(x)
        invariant k <= |store|
        invariant forall i :: 0 <= i < k ==> View().Get(store[i]) != Some(x)
      {
        k := k + 1;
      }
    }

    /** contains(o) */
    method Contains(o: Option<E>) returns (found: bool)
      requires Valid()
      modifies this
      ensures Valid() && Swept()
      ensures old(queue) == [] ==> Untouched()
      ensures found <==> Held(View(), store, o)
      ensures o.None? || store == [] ==> !found
    {
      RemoveStale();
      found := false;
      if |store| > 0 && o.Some? {
        var k := FindLive(o.value);
        found := k < |store|;
      }
    }

    /** add(e): rejects null; otherwise sweeps and does what AddStep says. */
    method Add(e: Option<E>) returns (r: Result<bool>)
      requires Valid()
      modifies this
      ensures Valid()
      ensures e.None? ==> r == Err(NullArgument) && Untouched()
      ensures e.Some? ==>
        && Drained()
        && (Snapshot(), r) == (AddStep(AfterSweep(old(Snapshot())), hashOf, e.value).0, Ok(AddStep(AfterSweep(old(Snapshot())), hashOf, e.value).1))
    {
      if e.None? {
        return Err(NullArgument);
      }
      RemoveStale();
      var b := AddSwept(e.value);
      r := Ok(b);
    }

    /** The rest of add on a swept set: contains(e) (whose own sweep finds
        the queue empty), then store.add of a fresh reference. */
    method AddSwept(e: E) returns (b: bool)
      requires Valid() && queue == []
      modifies this
      ensures Valid() && queue == [] && gcLog == old(gcLog)
      ensures (Snapshot(), b) == AddStep(old(Snapshot()), hashOf, e)
    {
      ghost var st0 := Snapshot();
      var found := Contains(Some(e));
      if found {
        return false;
      }
      InsertFresh(st0, hashOf, e);
      var h := nextId;
      cells := cells[h := NewCell(Some(e), hashOf)];
      nextId := nextId + 1;
      assert View() == WithFresh(st0.refs, h, e, hashOf);
      var added := AddKey(View(), store, h);
      store := added.0;
      b := added.1;
    }

    /** addAll(c): add each element in turn, as AddEach says; a null first
        element fails before any sweep. */
    method AddAll(c: seq<Option<E>>) returns (r: Result<bool>)
      requires Valid()
      modifies this
      ensures Valid()
      ensures |c| == 0 || c[0].None? ==> Untouched() && r == (if |c| == 0 then Ok(false) else Err(NullArgument))
      ensures |c| > 0 && c[0].Some? ==> Drained() && (Snapshot(), r) == AddEach(AfterSweep(old(Snapshot())), hashOf, c)
    {
      r := Ok(false);
      if |c| > 0 {
        ghost var st0 := AfterSweep(Snapshot());
        r := Add(c[0]);
        if r.Ok? {
          assert c[..0] == [];
          AddEachNext(st0, hashOf, c, 0, st0, Ok(false), Snapshot(), r);
          var i := 1;
          ghost var log := gcLog;
          while i < |c| && r.Ok?
            invariant 1 <= i <= |c| && Valid() && queue == [] && gcLog == log
            invariant Snapshot() == AddEach(st0, hashOf, c[..i]).0 && r == AddEach(st0, hashOf, c[..i]).1
          {
            r := AddNext(c, i, r.value, st0);
            i := i + 1;
          }
          if i < |c| {
            AddEachStops(st0, hashOf, c, i);
          } else {
            assert c[..i] == c;
          }
        }
      }
    }

    /** One turn of addAll's loop: add(c[i]), whose sweep finds the queue
        empty, folded into the answer so far. */
    method AddNext(c: seq<Option<E>>, i: nat, sofar: bool, ghost st0: Stored<E>) returns (r: Result<bool>)
      requires Valid() && queue == [] && i < |c|
      requires Snapshot() == AddEach(st0, hashOf, c[..i]).0 && AddEach(st0, hashOf, c[..i]).1 == Ok(sofar)
      modifies this
      ensures Valid() && queue == [] && gcLog == old(gcLog)
      ensures Snapshot() == AddEach(st0, hashOf, c[..i + 1]).0 && r == AddEach(st0, hashOf, c[..i + 1]).1
    {
      ghost var st := Snapshot();
      SweepIdle(st, hashOf);
      var a := Add(c[i]);
      AddEachNext(st0, hashOf, c, i, st, Ok(sofar), Snapshot(), a);
      r := if a.Ok? then Ok(sofar || a.value) else a;
    }

    /** remove(o): sweep, then do what RemoveStep says. */
    method Remove(o: Option<E>) returns (removed: bool)
      requires Valid()
      modifies this
      ensures Valid() && Drained()
      ensures (Snapshot(), removed) == RemoveStep(AfterSweep(old(Snapshot())), o)
    {
      RemoveStale();
      removed := RemoveSwept(o);
    }

    /** The rest of remove on a swept set: find the first reference whose
        `get()` answers o and take it out through the store iterator's
        remove. */
    method RemoveSwept(o: Option<E>) returns (removed: bool)
      requires Valid() && queue == []
      modifies this
      ensures Valid() && queue == [] && gcLog == old(gcLog)
      ensures (Snapshot(), removed) == RemoveStep(old(Snapshot()), o)
    {
      removed := false;
      if o.Some? {
        var k := FindLive(o.value);
        if k < |store| {
          RemoveInPlace(Snapshot(), hashOf, k);
          store := RemoveKey(View(), store, store[k]);
          removed := true;
        }
      }
    }

    /** removeAll(c): remove each element in turn, as RemoveEach says. */
    method RemoveAll(c: seq<Option<E>>) returns (changed: bool)
      requires Valid()
      modifies this
      ensures Valid()
      ensures |c| == 0 ==> !changed && Untouched()
      ensures |c| > 0 ==> Drained() && (Snapshot(), changed) == RemoveEach(AfterSweep(old(Snapshot())), c)
    {
      if |c| == 0 {
        return false;
      }
      ghost var fin := RemoveEach(AfterSweep(Snapshot()), c);
      changed := Remove(c[0]);
      var i := 1;
      while i < |c|
        invariant 1 <= i <= |c| && Valid() && Drained()
        invariant RemoveEach(Snapshot(), c[i..]).0 == fin.0
        invariant (changed || RemoveEach(Snapshot(), c[i..]).1) == fin.1
      {
        SweepIdle(Snapshot(), hashOf);
        var b := Remove(c[i]);
        assert c[i..][1..] == c[i + 1..];
        changed := changed || b;
        i := i + 1;
      }
    }

    /** retainAll(c): after the sweep, and only for a non-empty c, walk the
        store and remove, through the store iterator's remove, every
        reference whose `get()` answers something c does not contain. */
    method RetainAll(c: seq<Option<E>>) returns (changed: bool)
      requires Valid()
      modifies this
      ensures Valid() && Drained()
      ensures cells == old(cells) && nextId == old(nextId)
      ensures var sw := Uncleared(old(View()), old(store));
        && (|c| == 0 ==> !changed && store == sw)
        && (|c| > 0 ==> store == Retained(View(), sw, c) && (changed <==> |store| < |sw|))
    {
      RemoveStale();
      changed := false;
      if |c| > 0 {
        ghost var s0, r := store, View();
        ghost var fin := RetainFrom(r, s0, 0, c);
        var i := 0;
        while i < |store|
          invariant i <= |store| <= |s0| && View() == r && nextId == old(nextId)
          invariant queue == [] && gcLog == old(gcLog) + Nulls(|old(queue)|)
          invariant RetainFrom(r, store, i, c) == fin
          invariant changed <==> |store| < |s0|
          invariant Valid()
          decreases |store| - i
        {
          RemoveInPlace(Snapshot(), hashOf, i);
          if View().Get(store[i]) !in c {
            store := RemoveKey(View(), store, store[i]);
            changed := true;
          } else {
            i := i + 1;
          }
        }
        RetainFromFilters(r, s0, 0, c);
        assert s0[..0] == [] && s0[0..] == s0;
      }
    }

    /** size(): the number of references in the store after the sweep,
        cleared or not. */
    method Size() returns (n: nat)
      requires Valid()
      modifies this
      ensures Valid() && Swept()
      ensures n == |store|
    {
      RemoveStale();
      n := |store|;
    }

    /** isEmpty() */
    method IsEmpty() returns (b: bool)
      requires Valid()
      modifies this
      ensures Valid() && Swept()
      ensures b <==> store == []
    {
      RemoveStale();
      b := |store| == 0;
    }

    /** containsAll(c): false for an empty c; otherwise contains for each
        element until one is missing. */
    method ContainsAll(c: seq<Option<E>>) returns (all: bool)
      requires Valid()
      modifies this
      ensures Valid()
      ensures |c| == 0 ==> !all && Untouched()
      ensures |c| > 0 ==> Swept() && (all <==> forall i :: 0 <= i < |c| ==> Held(View(), store, c[i]))
    {
      if |c| == 0 {
        return false;
      }
      var i := 0;
      while i < |c|
        invariant 0 <= i <= |c| && Valid()
        invariant if i == 0 then Untouched() else Swept()
        invariant forall j :: 0 <= j < i ==> Held(View(), store, c[j])
      {
        var b := Contains(c[i]);
        if !b {
          return false;
        }
        i := i + 1;
      }
      return true;
    }

    /** The for loop of toArray: the elements `get()` answers, in store
        order, skipping the nulls. */
    method CollectLive() returns (elems: seq<E>)
      ensures elems == LiveElems(View(), store)
    {
      elems := [];
      var i := 0;
      while i < |store|
        invariant i <= |store|
        invariant elems == LiveElems(View(), store[..i])
      {
        var e := View().Get(store[i]);
        if e.Some? {
          elems := elems + [e.value];
        }
        LiveElemsSnoc(View(), store[..i], store[i]);
        assert store[..i + 1] == store[..i] + [store[i]];
        i := i + 1;
      }
      assert store[..i] == store;
    }

    /** toArray() */
    method ToArray() returns (a: array<E>)
      requires Valid()
      modifies this
      ensures Valid() && Swept()
      ensures fresh(a) && a[..] == LiveElems(View(), store)
    {
      RemoveStale();
      var elems := CollectLive();
      a := new E[|elems|](i requires 0 <= i < |elems| => elems[i]);
    }

    /** clear(): empties the store; the queue is left as it is and onGc is
        not called. */
    method Clear()
      requires Valid()
      modifies this
      ensures Valid()
      ensures store == []
      ensures cells == old(cells) && nextId == old(nextId) && queue == old(queue)
      ensures gcLog == old(gcLog)
    {
      store := [];
    }

    /** The store iterator's remove: store.remove of the key h. */
    method RemoveFromStore(h: Handle)
      requires Valid()
      modifies this
      ensures Valid()
      ensures store == RemoveKey(View(), old(store), h)
      ensures cells == old(cells) && nextId == old(nextId) && queue == old(queue)
      ensures gcLog == old(gcLog)
    {
      RemoveKeyConsistent(Snapshot(), hashOf, queue, h);
      store := RemoveKey(View(), store, h);
    }

    /** iterator(): sweep, then iterate over the store's references as they
        are at this moment. */
    method Iterator() returns (it: SetIterator<E>)
      requires Valid()
      modifies this
      ensures Valid() && Swept()
      ensures fresh(it) && it.Valid()
      ensures it.owner == this && it.snap == store && it.pos == 0
      ensures it.elem == None && it.lastVisited == None && it.lastReturned == None
    {
      RemoveStale();
      it := new SetIterator(this, store);
    }
  }


  /** The iterator of the set. The store's own iterator is modelled by `snap`
      (the store when the iterator was made) and `pos` (how many of its
      references it has handed out); `lastVisited` is the reference it handed
      out last, which its remove takes out of the store. */
  class SetIterator<E(==)> {
    const owner: PhantomHashSet<E>
    const snap: seq<Handle>
    var pos: nat
    /** The element hasNext found and next has not yet returned */
    var elem: Option<E>
    var lastVisited: Option<Handle>
    /** The reference whose element next returned last */
    var lastReturned: Option<Handle>

    ghost predicate Valid()
      reads this, owner
    {
      && owner.Valid()
      && pos <= |snap|
      && (elem.Some? ==> 0 < pos)
      && (lastVisited.Some? ==> 0 < pos && lastVisited.value == snap[pos - 1])
    }

    constructor (owner: PhantomHashSet<E>, snap: seq<Handle>)
      requires owner.Valid()
      ensures Valid()
      ensures this.owner == owner && this.snap == snap && pos == 0
      ensures elem == None && lastVisited == None && lastReturned == None
    {
      this.owner := owner;
      this.snap := snap;
      pos := 0;
      elem, lastVisited, lastReturned := None, None, None;
    }

    /** hasNext(): with no element found yet, advance to the next reference
        whose `get()` answers an element, sweeping the set once for every
        reference skipped. */
    method HasNext() returns (b: bool)
      requires Valid()
      modifies this, owner
      ensures Valid()
      ensures b <==> elem.Some?
      ensures owner.cells == old(owner.cells) && owner.nextId == old(owner.nextId)
      ensures lastReturned == old(lastReturned)
      ensures old(elem).Some? ==>
        elem == old(elem) && pos == old(pos) && lastVisited == old(lastVisited) && owner.Untouched()
      ensures old(elem).None? ==>
        var k := NextLive(owner.View(), snap, old(pos));
        && elem == (if k < |snap| then owner.View().Get(snap[k]) else None)
        && pos == (if k < |snap| then k + 1 else |snap|)
        && lastVisited == (if old(pos) < pos then Some(snap[pos - 1]) else old(lastVisited))
        && (if old(pos) < k then owner.Swept() else owner.Untouched())
    {
      if elem.None? {
        ghost var p0 := pos;
        while pos < |snap|
          invariant Valid() && elem.None?
          invariant p0 <= pos <= |snap|
          invariant forall i :: p0 <= i < pos ==> owner.View().Get(snap[i]).None?
          invariant owner.cells == old(owner.cells) && owner.nextId == old(owner.nextId)
          invariant lastVisited == (if p0 < pos then Some(snap[pos - 1]) else old(lastVisited))
          invariant lastReturned == old(lastReturned)
          invariant if p0 < pos then owner.Swept() else owner.Untouched()
          decreases |snap| - pos
        {
          var h := snap[pos];
          pos := pos + 1;
          lastVisited := Some(h);
          var e := owner.View().Get(h);
          if e.Some? {
            elem := e;
            break;
          }
          owner.RemoveStale();
        }
      }
      b := elem.Some?;
    }

    /** next(): the element hasNext found, or NoSuchElement when there is
        none. */
    method Next() returns (r: Result<E>)
      requires Valid()
      modifies this, owner
      ensures Valid()
      ensures elem == None
      ensures owner.cells == old(owner.cells) && owner.nextId == old(owner.nextId)
      ensures r.Ok? ==> 0 < pos && lastReturned == Some(snap[pos - 1])
      ensures r.Err? ==> r.error == NoSuchElement && lastReturned == old(lastReturned)
      ensures old(elem).Some? ==>
        r == Ok(old(elem).value) && pos == old(pos) && lastVisited == old(lastVisited) && owner.Untouched()
      ensures old(elem).None? ==>
        var k := NextLive(owner.View(), snap, old(pos));
        && (r.Ok? <==> k < |snap|)
        && (k < |snap| ==> Some(r.value) == owner.View().Get(snap[k]) && pos == k + 1)
        && (k == |snap| ==> pos == |snap|)
        && lastVisited == (if old(pos) < pos then Some(snap[pos - 1]) else old(lastVisited))
        && (if old(pos) < k then owner.Swept() else owner.Untouched())
    {
      if elem.None? {
        var more := HasNext();
        if !more {
          return Err(NoSuchElement);
        }
      }
      r := Ok(elem.value);
      lastReturned := Some(snap[pos - 1]);
      elem := None;
    }

    /** remove(), as the source has it: the store iterator's remove, which
        takes out the reference the store iterator handed out last. After a
        hasNext that looked ahead, that is not the reference of the element
        next returned. */
    method Remove() returns (r: Result<()>)
      requires Valid()
      modifies this, owner
      ensures Valid()
      ensures pos == old(pos) && elem == old(elem) && lastReturned == old(lastReturned)
      ensures old(lastVisited).None? ==> r == Err(IllegalState) && owner.Untouched()
      ensures old(lastVisited).Some? ==>
        && r == Ok(())
        && lastVisited == None
        && owner.store == RemoveKey(owner.View(), old(owner.store), old(lastVisited).value)
        && owner.cells == old(owner.cells) && owner.nextId == old(owner.nextId)
        && owner.queue == old(owner.queue) && owner.gcLog == old(owner.gcLog)
    {
      if lastVisited.None? {
        return Err(IllegalState);
      }
      owner.RemoveFromStore(lastVisited.value);
      lastVisited := None;
      r := Ok(());
    }

    /** remove() as the Iterator contract intends it: take out the reference
        whose element next returned last. */
    method RemoveReturned() returns (r: Result<()>)
      requires Valid()
      modifies this, owner
      ensures Valid()
      ensures pos == old(pos) && elem == old(elem) && lastVisited == old(lastVisited)
      ensures old(lastReturned).None? ==> r == Err(IllegalState) && owner.Untouched()
      ensures old(lastReturned).Some? ==>
        && r == Ok(())
        && lastReturned == None
        && owner.store == RemoveKey(owner.View(), old(owner.store), old(lastReturned).value)
        && owner.cells == old(owner.cells) && owner.nextId == old(owner.nextId)
        && owner.queue == old(owner.queue) && owner.gcLog == old(owner.gcLog)
    {
      if lastReturned.None? {
        return Err(IllegalState);
      }
      owner.RemoveFromStore(lastReturned.value);
      lastReturned := None;
      r := Ok(());
    }
  }

  /** A client loop over the iterator, calling next until it throws: it
      receives exactly the elements `get()` answers for the remaining
      references, in store order, one per live reference. */
  method ForEach<E(==)>(it: SetIterator<E>) returns (xs: seq<E>)
    requires it.Valid() && it.elem.None?
    modifies it, it.owner
    ensures it.owner.cells == old(it.owner.cells)
    ensures xs == LiveElems(it.owner.View(), it.snap[old(it.pos)..])
  {
    xs := [];
    ghost var p0 := it.pos;
    ghost var r := it.owner.View();
    var done := false;
    while !done
      invariant it.Valid() && it.elem.None? && p0 <= it.pos <= |it.snap|
      invariant it.owner.cells == old(it.owner.cells)
      invariant xs == LiveElems(r, it.snap[p0..it.pos])
      invariant done ==> xs == LiveElems(r, it.snap[p0..])
      decreases |it.snap| - it.pos, if done then 0 else 1
    {
      ghost var p := it.pos;
      LiveElemsAdvance(r, it.snap, p0, p);
      var x := it.Next();
      if x.Err? {
        assert it.snap[p0..it.pos] == it.snap[p0..];
        done := true;
      } else {
        xs := xs + [x.value];
      }
    }
  }
}
