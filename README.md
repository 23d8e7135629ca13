# GridConcurrentPhantomHashSet in Dafny

A model of GridGain's `GridConcurrentPhantomHashSet<E>`. It is a set that holds
its elements only through reference objects (`PhantomReferenceElement`), so
membership never keeps an element alive. When the collector finds an element
unreachable, it clears the element's reference and enqueues it. The set drains
that queue at the start of almost every operation (`removeStale`): it
removes each polled reference from its backing store and calls the `onGc`
hook.

The project is four modules:

- `Handles` (handles.dfy) models the reference objects. Each has a referent
  the collector may clear and a hash code captured at creation.
  `hashCode()` answers that captured hash code, and `equals` compares what
  `get()` answers on both sides. The constant `phantom` selects what
  `get()` answers:
  - with `phantom`, always null, which is the contract of
    `java.lang.ref.PhantomReference` and what the code uses;
  - otherwise, the referent until it is cleared, which is weak-reference
    behaviour.
- `Store` (store.dfy) models the backing concurrent hash set. It is a
  sequence of distinct handles in iteration order. `store.add` and
  `store.remove` find a key by captured hash code and then `equals`.
  The module also holds:
  - the stale-reference sweep, as a function with its proof;
  - the read-through-`get()` queries: contains, the toArray listing and
    retainAll's filter.
- `SetSpec` (set_spec.dfy) defines the set's invariant. It also defines
  `add`, `addAll`, `remove` and `removeAll` as functions on values of
  the set's state, with lemmas for the properties the set promises.
- `PhantomSet` (phantom_set.dfy) is the set itself, as the class
  `PhantomHashSet`. Its fields are:
  - the store;
  - every reference created so far;
  - the reference queue;
  - the log of `onGc` arguments.

  Each Java method is a method of this class. It is proved to leave the state
  that the matching function of `SetSpec` or `Store` describes, and to keep
  the invariant. The anonymous iterator is the class `SetIterator`.
  `Collect` is the collector's action: it clears one stored reference and
  enqueues it.
- `Scenarios` (scenarios.dfy) holds the lemmas and methods behind the
  findings below.

`clear()` empties only the store and leaves the reference queue as it is. So
the next sweep still polls the references enqueued before `clear()` and calls
`onGc` for each of them (`Scenarios.ClearThenSize`).

## Model

| member | source | states |
|---|---|---|
| Handles.ClearingOneReference | src/java/org/gridgain/grid/lang/utils/GridConcurrentPhantomHashSet.java:365-401 | when the collector clears a reference, every hash code stays, its `get()` answers null, every other reference answers as before, and with weak references it then equals exactly itself and the references whose `get()` is null |
| Handles.EqualIffSameGet | src/java/org/gridgain/grid/lang/utils/GridConcurrentPhantomHashSet.java:382-396 | equals holds iff both are the same object or `get()` answers the same on both sides |
| Handles.EqualIsEquivalence | src/java/org/gridgain/grid/lang/utils/GridConcurrentPhantomHashSet.java:382-396 | equals is reflexive, symmetric and transitive at any one moment |
| Handles.ClearedHandlesAreEqual | src/java/org/gridgain/grid/lang/utils/GridConcurrentPhantomHashSet.java:391-395 | two cleared references are equal, whatever they referred to |
| Handles.PhantomHandlesAreAllEqual | src/java/org/gridgain/grid/lang/utils/GridConcurrentPhantomHashSet.java:365-396 | with phantom references `get()` is null and every two references are equal |
| Store.RemoveAtMembers | src/java/org/gridgain/grid/lang/utils/GridConcurrentPhantomHashSet.java:143 | the store iterator's remove takes out exactly the current handle and keeps the store free of repetitions |
| Store.FindKey | src/java/org/gridgain/grid/lang/utils/GridConcurrentPhantomHashSet.java:347 | store lookup answers the first handle with the same hash code that equals the key, and no handle before it is such a key |
| Store.AddKey | src/java/org/gridgain/grid/lang/utils/GridConcurrentPhantomHashSet.java:109 | store.add appends the key iff no stored handle is the same key, and answers whether it did |
| Store.RemoveAtWellFormed | src/java/org/gridgain/grid/lang/utils/GridConcurrentPhantomHashSet.java:295 | removing one handle keeps the store's invariants and removes exactly that handle |
| Store.RemoveKeyLive | src/java/org/gridgain/grid/lang/utils/GridConcurrentPhantomHashSet.java:347 | store.remove of a live stored reference takes out that reference and nothing else |
| Store.RemoveKeyShrinks | src/java/org/gridgain/grid/lang/utils/GridConcurrentPhantomHashSet.java:347 | store.remove adds no reference |
| Store.RemoveKeyKeeps | src/java/org/gridgain/grid/lang/utils/GridConcurrentPhantomHashSet.java:347 | store.remove(q) keeps every stored reference that is not the same key as q |
| Store.RemoveKeyRemovesItself | src/java/org/gridgain/grid/lang/utils/GridConcurrentPhantomHashSet.java:139-147 | when no two stored handles are equal keys, store.remove of a stored handle removes that handle itself |
| Store.UnclearedRemoveCleared | src/java/org/gridgain/grid/lang/utils/GridConcurrentPhantomHashSet.java:343-351 | removing a cleared handle does not change what a full sweep leaves |
| Store.UnclearedIsIdentity | src/java/org/gridgain/grid/lang/utils/GridConcurrentPhantomHashSet.java:343-351 | a store with no cleared handles is left unchanged by a sweep |
| Store.StaleCoveredFromInclusion | src/java/org/gridgain/grid/lang/utils/GridConcurrentPhantomHashSet.java:343-351 | if every cleared stored handle is queued, every hash class of cleared handles has at least as many queued handles |
| Store.NoStaleWhenQueueEmpty | src/java/org/gridgain/grid/lang/utils/GridConcurrentPhantomHashSet.java:343-351 | with the queue drained, no cleared handle is left in the store |
| Store.PolledKeyIsCleared | src/java/org/gridgain/grid/lang/utils/GridConcurrentPhantomHashSet.java:347 | what store.remove finds for a polled handle is a cleared handle with the same hash code |
| Store.PolledKeyFound | src/java/org/gridgain/grid/lang/utils/GridConcurrentPhantomHashSet.java:347 | if the store holds a cleared handle with the polled handle's hash code, store.remove finds one |
| Store.SweepStep | src/java/org/gridgain/grid/lang/utils/GridConcurrentPhantomHashSet.java:346-348 | one poll and store.remove removes only a cleared handle, keeps the uncleared handles and keeps the counting invariant |
| Store.SweepKeeps | src/java/org/gridgain/grid/lang/utils/GridConcurrentPhantomHashSet.java:346-348 | one poll keeps the sweep's loop invariant |
| Store.SweepDone | src/java/org/gridgain/grid/lang/utils/GridConcurrentPhantomHashSet.java:343-351 | at the end of the sweep the store holds exactly the uncleared handles it began with, none of them cleared |
| Store.DrainSweeps | src/java/org/gridgain/grid/lang/utils/GridConcurrentPhantomHashSet.java:343-351 | draining the rest of the queue leaves exactly the uncleared handles of the store the sweep began with |
| Store.HeldSubset | src/java/org/gridgain/grid/lang/utils/GridConcurrentPhantomHashSet.java:168-182 | a store holds whatever a store with fewer references holds |
| Store.NotHeldAfterRemoval | src/java/org/gridgain/grid/lang/utils/GridConcurrentPhantomHashSet.java:287-303 | after removing the one reference whose `get()` answers an element, the store no longer holds that element |
| Store.FirstHolding | src/java/org/gridgain/grid/lang/utils/GridConcurrentPhantomHashSet.java:172-178 | the scan stops at the first reference whose `get()` answers x; it stops before the end iff the store holds x |
| Store.NextLive | src/java/org/gridgain/grid/lang/utils/GridConcurrentPhantomHashSet.java:239-252 | hasNext's scan stops at the first reference at or after the position whose `get()` is not null, passing only null ones |
| Store.LiveElemsMembership | src/java/org/gridgain/grid/lang/utils/GridConcurrentPhantomHashSet.java:211-219 | toArray lists an element iff contains would find it |
| Store.LiveElemsDistinct | src/java/org/gridgain/grid/lang/utils/GridConcurrentPhantomHashSet.java:211-219 | toArray lists each element at most once |
| Store.PhantomLiveElemsEmpty | src/java/org/gridgain/grid/lang/utils/GridConcurrentPhantomHashSet.java:213-217 | with phantom references toArray lists nothing |
| Store.LiveElemsOnePerHandle | src/java/org/gridgain/grid/lang/utils/GridConcurrentPhantomHashSet.java:211-219 | with weak references and no cleared handle, toArray lists each reference's referent once, in store order |
| Store.LiveElemsSkipNulls | src/java/org/gridgain/grid/lang/utils/GridConcurrentPhantomHashSet.java:244-251 | references whose `get()` is null add nothing to the listing |
| Store.LiveElemsAdvance | src/java/org/gridgain/grid/lang/utils/GridConcurrentPhantomHashSet.java:239-252 | advancing to the next live reference adds exactly its element to the listing, or nothing at the end |
| Store.RetainedMembership | src/java/org/gridgain/grid/lang/utils/GridConcurrentPhantomHashSet.java:131-151 | retainAll keeps exactly the references whose `get()` answers a member of c |
| Store.RetainedIdempotent | src/java/org/gridgain/grid/lang/utils/GridConcurrentPhantomHashSet.java:131-151 | a second retainAll with the same c keeps everything |
| Store.PhantomRetained | src/java/org/gridgain/grid/lang/utils/GridConcurrentPhantomHashSet.java:142 | with phantom references retainAll keeps every reference when c holds null and none otherwise |
| Store.RetainedCons | src/java/org/gridgain/grid/lang/utils/GridConcurrentPhantomHashSet.java:139-147 | retainAll's filter, unfolded from the front |
| Store.RetainFromFilters | src/java/org/gridgain/grid/lang/utils/GridConcurrentPhantomHashSet.java:139-147 | the in-place walk of retainAll, with removal through the iterator, keeps what it has passed and filters the rest |
| SetSpec.DrainSound | src/java/org/gridgain/grid/lang/utils/GridConcurrentPhantomHashSet.java:343-351 | polling the whole queue leaves the store without its cleared references and keeps the invariant with an empty queue |
| SetSpec.SweepIdle | src/java/org/gridgain/grid/lang/utils/GridConcurrentPhantomHashSet.java:343-351 | with an empty queue the sweep changes nothing |
| SetSpec.SweepRemovesCleared | src/java/org/gridgain/grid/lang/utils/GridConcurrentPhantomHashSet.java:343-351 | a reference survives the sweep iff it was stored and not cleared |
| SetSpec.WithFresh | src/java/org/gridgain/grid/lang/utils/GridConcurrentPhantomHashSet.java:39-45 | the factory's new reference refers to e and carries e's hash code |
| SetSpec.FreshBeside | src/java/org/gridgain/grid/lang/utils/GridConcurrentPhantomHashSet.java:108-109 | a fresh reference is none of the stored ones, changes nothing they answer, and is the same key as one of them iff their hash codes agree and (with weak references) its `get()` answers e |
| SetSpec.InsertFresh | src/java/org/gridgain/grid/lang/utils/GridConcurrentPhantomHashSet.java:108-109 | offering a fresh reference for an element not contained keeps the invariant; the store takes it unless, with phantom references, a stored reference has e's hash code |
| SetSpec.InsertFreshHolds | src/java/org/gridgain/grid/lang/utils/GridConcurrentPhantomHashSet.java:108-109 | the offer keeps every stored referent and every contained element, and with weak references e is contained afterwards |
| SetSpec.AddStepAnswer | src/java/org/gridgain/grid/lang/utils/GridConcurrentPhantomHashSet.java:103-113 | add answers true iff the store grew by the one new reference for e; with weak references iff e was not contained; with phantom references iff no stored reference has e's hash code |
| SetSpec.AddStepKeeps | src/java/org/gridgain/grid/lang/utils/GridConcurrentPhantomHashSet.java:103-113 | add keeps the invariant, only appends to the store, keeps stored referents, and what it appends refers to e |
| SetSpec.AddStepHolds | src/java/org/gridgain/grid/lang/utils/GridConcurrentPhantomHashSet.java:103-113 | add loses no contained element, and with weak references e is contained afterwards |
| SetSpec.AddEachStops | src/java/org/gridgain/grid/lang/utils/GridConcurrentPhantomHashSet.java:122-124 | once an add throws, the rest of addAll's loop does not run |
| SetSpec.AddEachNext | src/java/org/gridgain/grid/lang/utils/GridConcurrentPhantomHashSet.java:122-124 | one more turn of addAll's loop ORs in the answer of add on the current state |
| SetSpec.AddEachNull | src/java/org/gridgain/grid/lang/utils/GridConcurrentPhantomHashSet.java:116-128 | addAll fails iff c holds null, and then with the null-argument error |
| SetSpec.AddEachGrows | src/java/org/gridgain/grid/lang/utils/GridConcurrentPhantomHashSet.java:116-128 | addAll keeps the invariant, only appends, keeps stored referents, and answers true iff the store grew |
| SetSpec.AddEachFromC | src/java/org/gridgain/grid/lang/utils/GridConcurrentPhantomHashSet.java:116-128 | every reference addAll adds refers to an element of c |
| SetSpec.AddEachKeepsHeld | src/java/org/gridgain/grid/lang/utils/GridConcurrentPhantomHashSet.java:116-128 | addAll loses no contained element |
| SetSpec.AddEachHolds | src/java/org/gridgain/grid/lang/utils/GridConcurrentPhantomHashSet.java:116-128 | with weak references, after an addAll that succeeds every element of c is contained |
| SetSpec.RemoveStepConsistent | src/java/org/gridgain/grid/lang/utils/GridConcurrentPhantomHashSet.java:287-303 | remove keeps the invariant |
| SetSpec.RemoveStepAnswer | src/java/org/gridgain/grid/lang/utils/GridConcurrentPhantomHashSet.java:287-303 | remove answers true iff o was contained; afterwards o is not contained, only that one reference is gone, and every other element is contained iff it was before; with phantom references it answers false |
| SetSpec.RemoveEachShrinks | src/java/org/gridgain/grid/lang/utils/GridConcurrentPhantomHashSet.java:306-318 | removeAll keeps the invariant, only removes, answers true iff the store shrank, and with phantom references changes nothing |
| SetSpec.RemoveEachClears | src/java/org/gridgain/grid/lang/utils/GridConcurrentPhantomHashSet.java:306-318 | after removeAll no element of c is contained, and every removed reference answered an element of c |
| SetSpec.RemoveInPlace | src/java/org/gridgain/grid/lang/utils/GridConcurrentPhantomHashSet.java:139-147 | removing the reference at the walk's position through the store iterator takes out that reference alone and keeps the invariant |
| SetSpec.CollectConsistent | src/java/org/gridgain/grid/lang/utils/GridConcurrentPhantomHashSet.java:34-36 | the collector clearing a stored reference and enqueueing it keeps the invariant |
| SetSpec.RemoveKeyConsistent | src/java/org/gridgain/grid/lang/utils/GridConcurrentPhantomHashSet.java:275-277 | store.remove of any key keeps the invariant |
| PhantomSet.PhantomHashSet.constructor | src/java/org/gridgain/grid/lang/utils/GridConcurrentPhantomHashSet.java:51-53 | a new set is empty with an empty queue and keeps the invariant |
| PhantomSet.PhantomHashSet.FromCollection | src/java/org/gridgain/grid/lang/utils/GridConcurrentPhantomHashSet.java:95-99 | the set built from c fails iff c holds null; otherwise it is the empty set after addAll(c) |
| PhantomSet.PhantomHashSet.Collect | src/java/org/gridgain/grid/lang/utils/GridConcurrentPhantomHashSet.java:34-36 | the collector clears one stored reference and appends it to the queue; the invariant holds |
| PhantomSet.PhantomHashSet.OnGc | src/java/org/gridgain/grid/lang/utils/GridConcurrentPhantomHashSet.java:358-360 | the hook records its argument and changes nothing else |
| PhantomSet.PhantomHashSet.RemoveStale | src/java/org/gridgain/grid/lang/utils/GridConcurrentPhantomHashSet.java:343-351 | the sweep empties the queue, calls onGc with null once per polled reference, and leaves exactly the uncleared references in order |
| PhantomSet.PhantomHashSet.DrainQueue | src/java/org/gridgain/grid/lang/utils/GridConcurrentPhantomHashSet.java:346-350 | the polling loop ends with the queue empty and the store as Drain describes, with one onGc call per polled reference |
| PhantomSet.PhantomHashSet.FindLive | src/java/org/gridgain/grid/lang/utils/GridConcurrentPhantomHashSet.java:172-178 | the loop of contains finds the first reference whose `get()` answers x |
| PhantomSet.PhantomHashSet.Contains | src/java/org/gridgain/grid/lang/utils/GridConcurrentPhantomHashSet.java:168-182 | contains sweeps, then answers true iff some reference's `get()` answers o; false for null and for an empty store |
| PhantomSet.PhantomHashSet.Add | src/java/org/gridgain/grid/lang/utils/GridConcurrentPhantomHashSet.java:103-113 | add rejects null without sweeping; otherwise it sweeps and does what AddStep says |
| PhantomSet.PhantomHashSet.AddSwept | src/java/org/gridgain/grid/lang/utils/GridConcurrentPhantomHashSet.java:108-112 | on a swept set, contains(e) then store.add of a fresh reference does what AddStep says |
| PhantomSet.PhantomHashSet.AddAll | src/java/org/gridgain/grid/lang/utils/GridConcurrentPhantomHashSet.java:116-128 | an empty c answers false and changes nothing; a null first element fails before any sweep; otherwise the result is what AddEach says |
| PhantomSet.PhantomHashSet.AddNext | src/java/org/gridgain/grid/lang/utils/GridConcurrentPhantomHashSet.java:122-124 | one turn of addAll's loop moves the state from AddEach of c[..i] to AddEach of c[..i+1] |
| PhantomSet.PhantomHashSet.Remove | src/java/org/gridgain/grid/lang/utils/GridConcurrentPhantomHashSet.java:287-303 | remove sweeps and does what RemoveStep says |
| PhantomSet.PhantomHashSet.RemoveSwept | src/java/org/gridgain/grid/lang/utils/GridConcurrentPhantomHashSet.java:290-302 | on a swept set the iterator loop removes the first reference whose `get()` answers o |
| PhantomSet.PhantomHashSet.RemoveAll | src/java/org/gridgain/grid/lang/utils/GridConcurrentPhantomHashSet.java:306-318 | an empty c answers false and changes nothing; otherwise the result is what RemoveEach says |
| PhantomSet.PhantomHashSet.RetainAll | src/java/org/gridgain/grid/lang/utils/GridConcurrentPhantomHashSet.java:131-151 | retainAll sweeps; an empty c then changes nothing and answers false; otherwise exactly the references whose `get()` is in c stay, and it answers true iff any went |
| PhantomSet.PhantomHashSet.Size | src/java/org/gridgain/grid/lang/utils/GridConcurrentPhantomHashSet.java:154-158 | size sweeps and counts the references in the store, live or not |
| PhantomSet.PhantomHashSet.IsEmpty | src/java/org/gridgain/grid/lang/utils/GridConcurrentPhantomHashSet.java:161-165 | isEmpty sweeps and answers whether the store is empty |
| PhantomSet.PhantomHashSet.ContainsAll | src/java/org/gridgain/grid/lang/utils/GridConcurrentPhantomHashSet.java:185-199 | containsAll is false for an empty c and otherwise true iff every element of c is contained |
| PhantomSet.PhantomHashSet.CollectLive | src/java/org/gridgain/grid/lang/utils/GridConcurrentPhantomHashSet.java:211-219 | the loop of toArray collects the non-null `get()` answers in store order |
| PhantomSet.PhantomHashSet.ToArray | src/java/org/gridgain/grid/lang/utils/GridConcurrentPhantomHashSet.java:202-222 | toArray sweeps and answers a fresh array of exactly the listed elements |
| PhantomSet.PhantomHashSet.Clear | src/java/org/gridgain/grid/lang/utils/GridConcurrentPhantomHashSet.java:282-284 | clear empties the store, leaves the queue as it is and calls no onGc |
| PhantomSet.PhantomHashSet.RemoveFromStore | src/java/org/gridgain/grid/lang/utils/GridConcurrentPhantomHashSet.java:275-277 | the store iterator's remove is store.remove of its current reference; it keeps the invariant |
| PhantomSet.PhantomHashSet.Iterator | src/java/org/gridgain/grid/lang/utils/GridConcurrentPhantomHashSet.java:226-231 | iterator sweeps and starts a fresh iterator over the store as it is |
| PhantomSet.SetIterator.constructor | src/java/org/gridgain/grid/lang/utils/GridConcurrentPhantomHashSet.java:229-234 | a new iterator is at the start, with no element found and nothing handed out |
| PhantomSet.SetIterator.HasNext | src/java/org/gridgain/grid/lang/utils/GridConcurrentPhantomHashSet.java:237-256 | with an element already found it changes nothing; otherwise it advances to the next reference whose `get()` is not null, sweeping once per reference it passes, and answers whether it found one |
| PhantomSet.SetIterator.Next | src/java/org/gridgain/grid/lang/utils/GridConcurrentPhantomHashSet.java:258-272 | next answers the element hasNext finds, or fails with NoSuchElement when there is none |
| PhantomSet.SetIterator.Remove | src/java/org/gridgain/grid/lang/utils/GridConcurrentPhantomHashSet.java:274-277 | remove takes out of the store the reference the store iterator handed out last, or fails when there is none |
| PhantomSet.SetIterator.RemoveReturned | src/java/org/gridgain/grid/lang/utils/GridConcurrentPhantomHashSet.java:274-277 | the intended remove takes out the reference whose element next answered last |
| PhantomSet.ForEach | src/java/org/gridgain/grid/lang/utils/GridConcurrentPhantomHashSet.java:258-272 | calling next until it throws yields exactly the non-null `get()` answers of the remaining references, in store order |
| Scenarios.PhantomAddIsInvisible | src/java/org/gridgain/grid/lang/utils/GridConcurrentPhantomHashSet.java:168-182 | as written: after add(e) answers true on an empty set, e is not contained and toArray lists nothing |
| Scenarios.WeakAddIsVisible | src/java/org/gridgain/grid/lang/utils/GridConcurrentPhantomHashSet.java:168-182 | with weak references: after add(e) on an empty set, e is contained and toArray lists exactly e |
| Scenarios.PhantomCollisionRejects | src/java/org/gridgain/grid/lang/utils/GridConcurrentPhantomHashSet.java:382-396 | as written: after add(a), add(b) for any b with a's hash code answers false and leaves the store unchanged |
| Scenarios.WeakCollisionAccepts | src/java/org/gridgain/grid/lang/utils/GridConcurrentPhantomHashSet.java:382-396 | with weak references: a distinct b with a's hash code is added, and both are contained |
| Scenarios.NextThenLookahead | src/java/org/gridgain/grid/lang/utils/GridConcurrentPhantomHashSet.java:237-272 | next() returns the element of the first live reference from the position; hasNext() then answers true iff another live reference follows and visits it; together they drop only cleared references and add none, so the returned reference stays stored |
| Scenarios.RemoveAfterLookahead | src/java/org/gridgain/grid/lang/utils/GridConcurrentPhantomHashSet.java:274-277 | as written: next() answers an element, and hasNext() answers true exactly when another live reference follows; in that case remove() takes the looked-ahead reference, which holds a different element, out of the store (when it was stored), keeps every other uncleared reference (the returned one included), and adds none |
| Scenarios.RemoveReturnedAfterLookahead | src/java/org/gridgain/grid/lang/utils/GridConcurrentPhantomHashSet.java:274-277 | intended: next() succeeds iff a live reference lies ahead; remove() then takes out the reference whose element next answered (when it was stored), keeps every other uncleared reference, and adds none |
| Scenarios.RemoveWithoutNext | src/java/org/gridgain/grid/lang/utils/GridConcurrentPhantomHashSet.java:237-256 | as written, with phantom references: on a new iterator hasNext() answers false, yet remove() succeeds and takes the last visited reference out of the set, although next() returned nothing |
| Scenarios.RemoveReturnedWithoutNext | src/java/org/gridgain/grid/lang/utils/GridConcurrentPhantomHashSet.java:237-256 | intended: with nothing returned by next(), remove() fails with IllegalState and the set keeps exactly the uncleared references |
| Scenarios.ClearThenSize | src/java/org/gridgain/grid/lang/utils/GridConcurrentPhantomHashSet.java:282-284 | after clear() the next sweep still calls onGc once per reference enqueued before it |

### Definitions

These functions define the source operations. The members in the table
above state their properties.

- `Handles.NewCell`: the `PhantomReferenceElement` constructor, which captures the referent's hash code or 0 for null, java:375-379
- `Handles.ClearCell`: the collector clearing a reference, java:365-379
- `Handles.Refs.Get`: `Reference.get()`, java:365-379
- `Handles.Refs.Hash`: `PhantomReferenceElement.hashCode()`, java:399-401
- `Handles.Refs.Equal`: `PhantomReferenceElement.equals`, java:382-396
- `Store.SameKey`: the backing store's key test, hash code first and then `equals`, java:382-401
- `Store.RemoveKey`: the backing store's `remove`, java:347
- `Store.Drain`: the polling loop of `removeStale`, java:346-350
- `Store.Held`: the answer of `contains`, java:168-182
- `Store.LiveElems`: what `toArray` and the iterator list, java:207-222
- `Store.Retained`: what `retainAll` keeps, java:131-151
- `Store.RetainFrom`: the iterator walk of `retainAll`, java:139-147
- `SetSpec.AddStep`: `add`, java:103-113
- `SetSpec.AddEach`: `addAll`, java:116-128
- `SetSpec.RemoveStep`: `remove`, java:287-303
- `SetSpec.RemoveEach`: `removeAll`, java:306-318

Here java stands for src/java/org/gridgain/grid/lang/utils/GridConcurrentPhantomHashSet.java.

## Left out

- Concurrency: the model is single-threaded. The backing store is a
  sequence in one fixed iteration order. The real store is a concurrent
  hash set with unspecified order and weakly consistent iterators.
- Iteration: the iterator walks the store as it was when the iterator was
  made. It does not see entries added or removed later, including those
  its own remove takes out; that remove changes the store, not the
  iterator's snapshot.
- Collector timing: the collector acts only when `Collect` is called, and
  only on a reference the store still holds. This is a modelling choice: in
  Java the set's iterator keeps the reference it visited last reachable
  after `clear()` or a removal, and the collector may enqueue it later.
- PhantomSet.PhantomHashSet.Collect: does not model enqueueing a reference the store has dropped. With
  phantom references such a reference equals every reference, so the sweep's
  `store.remove` would take out a live reference with the same hash code.
  For example: iterate to the end, `clear()`, add a b whose hash code equals
  the last visited element's, and let that element be collected; the next
  sweep then drops b.
- The sizing constructors (`initCap`, `loadFactor`, `conLevel`): they affect
  only the store's capacity, not its contents.
- Not modelled:
  - the set's own `equals` and `hashCode`, which delegate to the backing
    store;
  - `toString`;
  - `toArray(T[])` reusing the caller's array; `ToArray` always answers a
    fresh array.
- Hash codes: `Object.hashCode` is the function `hashOf`, and element
  `equals` is Dafny equality. The 32-bit width of hash codes is not
  modelled, because hash codes are only compared for equality.
- Collections: a collection argument is a sequence that may hold nulls, and
  `c.contains` is sequence membership. A null collection is not modelled.
  The operations that test `F.isEmpty(c)` treat it like an empty one, and
  the model's empty sequence covers that case.
- PhantomSet.PhantomHashSet.FromCollection: does not model the collection constructor
  failing on a null collection. In Java it calls `c.size()` first and throws
  NullPointerException.
- Null arguments: the exception `A.notNull` throws for a null element is
  the `NullArgument` error. Its Java exception type is not modelled. The
  `ref != null` test in `hasNext` is not modelled, because the store never
  holds null.
- `onGc` is a protected no-op hook. The model records its arguments in
  `gcLog`. What an overriding subclass does, including throwing in the
  middle of a sweep, is not modelled.
- Ghost-only members that only carry proofs (the sweep's counting
  invariant and the `Sweeping` loop invariant) restate no source promise by
  themselves.
- SetSpec.AddEachHolds: states containment only for an addAll that
  succeeds. It says nothing about the elements added before a null
  element stops the loop.
- GridDiscoverySpiListener.java and GridCacheEntryRedeployException.java
  are not part of this model.

## Findings

| source | as written | input that shows it | evidently intended | confidence | as-written member | corrected member |
|---|---|---|---|---|---|---|
| src/java/org/gridgain/grid/lang/utils/GridConcurrentPhantomHashSet.java:365-379 | `PhantomReferenceElement` extends `PhantomReference`, whose `get()` always answers null. So contains, toArray and the iterator never see an element | a new set: add(7) answers true, then contains(7) answers false and toArray() answers [] | a weak reference, whose `get()` answers the referent until it is collected: contains(7) answers true and toArray() answers [7] | not executed | Scenarios.PhantomAddIsInvisible | Scenarios.WeakAddIsVisible |
| src/java/org/gridgain/grid/lang/utils/GridConcurrentPhantomHashSet.java:382-396 | equals compares `get()` on both sides, which is null for every phantom reference. So every two references are equal, and the store treats equal hash codes as the same key | hashCode x % 2: add(1) answers true, then add(3) answers false and the set keeps only 1 | add(3) answers true and both elements are kept | not executed | Scenarios.PhantomCollisionRejects | Scenarios.WeakCollisionAccepts |
| src/java/org/gridgain/grid/lang/utils/GridConcurrentPhantomHashSet.java:274-277 | remove() calls the store iterator's remove, and hasNext() may already have moved that iterator past the element next() answered | weak references, set holding 1 then 2: next() answers 1, hasNext() answers true, remove() takes out 2, and the following next() still answers 2 | remove() takes out 1, the element next() answered | not executed | Scenarios.RemoveAfterLookahead | Scenarios.RemoveReturnedAfterLookahead |
| src/java/org/gridgain/grid/lang/utils/GridConcurrentPhantomHashSet.java:237-256 | hasNext() moves the store iterator over every reference whose `get()` is null, and remove() acts on the store iterator, so remove() succeeds without any next() | phantom references, set holding 7: iterator(), hasNext() answers false, remove() answers normally and the set becomes empty | remove() throws IllegalStateException because next() returned nothing, and 7 stays | not executed | Scenarios.RemoveWithoutNext | Scenarios.RemoveReturnedWithoutNext |
