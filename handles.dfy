/** The reference objects of the set (PhantomReferenceElement): each one
    remembers its referent until the collector clears it and the hash code of
    that referent taken when the reference was created. */
module Handles {

  datatype Option<+T> = None | Some(value: T)

  /** Identity of one reference object: two handles are the same object iff
      their ids are equal. */
  type Handle = nat

  /** One reference object: the referent the collector has not cleared yet,
      and the hash code captured by the constructor. */
  datatype Cell<E> = Cell(referent: Option<E>, hash: int)

  /** The reference constructor: it keeps the referent and captures its hash
      code, or 0 for a null referent. */
  function NewCell<E>(e: Option<E>, hashOf: E -> int): Cell<E> {
    Cell(e, if e.Some? then hashOf(e.value) else 0)
  }

  /** What the collector does to a reference it has found unreachable: the
      referent is gone, the captured hash code stays. */
  function ClearCell<E>(c: Cell<E>): Cell<E> {
    c.(referent := None)
  }

  /** All reference objects created so far, read through `get()`. When
      `phantom` holds, `get()` answers null whatever the referent (the
      contract of java.lang.ref.PhantomReference); otherwise it answers the
      referent until it is cleared (the contract of a weak reference). */
  datatype Refs<E(==)> = Refs(phantom: bool, cells: map<Handle, Cell<E>>) {

    /** The referent the collector has not cleared yet. */
    function Referent(h: Handle): Option<E> {
      if h in cells then cells[h].referent else None
    }

    /** Reference.get() */
    function Get(h: Handle): Option<E> {
      if phantom then None else Referent(h)
    }

    /** PhantomReferenceElement.hashCode(): the captured hash code. */
    function Hash(h: Handle): int {
      if h in cells then cells[h].hash else 0
    }

    /** The collector has cleared h. */
    predicate Cleared(h: Handle) {
      h in cells && cells[h].referent.None?
    }

    /** PhantomReferenceElement.equals: the same object, or `get()` of both
        sides is equal (a present referent equals the other's referent, an
        absent one only another absent one). */
    predicate Equal(a: Handle, b: Handle) {
      a == b || (var x, y := Get(a), Get(b); if x.Some? then x == y else y.None?)
    }
  }

  /** Clearing h: `hashCode()` answers what it did for every reference,
      `get()` of h answers null and `get()` of every other reference is
      unchanged. With weak references h then equals exactly itself and the
      other references whose `get()` answers null. */
  lemma ClearingOneReference<E>(r: Refs<E>, h: Handle, x: Handle)
    requires h in r.cells
    ensures var r' := Refs(r.phantom, r.cells[h := ClearCell(r.cells[h])]);
      && r'.Hash(x) == r.Hash(x)
      && r'.Get(h) == None && r'.Cleared(h)
      && (x != h ==> r'.Get(x) == r.Get(x) && r'.Cleared(x) == r.Cleared(x))
      && (!r.phantom ==> (r'.Equal(h, x) <==> x == h || r.Get(x) == None))
  {
  }

  /** equals compares what `get()` answers on both sides. */
  lemma EqualIffSameGet<E>(r: Refs<E>, a: Handle, b: Handle)
    ensures r.Equal(a, b) <==> a == b || r.Get(a) == r.Get(b)
  {
  }

  /** equals is an equivalence relation at any one moment. */
  lemma EqualIsEquivalence<E>(r: Refs<E>, a: Handle, b: Handle, c: Handle)
    ensures r.Equal(a, a)
    ensures r.Equal(a, b) ==> r.Equal(b, a)
    ensures r.Equal(a, b) && r.Equal(b, c) ==> r.Equal(a, c)
  {
  }

  /** Two cleared references compare equal, whatever they referred to. */
  lemma ClearedHandlesAreEqual<E>(r: Refs<E>, a: Handle, b: Handle)
    requires r.Cleared(a) && r.Cleared(b)
    ensures r.Equal(a, b)
  {
  }

  /** With phantom references every two references compare equal, so equal
      references need not have equal hash codes. */
  lemma PhantomHandlesAreAllEqual<E>(r: Refs<E>, a: Handle, b: Handle)
    requires r.phantom
    ensures r.Equal(a, b)
    ensures r.Get(a) == None
  {
  }
}
