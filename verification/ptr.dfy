/** pkg/util/ptr/ptr.go: `To` puts a copy of a value in a fresh heap cell and
    returns the pointer; `Deref` reads through a possibly nil pointer,
    falling back to a default. */
module Ptr {
  /** A heap cell holding one value of type `T`; `Cell?<T>` is `*T`. */
  class Cell<T> {
    var value: T

    constructor (v: T)
      ensures value == v
    {
      value := v;
    }
  }

  /** `To`: a pointer to a fresh copy of `v`. */
  method To<T>(v: T) returns (p: Cell<T>)
    ensures fresh(p) && p.value == v
  {
    p := new Cell(v);
  }

  /** `Deref`: the pointed-to value, or `def` for nil. */
  function Deref<T>(p: Cell?<T>, def: T): (r: T)
    reads p
    ensures p == null ==> r == def
    ensures p != null ==> r == p.value
  {
    if p != null then p.value else def
  }

  /** Through a non-nil pointer the default plays no part. */
  lemma DerefIgnoresDefault<T>(p: Cell<T>, def1: T, def2: T)
    ensures Deref(p, def1) == Deref(p, def2)
  {
  }

  /** `Deref(To(v), def)` is `v`; and because `To` copies into a fresh
      cell, writing through its result leaves every existing cell, `other`
      included, as it was. */
  method ToThenWrite<T>(v: T, w: T, def: T, other: Cell<T>) returns (read: T, p: Cell<T>)
    ensures read == v
    ensures fresh(p) && p.value == w
    ensures unchanged(other)
  {
    p := To(v);
    read := Deref(p, def);
    p.value := w;
  }
}
