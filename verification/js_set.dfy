/** A mutable JavaScript `Set<string>`: the page keeps the ids of expanded
    FAQs in one, copies it with `new Set(old)`, and edits the copy. */
module JsSet {

  class StringSet {
    var elems: set<string>

    /** `new Set()` */
    constructor Empty()
      ensures elems == {}
    {
      elems := {};
    }

    /** `new Set(other)`: a fresh set with the same members; `other` is untouched. */
    constructor Copy(other: StringSet)
      ensures elems == other.elems
    {
      elems := other.elems;
    }

    /** `set.has(x)` */
    function Has(x: string): (present: bool)
      reads this
      ensures present <==> x in elems
    {
      x in elems
    }

    /** `set.add(x)` */
    method Add(x: string)
      modifies this
      ensures elems == old(elems) + {x}
    {
      elems := elems + {x};
    }

    /** `set.delete(x)`: removes `x`, reporting whether it was a member. */
    method Delete(x: string) returns (removed: bool)
      modifies this
      ensures removed == (x in old(elems))
      ensures elems == old(elems) - {x}
    {
      removed := x in elems;
      elems := elems - {x};
    }
  }
}
