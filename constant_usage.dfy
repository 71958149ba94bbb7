/** `ConstantUsageMarker`: which constant objects have been marked as used.
    It is keyed on object identity, so two equal constants are marked
    separately. */
module ConstantUsage {
  import opened Constants

  /** A constant object in memory; its identity is the object's. */
  class ConstantObject {
    const value: Constant

    constructor (value: Constant)
      ensures this.value == value
    {
      this.value := value;
    }
  }

  class ConstantUsageMarker {
    var used: set<ConstantObject>

    constructor ()
      ensures used == {}
    {
      used := {};
    }

    /** `markUsed`: marks this object, and no other. */
    method MarkUsed(item: ConstantObject)
      modifies this
      ensures used == old(used) + {item}
      ensures forall o: ConstantObject :: o != item ==> (o in used <==> o in old(used))
      ensures IsUsed(item)
      ensures forall o: ConstantObject :: o != item && old(allocated(o)) ==> (IsUsed(o) <==> old(IsUsed(o)))
    {
      used := used + {item};
    }

    /** `isUsed`. */
    predicate IsUsed(item: ConstantObject): (r: bool)
      reads this
      ensures r <==> item in used
    {
      item in used
    }

    /** Marking one of two distinct objects with equal constants leaves the
        other unmarked. */
    method MarkUsedIsByIdentity(a: ConstantObject, b: ConstantObject)
      requires a != b && a.value == b.value && !IsUsed(b)
      modifies this
      ensures IsUsed(a) && !IsUsed(b)
    {
      MarkUsed(a);
    }
  }
}
