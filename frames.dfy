/** The evaluation's `Frame`: the local variables and the operand stack as
    lists it updates in place, and one liveness cell per local slot. A cell
    is an object of its own, so a copy of a frame shares its cells with the
    original until either frame installs a new cell for a slot. */
module Frames {
  import opened Wrappers
  import opened JvmTypes
  import opened Values
  import opened FrameStates
  import opened Constants
  import opened VerificationTypes
  import opened ConstantPoolEditors
  import VT = VariableTypes

  /** An `AtomicBoolean`: whether a local slot is read before it is next
      written. */
  class LiveCell {
    var alive: bool

    constructor (alive: bool)
      ensures this.alive == alive
    {
      this.alive := alive;
    }
  }

  /** The bits the cells hold, slot by slot. */
  function AliveOf(cs: seq<LiveCell>): (r: seq<bool>)
    reads cs
    ensures |r| == |cs|
    ensures forall j :: 0 <= j < |cs| ==> r[j] == cs[j].alive
  {
    if cs == [] then [] else AliveOf(cs[..|cs| - 1]) + [cs[|cs| - 1].alive]
  }

  function Category2(v: Value): bool {
    v.IsCategory2()
  }

  /** `aliveVariableCount` as a walk over the locals from slot `i`: one for
      each variable met whose slot is alive; a variable whose slot has no
      cell fails. */
  function AliveCount(vs: seq<Value>, i: nat, alive: seq<bool>): (r: Result<nat>)
    ensures r.Failure? ==> r == Failure("IndexOutOfBoundsException")
    decreases |vs| - i
  {
    if i >= |vs| then Success(0)
    else if i >= |alive| then Failure("IndexOutOfBoundsException")
    else
      var rest :- AliveCount(vs, i + vs[i].OperandSize(), alive);
      Success((if alive[i] then 1 else 0) + rest)
  }

  /** The count fails exactly when some variable met lies beyond the cells,
      and never exceeds the number of variables; with every slot alive it
      is that number. */
  lemma {:induction false} AliveCountBounds(vs: seq<Value>, i: nat, alive: seq<bool>)
    ensures AliveCount(vs, i, alive).Success? <==>
      forall k :: 0 <= k < |LogicalFrom(vs, i, Category2)| ==> IndexFrom(vs, i, k) < |alive|
    ensures AliveCount(vs, i, alive).Success? ==> AliveCount(vs, i, alive).value <= |LogicalFrom(vs, i, Category2)|
    ensures AliveCount(vs, i, alive).Success? && (forall j :: i <= j < |alive| ==> alive[j]) ==>
      AliveCount(vs, i, alive).value == |LogicalFrom(vs, i, Category2)|
    decreases |vs| - i
  {
    if i < |vs| {
      var next := i + vs[i].OperandSize();
      AliveCountBounds(vs, next, alive);
      var rest := LogicalFrom(vs, next, Category2);
      assert LogicalFrom(vs, i, Category2) == [vs[i]] + rest;
      assert IndexFrom(vs, i, 0) == i;
      forall k | 1 <= k < 1 + |rest|
        ensures IndexFrom(vs, i, k) == IndexFrom(vs, next, k - 1)
      {
        IndexFromShift(vs, i, k);
      }
      if i < |alive| && AliveCount(vs, next, alive).Success? {
        forall k | 0 <= k < 1 + |rest|
          ensures IndexFrom(vs, i, k) < |alive|
        {
          if k > 0 {
            assert IndexFrom(vs, i, k) == IndexFrom(vs, next, k - 1);
            assert 0 <= k - 1 < |rest|;
            assert IndexFrom(vs, next, k - 1) < |alive|;
          }
        }
      } else if i < |alive| {
        assert AliveCount(vs, i, alive).Failure?;
        var k :| 0 <= k < |rest| && IndexFrom(vs, next, k) >= |alive|;
        assert IndexFrom(vs, i, k + 1) == IndexFrom(vs, next, k);
        assert 0 <= k + 1 < |LogicalFrom(vs, i, Category2)| && IndexFrom(vs, i, k + 1) >= |alive|;
      } else {
        assert 0 < |LogicalFrom(vs, i, Category2)| && IndexFrom(vs, i, 0) >= |alive|;
      }
    }
  }

  /** The slot of the `k`-th variable met when walking from slot `i`. */
  function IndexFrom(vs: seq<Value>, i: nat, k: nat): nat
    decreases k
  {
    if k == 0 || i >= |vs| then i else IndexFrom(vs, i + vs[i].OperandSize(), k - 1)
  }

  lemma IndexFromShift(vs: seq<Value>, i: nat, k: nat)
    requires i < |vs| && k > 0
    ensures IndexFrom(vs, i, k) == IndexFrom(vs, i + vs[i].OperandSize(), k - 1)
  {
  }

  /** `toVerificationType` of each value of a list of values. */
  function LowerEach(vs: seq<Value>, interned: map<Constant, int>): (r: seq<VerificationType>)
    ensures |r| == |vs|
    ensures forall j :: 0 <= j < |vs| ==> r[j] == ToVerificationType(vs[j], interned)
  {
    if vs == [] then [] else LowerEach(vs[..|vs| - 1], interned) + [ToVerificationType(vs[|vs| - 1], interned)]
  }

  predicate ClassesInterned(vs: seq<Value>, interned: map<Constant, int>) {
    forall j :: 0 <= j < |vs| && vs[j].ReferenceValue? ==> VT.ClassInternedIn(interned, ClassName(vs[j].valueType))
  }

  /** Once its classes are interned, a list lowers the same however much the
      pool grows afterwards. */
  lemma LowerEachStable(vs: seq<Value>, before: map<Constant, int>, after: map<Constant, int>)
    requires MapExtends(before, after) && ClassesInterned(vs, before)
    ensures ClassesInterned(vs, after)
    ensures LowerEach(vs, before) == LowerEach(vs, after)
  {
    forall j | 0 <= j < |vs| && vs[j].ReferenceValue?
      ensures VT.ClassInternedIn(after, ClassName(vs[j].valueType))
      ensures ToVerificationType(vs[j], before) == ToVerificationType(vs[j], after)
    {
      VT.ClassIndexStable(before, after, ClassName(vs[j].valueType));
    }
  }

  /** The walk over `vs` has reached slot `i` and lowered the values met so
      far, `visited`, into `r`, their classes interned. */
  ghost predicate Lowered(vs: seq<Value>, i: nat, visited: seq<Value>, r: seq<VerificationType>, interned: map<Constant, int>) {
    visited + LogicalFrom(vs, i, Category2) == Logical(vs, Category2) &&
    ClassesInterned(visited, interned) && r == LowerEach(visited, interned)
  }

  /** One step of the walk: the value met is lowered in the grown pool. */
  lemma LoweredStep(vs: seq<Value>, i: nat, visited: seq<Value>, r: seq<VerificationType>, t: VerificationType,
                    before: map<Constant, int>, after: map<Constant, int>)
    requires i < |vs| && Lowered(vs, i, visited, r, before) && MapExtends(before, after)
    requires t == ToVerificationType(vs[i], after)
    requires vs[i].ReferenceValue? ==> VT.ClassInternedIn(after, ClassName(vs[i].valueType))
    ensures Lowered(vs, i + vs[i].OperandSize(), visited + [vs[i]], r + [t], after)
  {
    WalkStep(vs, i, visited);
    LowerEachStable(visited, before, after);
    LowerEachAppend(visited, vs[i], after);
    ClassesInternedAppend(visited, vs[i], after);
  }

  lemma WalkStep(vs: seq<Value>, i: nat, visited: seq<Value>)
    requires i < |vs| && visited + LogicalFrom(vs, i, Category2) == Logical(vs, Category2)
    ensures (visited + [vs[i]]) + LogicalFrom(vs, i + vs[i].OperandSize(), Category2) == Logical(vs, Category2)
  {
    assert LogicalFrom(vs, i, Category2) == [vs[i]] + LogicalFrom(vs, i + vs[i].OperandSize(), Category2);
  }

  lemma LowerEachAppend(vs: seq<Value>, v: Value, interned: map<Constant, int>)
    ensures LowerEach(vs + [v], interned) == LowerEach(vs, interned) + [ToVerificationType(v, interned)]
  {
    assert (vs + [v])[..|vs|] == vs;
  }

  lemma ClassesInternedAppend(vs: seq<Value>, v: Value, interned: map<Constant, int>)
    requires ClassesInterned(vs, interned)
    requires v.ReferenceValue? ==> VT.ClassInternedIn(interned, ClassName(v.valueType))
    ensures ClassesInterned(vs + [v], interned)
  {
  }

  /** The pool only grew: no constant moved and no interned index changed. */
  twostate predicate PoolGrew(editor: ConstantPoolEditor)
    reads editor.pool
  {
    editor.pool.Consistent() &&
    Extends(old(editor.pool.constants), editor.pool.constants) &&
    MapExtends(old(editor.pool.interned), editor.pool.interned)
  }

  /** `toVerificationType` of one value; a reference interns its class. */
  method LowerValue(v: Value, editor: ConstantPoolEditor) returns (t: VerificationType)
    requires editor.pool.Consistent()
    modifies editor.pool
    ensures PoolGrew(editor)
    ensures t == ToVerificationType(v, editor.pool.interned)
    ensures v.ReferenceValue? ==> VT.ClassInternedIn(editor.pool.interned, ClassName(v.valueType))
  {
    if v.ReferenceValue? {
      var index := editor.AddOrGetClass(ClassName(v.valueType));
      t := ObjectVariable(index);
    } else {
      t := ToVerificationType(v, editor.pool.interned);
    }
  }

  /** `toVerificationTypeList`: walks the list stepping over each value's
      operand size and lowers every value met, interning the class of each
      reference in the pool. The result has one entry per variable, and the
      pool only grows. */
  method ToVerificationTypeList(vs: seq<Value>, editor: ConstantPoolEditor) returns (r: seq<VerificationType>)
    requires editor.pool.Consistent()
    modifies editor.pool
    ensures PoolGrew(editor)
    ensures r == LowerEach(Logical(vs, Category2), editor.pool.interned)
    ensures ClassesInterned(Logical(vs, Category2), editor.pool.interned)
  {
    r := [];
    var i := 0;
    ghost var visited: seq<Value> := [];
    while i < |vs|
      invariant PoolGrew(editor)
      invariant Lowered(vs, i, visited, r, editor.pool.interned)
      decreases |vs| - i
    {
      ghost var before := editor.pool.interned;
      ghost var constantsBefore := editor.pool.constants;
      var t := LowerValue(vs[i], editor);
      LoweredStep(vs, i, visited, r, t, before, editor.pool.interned);
      ExtendsTransitive(old(editor.pool.constants), constantsBefore, editor.pool.constants);
      MapExtendsTransitive(old(editor.pool.interned), before, editor.pool.interned);
      r := r + [t];
      visited := visited + [vs[i]];
      i := i + vs[i].OperandSize();
    }
    assert LogicalFrom(vs, i, Category2) == [];
    assert visited + [] == visited;
  }

  /** The bit of each cell of `cs`. */
  function Bits(cs: set<LiveCell>): map<LiveCell, bool>
    reads cs
  {
    map c | c in cs :: c.alive
  }

  /** Every cell alive in the snapshot `start` is still alive. */
  ghost predicate Rose(start: map<LiveCell, bool>)
    reads start.Keys
  {
    forall c :: c in start && start[c] ==> c.alive
  }

  class Frame {
    var variables: seq<Value>
    var stack: seq<Value>
    /** `_alive`: the liveness cell of each local slot. */
    var cells: seq<LiveCell>

    /** No cell serves two slots of the same frame. */
    ghost predicate Valid()
      reads this
    {
      forall i, j :: 0 <= i < j < |cells| ==> cells[i] != cells[j]
    }

    function State(): FrameState<Value>
      reads this
    {
      FrameState(variables, stack)
    }

    function Liveness(): seq<bool>
      reads this, cells
    {
      AliveOf(cells)
    }

    /** The cells of the slots, as a set. */
    function CellSet(): set<LiveCell>
      reads this
    {
      set j | 0 <= j < |cells| :: cells[j]
    }

    /** `Frame.empty()`. */
    constructor Empty()
      ensures variables == [] && stack == [] && cells == []
      ensures Valid()
    {
      variables, stack, cells := [], [], [];
    }

    constructor Of(variables: seq<Value>, stack: seq<Value>, cells: seq<LiveCell>)
      ensures this.variables == variables && this.stack == stack && this.cells == cells
    {
      this.variables, this.stack, this.cells := variables, stack, cells;
    }

    /** `equals`: the locals and the stack agree; liveness is ignored. */
    predicate Equals(other: Frame): (r: bool)
      reads this, other
      ensures r <==> State() == other.State()
      ensures this == other ==> r
    {
      variables == other.variables && stack == other.stack
    }

    /** `copy`: new lists holding the same values and the same cells, so a
        slot read through the copy is alive in the original too. */
    method Copy() returns (g: Frame)
      requires Valid()
      ensures fresh(g) && g.Valid() && g.Equals(this) && this.Equals(g)
      ensures g.cells == cells && g.Liveness() == Liveness()
    {
      g := new Frame.Of(variables, stack, cells);
    }

    method Push(v: Value)
      modifies this
      ensures stack == old(stack) + [v]
      ensures variables == old(variables) && cells == old(cells)
    {
      stack := stack + [v];
    }

    /** `pop()`: the top value; an empty stack fails. */
    method Pop() returns (r: Result<Value>)
      modifies this
      ensures r.Success? <==> |old(stack)| > 0
      ensures r.Success? ==> old(stack) == stack + [r.value]
      ensures r.Failure? ==> stack == old(stack)
      ensures variables == old(variables) && cells == old(cells)
    {
      if |stack| == 0 {
        return Failure("NoSuchElementException");
      }
      r := Success(stack[|stack| - 1]);
      stack := stack[..|stack| - 1];
    }

    /** `peek()`: the top value, left in place; an empty stack fails. */
    method Peek() returns (r: Result<Value>)
      ensures r.Success? <==> |stack| > 0
      ensures r.Success? ==> stack[|stack| - 1] == r.value
    {
      if |stack| == 0 {
        return Failure("NoSuchElementException");
      }
      r := Success(stack[|stack| - 1]);
    }

    /** `pop(count)`: removes `count` values one by one; when there are
        fewer, it removes them all before failing. */
    method PopCount(count: int) returns (out: Outcome)
      modifies this
      ensures out.Pass? <==> count <= |old(stack)|
      ensures out.Pass? && count >= 0 ==> stack == old(stack)[..|old(stack)| - count]
      ensures out.Pass? && count < 0 ==> stack == old(stack)
      ensures out.Fail? ==> stack == []
      ensures variables == old(variables) && cells == old(cells)
    {
      out := Pass;
      if count <= 0 {
        return;
      }
      for k := 0 to count
        invariant k <= |old(stack)| && stack == old(stack)[..|old(stack)| - k]
        invariant variables == old(variables) && cells == old(cells)
      {
        if |stack| == 0 {
          return Fail("NoSuchElementException");
        }
        stack := stack[..|stack| - 1];
      }
    }

    method ClearStack()
      modifies this
      ensures stack == [] && variables == old(variables) && cells == old(cells)
    {
      stack := [];
    }

    /** `isAlive`: the bit of the slot's cell; a slot without one fails. */
    method IsAlive(i: int) returns (r: Result<bool>)
      ensures r.Success? <==> 0 <= i < |cells|
      ensures r.Success? ==> r.value == cells[i].alive
    {
      if !(0 <= i < |cells|) {
        return Failure("IndexOutOfBoundsException");
      }
      r := Success(cells[i].alive);
    }

    /** `load`: the value in slot `i`; a slot outside the locals fails, and
        so does one holding `TopValue`. */
    method Load(i: int) returns (r: Result<Value>)
      ensures r.Success? <==> 0 <= i < |variables| && variables[i] != TopValue
      ensures r.Success? ==> r.value == variables[i]
      ensures r == FrameStates.Load(State(), i, TopValue)
    {
      if !(0 <= i < |variables|) {
        return Failure("IndexOutOfBoundsException");
      }
      if variables[i] == TopValue {
        return Failure("IllegalStateException");
      }
      r := Success(variables[i]);
    }

    /** `ensureVariableCapacity`: appends `TopValue` until slot `capacity`
        exists. */
    method EnsureVariableCapacity(capacity: int)
      modifies this
      ensures variables == Padded(old(variables), capacity, TopValue)
      ensures stack == old(stack) && cells == old(cells)
    {
      while capacity >= |variables|
        invariant Padded(variables, capacity, TopValue) == Padded(old(variables), capacity, TopValue)
        invariant stack == old(stack) && cells == old(cells)
        decreases capacity - |variables|
      {
        variables := variables + [TopValue];
      }
    }

    /** `store`: pads the locals up to slot `i`, or `i + 1` for a category-2
        value, then sets slot `i` only. A negative slot fails after the
        padding. */
    method Store(i: int, v: Value) returns (out: Outcome)
      modifies this
      ensures out.Pass? <==> i >= 0
      ensures out.Pass? ==> Success(State()) == FrameStates.Store(old(State()), i, v, TopValue, Category2)
      ensures out.Fail? ==> variables == Padded(old(variables), if v.IsCategory2() then i + 1 else i, TopValue)
      ensures stack == old(stack) && cells == old(cells)
    {
      var maxVariableIndex := if v.IsCategory2() then i + 1 else i;
      EnsureVariableCapacity(maxVariableIndex);
      if i < 0 {
        return Fail("IndexOutOfBoundsException");
      }
      variables := variables[i := v];
      out := Pass;
    }

    /** `variableRead`: sets the bit of slot `i`'s cell, and so of every
        frame sharing that cell. */
    method VariableRead(i: int) returns (out: Outcome)
      requires Valid()
      modifies if 0 <= i < |cells| then {cells[i]} else {}
      ensures out.Pass? <==> 0 <= i < |cells|
      ensures out.Pass? ==> cells[i].alive && Liveness() == old(Liveness())[i := true]
    {
      if !(0 <= i < |cells|) {
        return Fail("IndexOutOfBoundsException");
      }
      cells[i].alive := true;
      out := Pass;
    }

    /** `resetVariableLiveness(i)`: a new cell, not alive, for slot `i`,
        which detaches the slot from every copy. */
    method ResetVariableLiveness(i: int) returns (out: Outcome)
      requires Valid()
      modifies this
      ensures Valid()
      ensures out.Pass? <==> 0 <= i < |old(cells)|
      ensures out.Pass? ==> |cells| == |old(cells)| && fresh(cells[i])
      ensures out.Pass? ==> forall j :: 0 <= j < |cells| && j != i ==> cells[j] == old(cells[j])
      ensures out.Pass? ==> Liveness() == old(Liveness())[i := false]
      ensures out.Fail? ==> cells == old(cells)
      ensures variables == old(variables) && stack == old(stack)
    {
      if !(0 <= i < |cells|) {
        return Fail("IndexOutOfBoundsException");
      }
      var cell := new LiveCell(false);
      cells := cells[i := cell];
      out := Pass;
    }

    /** `resetVariableLiveness()`: every slot gets a new cell with the bit
        it had, so the frame keeps its liveness but shares no cell with any
        other frame. */
    method ResetAllLiveness()
      requires Valid()
      modifies this
      ensures Valid()
      ensures Liveness() == old(Liveness())
      ensures forall j :: 0 <= j < |cells| ==> fresh(cells[j])
      ensures variables == old(variables) && stack == old(stack)
    {
      for k := 0 to |cells|
        invariant |cells| == |old(cells)|
        invariant forall j :: 0 <= j < k ==> fresh(cells[j]) && cells[j].alive == old(cells[j].alive)
        invariant forall j :: k <= j < |cells| ==> cells[j] == old(cells[j])
        invariant forall i, j :: 0 <= i < j < |cells| ==> cells[i] != cells[j]
        invariant variables == old(variables) && stack == old(stack)
      {
        var cell := new LiveCell(cells[k].alive);
        cells := cells[k := cell];
      }
    }

    /** `mergeLiveness`: a slot of this frame becomes alive when it is
        alive in `other`; slots `other` does not have are left as they are.
        A cell serves the same slot in every frame that shares it. */
    method MergeLiveness(other: Frame)
      requires Valid()
      requires forall i, j :: 0 <= i < |cells| && 0 <= j < |other.cells| && i != j ==> cells[i] != other.cells[j]
      modifies CellSet()
      ensures |Liveness()| == |old(Liveness())|
      ensures Rose(old(Bits(CellSet())))
      ensures forall j :: 0 <= j < |cells| ==>
        cells[j].alive == (old(cells[j].alive) || (j < |other.cells| && old(other.cells[j].alive)))
    {
      for k := 0 to |cells|
        invariant forall j :: 0 <= j < k ==>
          cells[j].alive == (old(cells[j].alive) || (j < |other.cells| && old(other.cells[j].alive)))
        invariant forall j :: k <= j < |cells| ==> cells[j].alive == old(cells[j].alive)
        invariant forall j :: k <= j < |other.cells| ==> other.cells[j].alive == old(other.cells[j].alive)
      {
        if k < |other.cells| {
          cells[k].alive := cells[k].alive || other.cells[k].alive;
        }
      }
    }

    /** `ensureAliveCapacity`: new cells, not alive, until slot `capacity`
        has one. */
    method EnsureAliveCapacity(capacity: int)
      requires Valid()
      modifies this
      ensures Valid()
      ensures Liveness() == Padded(old(Liveness()), capacity, false)
      ensures |cells| >= |old(cells)| && cells[..|old(cells)|] == old(cells)
      ensures forall j :: |old(cells)| <= j < |cells| ==> fresh(cells[j])
      ensures variables == old(variables) && stack == old(stack)
    {
      while capacity >= |cells|
        invariant Valid()
        invariant Padded(Liveness(), capacity, false) == Padded(old(Liveness()), capacity, false)
        invariant |cells| >= |old(cells)| && cells[..|old(cells)|] == old(cells)
        invariant forall j :: |old(cells)| <= j < |cells| ==> fresh(cells[j])
        invariant variables == old(variables) && stack == old(stack)
        decreases capacity - |cells|
      {
        ghost var before := cells;
        var cell := new LiveCell(false);
        cells := cells + [cell];
        assert cells[..|cells| - 1] == before;
      }
    }

    /** `variableWritten`: slot `i` (and `i + 1` for a category-2 value)
        gets a cell, then slot `i` a new one that is not alive; a slot
        outside the locals fails. */
    method VariableWritten(i: int) returns (out: Outcome)
      requires Valid()
      modifies this
      ensures Valid()
      ensures out.Pass? <==> 0 <= i < |variables|
      ensures out.Pass? ==>
        var maxVariableIndex := if variables[i].IsCategory2() then i + 1 else i;
        Liveness() == Padded(old(Liveness()), maxVariableIndex, false)[i := false]
      ensures out.Pass? ==> i < |cells| && fresh(cells[i]) && !cells[i].alive
      ensures out.Fail? ==> cells == old(cells)
      ensures variables == old(variables) && stack == old(stack)
    {
      if !(0 <= i < |variables|) {
        return Fail("IndexOutOfBoundsException");
      }
      var maxVariableIndex := if variables[i].IsCategory2() then i + 1 else i;
      EnsureAliveCapacity(maxVariableIndex);
      out := ResetVariableLiveness(i);
    }

    /** `referenceInitialized`: every local and every stack entry equal to
        `reference` becomes `initialized`. */
    method ReferenceInitialized(reference: Value, initialized: Value)
      modifies this
      ensures State() == FrameStates.ReferenceInitialized(old(State()), reference, initialized)
      ensures cells == old(cells)
    {
      for k := 0 to |variables|
        invariant |variables| == |old(variables)| && stack == old(stack) && cells == old(cells)
        invariant forall j :: 0 <= j < k ==> variables[j] == (if old(variables[j]) == reference then initialized else old(variables[j]))
        invariant forall j :: k <= j < |variables| ==> variables[j] == old(variables[j])
      {
        if variables[k] == reference {
          variables := variables[k := initialized];
        }
      }
      for k := 0 to |stack|
        invariant |stack| == |old(stack)| && cells == old(cells)
        invariant variables == Replace(old(variables), reference, initialized)
        invariant forall j :: 0 <= j < k ==> stack[j] == (if old(stack[j]) == reference then initialized else old(stack[j]))
        invariant forall j :: k <= j < |stack| ==> stack[j] == old(stack[j])
      {
        if stack[k] == reference {
          stack := stack[k := initialized];
        }
      }
      assert stack == Replace(old(stack), reference, initialized);
    }

    /** `variableCount`: walks the locals stepping over each value's operand
        size; one per variable. */
    method VariableCount() returns (count: nat)
      ensures count == |Logical(variables, Category2)|
    {
      var i := 0;
      count := 0;
      while i < |variables|
        invariant count + |LogicalFrom(variables, i, Category2)| == |Logical(variables, Category2)|
        decreases |variables| - i
      {
        count := count + 1;
        i := i + variables[i].OperandSize();
      }
    }

    /** `aliveVariableCount`: the variables met by the same walk whose slot
        is alive; a variable whose slot has no cell fails. */
    method AliveVariableCount() returns (r: Result<nat>)
      ensures r == AliveCount(variables, 0, Liveness())
    {
      var i := 0;
      var count := 0;
      while i < |variables|
        invariant AliveCount(variables, 0, Liveness()).Success? <==> AliveCount(variables, i, Liveness()).Success?
        invariant AliveCount(variables, i, Liveness()).Success? ==>
          AliveCount(variables, 0, Liveness()).value == count + AliveCount(variables, i, Liveness()).value
        decreases |variables| - i
      {
        if i >= |cells| {
          assert AliveCount(variables, i, Liveness()).Failure?;
          return Failure("IndexOutOfBoundsException");
        }
        if cells[i].alive {
          count := count + 1;
        }
        i := i + variables[i].OperandSize();
      }
      r := Success(count);
    }
  }
}
