/** What a frame holds, as a value: the local variables, one entry per slot,
    and the operand stack, one entry per value whatever its size. The
    operations are those of `Frame`, generic in the value domain (evaluation
    values or verifier types); `top` is the domain's filler for unused slots
    and `category2` says which values take two slots. */
module FrameStates {
  import opened Wrappers

  datatype FrameState<V> = FrameState(variables: seq<V>, stack: seq<V>)

  function Push<V>(f: FrameState<V>, v: V): FrameState<V> {
    f.(stack := f.stack + [v])
  }

  /** `pop`: the top value and the frame without it; an empty stack fails. */
  function Pop<V>(f: FrameState<V>): (r: Result<(V, FrameState<V>)>)
    ensures r.Success? <==> |f.stack| > 0
  {
    if |f.stack| == 0 then Failure("NoSuchElementException")
    else Success((f.stack[|f.stack| - 1], f.(stack := f.stack[..|f.stack| - 1])))
  }

  function Peek<V>(f: FrameState<V>): (r: Result<V>)
    ensures r.Success? <==> |f.stack| > 0
    ensures r.Success? ==> Pop(f).value.0 == r.value
  {
    if |f.stack| == 0 then Failure("NoSuchElementException") else Success(f.stack[|f.stack| - 1])
  }

  /** `pop(count)`: removes `count` values, failing when there are fewer. */
  function PopN<V>(f: FrameState<V>, count: nat): (r: Result<FrameState<V>>)
    ensures r.Success? <==> count <= |f.stack|
    ensures r.Success? ==> r.value == f.(stack := f.stack[..|f.stack| - count])
  {
    if count > |f.stack| then Failure("NoSuchElementException")
    else Success(f.(stack := f.stack[..|f.stack| - count]))
  }

  function ClearStack<V>(f: FrameState<V>): FrameState<V> {
    f.(stack := [])
  }

  /** `load`: the value in slot `i`; an index outside the locals fails, and
      so does a slot holding `top`. */
  function Load<V(==)>(f: FrameState<V>, i: int, top: V): (r: Result<V>)
    ensures r.Success? <==> 0 <= i < |f.variables| && f.variables[i] != top
    ensures r.Success? ==> r.value == f.variables[i]
  {
    if i < 0 || i >= |f.variables| then Failure("IndexOutOfBoundsException")
    else if f.variables[i] == top then Failure("IllegalStateException")
    else Success(f.variables[i])
  }

  /** `ensureVariableCapacity`: `top` entries appended until slot `capacity`
      exists. */
  function Padded<V>(vs: seq<V>, capacity: int, top: V): (r: seq<V>)
    ensures |r| == if capacity >= |vs| then capacity + 1 else |vs|
    ensures r[..|vs|] == vs
    ensures forall j :: |vs| <= j < |r| ==> r[j] == top
    decreases capacity - |vs|
  {
    if capacity >= |vs| then Padded(vs + [top], capacity, top) else vs
  }

  /** `store`: pads the locals so that slot `i` (and `i + 1` for a
      category-2 value) exists, then sets slot `i` only. */
  function Store<V>(f: FrameState<V>, i: int, v: V, top: V, category2: V -> bool): Result<FrameState<V>> {
    if i < 0 then Failure("IndexOutOfBoundsException")
    else
      var maxVariableIndex := if category2(v) then i + 1 else i;
      Success(f.(variables := Padded(f.variables, maxVariableIndex, top)[i := v]))
  }

  /** The new locals have exactly the length padding demands, hold `v` in
      slot `i`, keep every other existing slot and hold `top` in every new
      one; the stack is untouched. */
  lemma StoreMeaning<V>(f: FrameState<V>, i: int, v: V, top: V, category2: V -> bool)
    requires i >= 0
    ensures var g := Store(f, i, v, top, category2).value;
      var least := if category2(v) then i + 2 else i + 1;
      g.stack == f.stack &&
      |g.variables| == (if least > |f.variables| then least else |f.variables|) &&
      g.variables[i] == v &&
      (forall j :: 0 <= j < |f.variables| && j != i ==> g.variables[j] == f.variables[j]) &&
      (forall j :: |f.variables| <= j < |g.variables| && j != i ==> g.variables[j] == top)
  {
    var maxVariableIndex := if category2(v) then i + 1 else i;
    var padded := Padded(f.variables, maxVariableIndex, top);
    forall j | 0 <= j < |f.variables|
      ensures padded[j] == f.variables[j]
    {
      assert padded[..|f.variables|][j] == padded[j];
    }
  }

  /** A stored value that is not `top` loads back unchanged. */
  lemma StoreThenLoad<V>(f: FrameState<V>, i: int, v: V, top: V, category2: V -> bool)
    requires i >= 0 && v != top
    ensures Load(Store(f, i, v, top, category2).value, i, top) == Success(v)
  {
    StoreMeaning(f, i, v, top, category2);
  }

  lemma PushThenPop<V>(f: FrameState<V>, v: V)
    ensures Pop(Push(f, v)) == Success((v, f))
    ensures Peek(Push(f, v)) == Success(v)
  {
    assert (f.stack + [v])[..|f.stack|] == f.stack;
  }

  // ---------------------------------------------------------------------------
  // Sizes and the logical view.

  /** `stackSize`: the sum of the operand sizes of the stack's values. */
  function SlotCount<V>(vs: seq<V>, category2: V -> bool): nat {
    if vs == [] then 0 else SlotCount(vs[..|vs| - 1], category2) + (if category2(vs[|vs| - 1]) then 2 else 1)
  }

  /** The values met when walking the list from `i` and stepping over each
      value's operand size: one entry per logical variable of the locals. */
  function LogicalFrom<V>(vs: seq<V>, i: nat, category2: V -> bool): seq<V>
    decreases |vs| - i
  {
    if i >= |vs| then [] else [vs[i]] + LogicalFrom(vs, i + (if category2(vs[i]) then 2 else 1), category2)
  }

  function Logical<V>(vs: seq<V>, category2: V -> bool): seq<V> {
    LogicalFrom(vs, 0, category2)
  }

  /** Pushing a value adds its operand size to the stack size. */
  lemma SlotCountPush<V>(vs: seq<V>, v: V, category2: V -> bool)
    ensures SlotCount(vs + [v], category2) == SlotCount(vs, category2) + (if category2(v) then 2 else 1)
  {
    assert (vs + [v])[..|vs|] == vs;
  }

  /** A stack of values that are all category 1 has one slot per value, and
      a stack of size 1 is a single category-1 value. */
  lemma {:induction false} SlotCountBounds<V>(vs: seq<V>, category2: V -> bool)
    ensures |vs| <= SlotCount(vs, category2) <= 2 * |vs|
    ensures SlotCount(vs, category2) == 0 <==> vs == []
    ensures SlotCount(vs, category2) == 1 <==> |vs| == 1 && !category2(vs[0])
  {
    if vs != [] {
      SlotCountBounds(vs[..|vs| - 1], category2);
    }
  }

  /** The walk over a list with no category-2 value visits every entry; a
      category-2 value hides the entry after it. */
  lemma {:induction false} LogicalOfCategory1<V>(vs: seq<V>, i: nat, category2: V -> bool)
    requires i <= |vs|
    requires forall j :: i <= j < |vs| ==> !category2(vs[j])
    ensures LogicalFrom(vs, i, category2) == vs[i..]
    decreases |vs| - i
  {
    if i < |vs| {
      LogicalOfCategory1(vs, i + 1, category2);
    }
  }

  lemma {:induction false} LogicalLength<V>(vs: seq<V>, i: nat, category2: V -> bool)
    ensures |LogicalFrom(vs, i, category2)| <= |vs| - i || i >= |vs|
    decreases |vs| - i
  {
    if i < |vs| {
      LogicalLength(vs, i + (if category2(vs[i]) then 2 else 1), category2);
    }
  }

  // ---------------------------------------------------------------------------
  // `referenceInitialized`.

  function Replace<V(==)>(vs: seq<V>, reference: V, initialized: V): (r: seq<V>)
    ensures |r| == |vs|
    ensures forall j :: 0 <= j < |vs| ==> r[j] == (if vs[j] == reference then initialized else vs[j])
  {
    if vs == [] then []
    else Replace(vs[..|vs| - 1], reference, initialized) + [if vs[|vs| - 1] == reference then initialized else vs[|vs| - 1]]
  }

  /** Every local and stack entry equal to `reference` becomes `initialized`;
      the others and both lengths stay. */
  function ReferenceInitialized<V(==)>(f: FrameState<V>, reference: V, initialized: V): FrameState<V> {
    FrameState(Replace(f.variables, reference, initialized), Replace(f.stack, reference, initialized))
  }

  /** Initializing leaves no occurrence of the reference behind, unless it
      is its own replacement. */
  lemma ReferenceInitializedRemoves<V>(f: FrameState<V>, reference: V, initialized: V)
    requires reference != initialized
    ensures reference !in ReferenceInitialized(f, reference, initialized).variables
    ensures reference !in ReferenceInitialized(f, reference, initialized).stack
  {
  }
}
