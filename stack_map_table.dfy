/** `StackMapTableComputer`: the frame processor that turns the verifier's
    frames at branch targets into the frames of a StackMapTable attribute
    (section 4.7.4 of the Java Virtual Machine Specification), each frame
    written relative to the one before it. */
module StackMapTables {
  import opened Wrappers
  import opened JvmTypes
  import opened Constants
  import opened ConstantPools
  import opened ConstantPoolEditors
  import opened VerificationTypes
  import opened VariableTypes
  import opened FrameStates
  import opened StatusFlags
  import opened StackMapFrames

  type VFrame = FrameState<VariableType>

  function Category2(v: VariableType): bool {
    v.IsCategory2()
  }

  // ---------------------------------------------------------------------------
  // The frame measures the computer compares.

  /** `stackSize`: the operand slots the stack takes. */
  function StackSize(f: VFrame): nat {
    SlotCount(f.stack, Category2)
  }

  /** `variableSize`: the local slots, a category-2 value and its upper half
      counting as two. */
  function VariableSize(f: VFrame): nat {
    |f.variables|
  }

  /** `variableCount`: the logical variables, a category-2 value and its
      upper half counting as one. */
  function VariableCount(f: VFrame): nat {
    |Logical(f.variables, Category2)|
  }

  // ---------------------------------------------------------------------------
  // Lowering to verification types.

  /** Every value lowered, with the class indices of the pool's lookup map. */
  function LowerEach(vs: seq<VariableType>, interned: map<Constant, int>): (r: seq<VerificationType>)
    ensures |r| == |vs|
    ensures forall i :: 0 <= i < |vs| ==> r[i] == ToVerificationType(vs[i], interned)
  {
    seq(|vs|, i requires 0 <= i < |vs| => ToVerificationType(vs[i], interned))
  }

  /** `toVerificationTypeList`: the walk over a list that lowers a value and
      steps over its operand size, so that the slot after a category-2 value
      is not lowered. */
  function TypeList(vs: seq<VariableType>, interned: map<Constant, int>): seq<VerificationType> {
    LowerEach(Logical(vs, Category2), interned)
  }

  /** Every Java reference type in `vs` has its class constant interned. */
  predicate ClassesInterned(vs: seq<VariableType>, interned: map<Constant, int>) {
    forall i :: 0 <= i < |vs| && vs[i].JavaReferenceType? ==> ClassInternedIn(interned, ClassName(vs[i].classType))
  }

  /** Once its classes are interned, a list lowers the same however much the
      pool grows afterwards. */
  lemma LowerEachStable(vs: seq<VariableType>, before: map<Constant, int>, after: map<Constant, int>)
    requires MapExtends(before, after)
    requires ClassesInterned(vs, before)
    ensures ClassesInterned(vs, after)
    ensures LowerEach(vs, before) == LowerEach(vs, after)
  {
    forall i | 0 <= i < |vs| && vs[i].JavaReferenceType?
      ensures ClassInternedIn(after, ClassName(vs[i].classType))
      ensures ToVerificationType(vs[i], before) == ToVerificationType(vs[i], after)
    {
      ClassIndexStable(before, after, ClassName(vs[i].classType));
    }
  }

  // ---------------------------------------------------------------------------
  // Choosing the frame.

  /** The offset delta of a frame: the offset itself for the first frame
      (counted from offset 0), and one less than the distance to the
      previous frame's offset for every later one. */
  function DeltaFor(framesSoFar: nat, lastOffset: int, offset: int): int {
    if framesSoFar == 0 then offset - lastOffset else offset - lastOffset - 1
  }

  /** The offset the next frame is written relative to: the offset of the
      last frame, or 0 before the first. */
  function LastOffset(offsets: seq<int>): int {
    if |offsets| == 0 then 0 else offsets[|offsets| - 1]
  }

  /** The frames are written for `offsets`, each delta counted from the
      offset of the frame before it as section 4.7.4 prescribes. */
  predicate Describes(frames: seq<StackMapFrame>, offsets: seq<int>) {
    |frames| == |offsets| &&
    forall k :: 0 <= k < |frames| ==> frames[k].OffsetDelta() == DeltaFor(k, LastOffset(offsets[..k]), offsets[k])
  }

  /** A frame whose delta is computed from the last written offset describes
      the offset it was computed for. */
  lemma DescribesAppend(frames: seq<StackMapFrame>, offsets: seq<int>, f: StackMapFrame, offset: int)
    requires Describes(frames, offsets)
    requires f.OffsetDelta() == DeltaFor(|frames|, LastOffset(offsets), offset)
    ensures Describes(frames + [f], offsets + [offset])
  {
    var fs, os := frames + [f], offsets + [offset];
    forall k | 0 <= k < |fs|
      ensures fs[k].OffsetDelta() == DeltaFor(k, LastOffset(os[..k]), os[k])
    {
      assert os[..k] == if k < |frames| then offsets[..k] else offsets;
    }
  }

  /** The delta of each described frame, in terms of the offsets alone. */
  lemma DeltaAt(frames: seq<StackMapFrame>, offsets: seq<int>, k: nat)
    requires Describes(frames, offsets) && k < |frames|
    ensures frames[k].OffsetDelta() == if k == 0 then offsets[0] else offsets[k] - offsets[k - 1] - 1
  {
    assert k > 0 ==> offsets[..k][k - 1] == offsets[k - 1];
  }

  /** A list that increases at each step increases throughout. */
  lemma {:induction false} StepsIncrease(s: seq<int>)
    requires forall k :: 0 < k < |s| ==> s[k - 1] < s[k]
    ensures forall j, k :: 0 <= j < k < |s| ==> s[j] < s[k]
  {
    if |s| > 1 {
      var init := s[..|s| - 1];
      StepsIncrease(init);
      forall j, k | 0 <= j < k < |s|
        ensures s[j] < s[k]
      {
        if k < |s| - 1 {
          assert init[j] < init[k];
        } else if j < |s| - 2 {
          assert init[j] < init[|s| - 2];
        }
      }
    }
  }

  /** The deltas are all nonnegative exactly when the offsets the frames are
      written for strictly increase from 0 on. */
  lemma DeltasNonnegative(frames: seq<StackMapFrame>, offsets: seq<int>)
    requires Describes(frames, offsets)
    ensures (forall k :: 0 <= k < |frames| ==> frames[k].OffsetDelta() >= 0) <==>
      ((offsets != [] ==> offsets[0] >= 0) && forall j, k :: 0 <= j < k < |offsets| ==> offsets[j] < offsets[k])
  {
    forall k | 0 <= k < |frames| {
      DeltaAt(frames, offsets, k);
    }
    if forall k :: 0 <= k < |frames| ==> frames[k].OffsetDelta() >= 0 {
      StepsIncrease(offsets);
    }
  }

  /** The frame `handleInstruction` chooses for `current`, given the frame
      `last` of the previous entry, as written: a chop count in local slots,
      no check that the locals of one frame extend those of the other, and
      the stack lowered with the same walk as the locals. */
  function ChooseFrameAsWritten(offsetDelta: int, last: VFrame, current: VFrame, interned: map<Constant, int>): (r: Result<StackMapFrame>)
    ensures offsetDelta >= 0 ==> r.Success?
    ensures r.Success? ==> r.value.OffsetDelta() == offsetDelta
  {
    SlotCountBounds(current.stack, Category2);
    var compact :=
      if StackSize(current) == 0 then
        if current == last then Some(SameFrameFor(offsetDelta))
        else if VariableCount(current) > VariableCount(last) then
          Some(AppendFrameFor(offsetDelta, TypeList(last.variables, interned), TypeList(current.variables, interned)))
        else if VariableCount(current) < VariableCount(last) then
          Some(ChopFrameFor(offsetDelta, VariableSize(last) - VariableSize(current), TypeList(current.variables, interned)))
        else None
      else if StackSize(current) == 1 then
        if current.variables == last.variables then
          Some(SameFrameOneStack(offsetDelta, ToVerificationType(current.stack[|current.stack| - 1], interned)))
        else None
      else None;
    if compact.Some? then compact.value
    else FullFrameOf(offsetDelta, TypeList(current.variables, interned), TypeList(current.stack, interned))
  }

  /** The frame chosen with the three corrections: the chop count is the
      number of logical variables removed, an append or chop frame is only
      used when the smaller list of locals is a prefix of the larger one, and
      the stack of a full frame holds one type per stack value. */
  function ChooseFrame(offsetDelta: int, last: VFrame, current: VFrame, interned: map<Constant, int>): (r: Result<StackMapFrame>)
    ensures r.Success? <==> offsetDelta >= 0
    ensures r.Success? ==> r.value.OffsetDelta() == offsetDelta && TypeInRange(r.value)
  {
    SlotCountBounds(current.stack, Category2);
    var lastVariables := TypeList(last.variables, interned);
    var currentVariables := TypeList(current.variables, interned);
    if StackSize(current) == 0 then
      if current == last then SameFrameFor(offsetDelta)
      else if |currentVariables| > |lastVariables| && currentVariables[..|lastVariables|] == lastVariables then
        AppendFrameFor(offsetDelta, lastVariables, currentVariables)
      else if |currentVariables| < |lastVariables| && lastVariables[..|currentVariables|] == currentVariables then
        ChopFrameFor(offsetDelta, |lastVariables| - |currentVariables|, currentVariables)
      else FullFrameOf(offsetDelta, currentVariables, [])
    else if StackSize(current) == 1 && current.variables == last.variables then
      SameFrameOneStack(offsetDelta, ToVerificationType(current.stack[|current.stack| - 1], interned))
    else FullFrameOf(offsetDelta, currentVariables, LowerEach(current.stack, interned))
  }

  // ---------------------------------------------------------------------------
  // What the chosen frame means.

  /** The corrected choice describes the current frame: applied to the
      locals of the previous frame it gives exactly the current locals and
      stack. */
  lemma ChooseFrameDescribes(offsetDelta: int, last: VFrame, current: VFrame, interned: map<Constant, int>)
    requires offsetDelta >= 0
    ensures Apply(TypeList(last.variables, interned), ChooseFrame(offsetDelta, last, current, interned).value) ==
      Success((TypeList(current.variables, interned), LowerEach(current.stack, interned)))
  {
    SlotCountBounds(current.stack, Category2);
    var lastVariables := TypeList(last.variables, interned);
    var currentVariables := TypeList(current.variables, interned);
    if StackSize(current) == 0 {
      assert LowerEach(current.stack, interned) == [];
      if current == last {
      } else if |currentVariables| > |lastVariables| && currentVariables[..|lastVariables|] == lastVariables {
        AppendFrameMeaning(offsetDelta, lastVariables, currentVariables);
      } else if |currentVariables| < |lastVariables| && lastVariables[..|currentVariables|] == currentVariables {
        ChopFrameMeaning(offsetDelta, lastVariables, currentVariables);
      }
    } else if StackSize(current) == 1 && current.variables == last.variables {
      assert LowerEach(current.stack, interned) == [ToVerificationType(current.stack[0], interned)];
    }
  }

  /** Where the locals hold no category-2 value, the stack holds none and
      the smaller list of locals is a prefix of the larger, the choice as
      written is the corrected one. */
  lemma AsWrittenAgrees(offsetDelta: int, last: VFrame, current: VFrame, interned: map<Constant, int>)
    requires forall v :: v in last.variables || v in current.variables || v in current.stack ==> !v.IsCategory2()
    requires var l, c := TypeList(last.variables, interned), TypeList(current.variables, interned);
      (|l| <= |c| && c[..|l|] == l) || (|c| <= |l| && l[..|c|] == c)
    ensures ChooseFrameAsWritten(offsetDelta, last, current, interned) == ChooseFrame(offsetDelta, last, current, interned)
  {
    LogicalOfCategory1(last.variables, 0, Category2);
    LogicalOfCategory1(current.variables, 0, Category2);
    LogicalOfCategory1(current.stack, 0, Category2);
    assert last.variables[0..] == last.variables;
    assert current.variables[0..] == current.variables;
    assert current.stack[0..] == current.stack;
  }

  /** The classes `ComputeFrame` interns for the choice between `last` and
      `current`: none for a same frame, the top of the stack for a one-item
      frame, both lists of locals for an append or chop frame, and the
      current locals and stack otherwise. */
  ghost predicate LoweredIn(last: VFrame, current: VFrame, interned: map<Constant, int>) {
    if StackSize(current) == 0 then
      current == last ||
      (ClassesInterned(Logical(last.variables, Category2), interned) &&
       ClassesInterned(Logical(current.variables, Category2), interned))
    else if StackSize(current) == 1 && current.variables == last.variables then ClassesInterned(current.stack, interned)
    else ClassesInterned(Logical(current.variables, Category2), interned) && ClassesInterned(current.stack, interned)
  }

  /** Once its classes are interned, a choice stays the same however much the
      pool grows afterwards. */
  lemma ChooseFrameStable(offsetDelta: int, last: VFrame, current: VFrame, before: map<Constant, int>, after: map<Constant, int>)
    requires MapExtends(before, after) && LoweredIn(last, current, before)
    ensures LoweredIn(last, current, after)
    ensures ChooseFrame(offsetDelta, last, current, before) == ChooseFrame(offsetDelta, last, current, after)
  {
    SlotCountBounds(current.stack, Category2);
    if StackSize(current) == 0 {
      if current != last {
        LowerEachStable(Logical(last.variables, Category2), before, after);
        LowerEachStable(Logical(current.variables, Category2), before, after);
      }
    } else if StackSize(current) == 1 && current.variables == last.variables {
      LowerEachStable(current.stack, before, after);
      assert LowerEach(current.stack, before)[0] == LowerEach(current.stack, after)[0];
    } else {
      LowerEachStable(Logical(current.variables, Category2), before, after);
      LowerEachStable(current.stack, before, after);
    }
  }

  /** The frame `f` is the corrected choice for `current` after `last`, with
      the classes it needs interned. */
  ghost predicate ChosenFor(f: StackMapFrame, last: VFrame, current: VFrame, interned: map<Constant, int>) {
    ChooseFrame(f.OffsetDelta(), last, current, interned) == Success(f) && LoweredIn(last, current, interned)
  }

  /** The frame each entry of a table is written relative to: `start` for the
      first, the frame described by the entry before it for the others. */
  function Previous(start: VFrame, described: seq<VFrame>, k: nat): VFrame
    requires k <= |described|
  {
    if k == 0 then start else described[k - 1]
  }

  /** Each frame of the table is the corrected choice for the frame it
      describes, after the frame the entry before it describes. */
  ghost predicate Chain(frames: seq<StackMapFrame>, start: VFrame, described: seq<VFrame>, interned: map<Constant, int>) {
    |frames| == |described| &&
    forall k :: 0 <= k < |frames| ==> ChosenFor(frames[k], Previous(start, described, k), described[k], interned)
  }

  lemma ChainGrows(frames: seq<StackMapFrame>, start: VFrame, described: seq<VFrame>, before: map<Constant, int>, after: map<Constant, int>)
    requires MapExtends(before, after) && Chain(frames, start, described, before)
    ensures Chain(frames, start, described, after)
  {
    forall k | 0 <= k < |frames|
      ensures ChosenFor(frames[k], Previous(start, described, k), described[k], after)
    {
      ChooseFrameStable(frames[k].OffsetDelta(), Previous(start, described, k), described[k], before, after);
    }
  }

  lemma PreviousAppend(start: VFrame, described: seq<VFrame>, current: VFrame, k: nat)
    requires k <= |described|
    ensures Previous(start, described + [current], k) == Previous(start, described, k)
  {
    if k > 0 {
      assert (described + [current])[k - 1] == described[k - 1];
    }
  }

  lemma ChainAppendAt(frames: seq<StackMapFrame>, start: VFrame, described: seq<VFrame>, f: StackMapFrame, current: VFrame,
                      interned: map<Constant, int>, k: nat)
    requires Chain(frames, start, described, interned)
    requires ChosenFor(f, Previous(start, described, |described|), current, interned)
    requires k <= |frames|
    ensures ChosenFor((frames + [f])[k], Previous(start, described + [current], k), (described + [current])[k], interned)
  {
    PreviousAppend(start, described, current, k);
    if k < |frames| {
      assert ChosenFor(frames[k], Previous(start, described, k), described[k], interned);
      assert (frames + [f])[k] == frames[k] && (described + [current])[k] == described[k];
    } else {
      assert Previous(start, described, k) == Previous(start, described, |described|);
      assert (frames + [f])[k] == f && (described + [current])[k] == current;
    }
  }

  lemma ChainAppend(frames: seq<StackMapFrame>, start: VFrame, described: seq<VFrame>, f: StackMapFrame, current: VFrame, interned: map<Constant, int>)
    requires Chain(frames, start, described, interned)
    requires ChosenFor(f, Previous(start, described, |described|), current, interned)
    ensures Chain(frames + [f], start, described + [current], interned)
  {
    forall k | 0 <= k < |frames| + 1
      ensures ChosenFor((frames + [f])[k], Previous(start, described + [current], k), (described + [current])[k], interned)
    {
      ChainAppendAt(frames, start, described, f, current, interned, k);
    }
  }

  /** Adding the chosen frame for the next branch target keeps the frames
      written for their offsets and chained, however much the pool grew
      while the frame was chosen. */
  lemma ChainStep(frames: seq<StackMapFrame>, targets: seq<int>, start: VFrame, described: seq<VFrame>,
                  before: map<Constant, int>, after: map<Constant, int>, f: StackMapFrame, offset: int, current: VFrame)
    requires Describes(frames, targets) && Chain(frames, start, described, before) && MapExtends(before, after)
    requires ChooseFrame(DeltaFor(|frames|, LastOffset(targets), offset), Previous(start, described, |described|), current, after) == Success(f)
    requires LoweredIn(Previous(start, described, |described|), current, after)
    ensures Describes(frames + [f], targets + [offset])
    ensures Chain(frames + [f], start, described + [current], after)
  {
    DescribesAppend(frames, targets, f, offset);
    ChainGrows(frames, start, described, before, after);
    ChainAppend(frames, start, described, f, current, after);
  }

  /** What a chained table means: applying its frames one after the other,
      each to the locals of the frame before it, gives the locals and stack
      of every described frame (section 4.7.4). */
  lemma ChainMeaning(frames: seq<StackMapFrame>, start: VFrame, described: seq<VFrame>, interned: map<Constant, int>)
    requires Chain(frames, start, described, interned)
    ensures forall k :: 0 <= k < |frames| ==>
      Apply(TypeList(Previous(start, described, k).variables, interned), frames[k]) ==
      Success((TypeList(described[k].variables, interned), LowerEach(described[k].stack, interned)))
  {
    forall k | 0 <= k < |frames|
      ensures Apply(TypeList(Previous(start, described, k).variables, interned), frames[k]) ==
        Success((TypeList(described[k].variables, interned), LowerEach(described[k].stack, interned)))
    {
      var d := frames[k].OffsetDelta();
      assert ChooseFrame(d, Previous(start, described, k), described[k], interned) == Success(frames[k]);
      ChooseFrameDescribes(d, Previous(start, described, k), described[k], interned);
    }
  }

  // ---------------------------------------------------------------------------
  // The choice as written, on inputs where it goes wrong.

  /** A long in the chopped locals: the slot difference 2 chops two
      variables where one was removed. */
  lemma ChopCountAsWritten()
    ensures var last, current := FrameState([IntegerType, LongType, TopType], []), FrameState([IntegerType], []);
      var f := ChooseFrameAsWritten(0, last, current, map[]).value;
      f == ChopFrame(249, 0) &&
      Apply(TypeList(last.variables, map[]), f) == Success(([], [])) &&
      Apply(TypeList(last.variables, map[]), ChooseFrame(0, last, current, map[]).value) == Success(([IntegerVariable], []))
  {
    var last, current := FrameState([IntegerType, LongType, TopType], []), FrameState([IntegerType], []);
    assert LogicalFrom(last.variables, 3, Category2) == [];
    assert LogicalFrom(last.variables, 1, Category2) == [LongType];
    assert Logical(last.variables, Category2) == [IntegerType, LongType];
    assert LogicalFrom(current.variables, 1, Category2) == [];
    assert Logical(current.variables, Category2) == [IntegerType];
    assert TypeList(last.variables, map[]) == [IntegerVariable, LongVariable];
    assert TypeList(current.variables, map[]) == [IntegerVariable];
    assert ChooseFrameAsWritten(0, last, current, map[]) == ChopFrameFor(0, 2, [IntegerVariable]);
    ChooseFrameDescribes(0, last, current, map[]);
  }

  /** Locals that grew without keeping the old ones in front: the append
      frame adds to the wrong prefix. */
  lemma AppendPrefixAsWritten()
    ensures var last, current := FrameState([IntegerType], []), FrameState([FloatType, IntegerType], []);
      var f := ChooseFrameAsWritten(0, last, current, map[]).value;
      f == AppendFrame(252, 0, [IntegerVariable]) &&
      Apply([IntegerVariable], f) == Success(([IntegerVariable, IntegerVariable], [])) &&
      Apply([IntegerVariable], ChooseFrame(0, last, current, map[]).value) == Success(([FloatVariable, IntegerVariable], []))
  {
    var last, current := FrameState([IntegerType], []), FrameState([FloatType, IntegerType], []);
    assert LogicalFrom(last.variables, 1, Category2) == [];
    assert Logical(last.variables, Category2) == [IntegerType];
    assert LogicalFrom(current.variables, 2, Category2) == [];
    assert LogicalFrom(current.variables, 1, Category2) == [IntegerType];
    assert Logical(current.variables, Category2) == [FloatType, IntegerType];
    assert TypeList(last.variables, map[]) == [IntegerVariable];
    assert TypeList(current.variables, map[]) == [FloatVariable, IntegerVariable];
    assert ChooseFrameAsWritten(0, last, current, map[]) == AppendFrameFor(0, [IntegerVariable], [FloatVariable, IntegerVariable]);
    AppendFrameWithoutPrefix();
    ChooseFrameDescribes(0, last, current, map[]);
  }

  /** A long under an int on the stack: the walk steps over the int, so the
      full frame loses a stack entry. */
  lemma StackTypesAsWritten()
    ensures var last, current := FrameState([], []), FrameState([], [LongType, IntegerType]);
      var f := ChooseFrameAsWritten(0, last, current, map[]).value;
      f == FullFrame(255, 0, [], [LongVariable]) &&
      ChooseFrame(0, last, current, map[]).value == FullFrame(255, 0, [], [LongVariable, IntegerVariable])
  {
    var current: VFrame := FrameState([], [LongType, IntegerType]);
    assert Logical(current.stack, Category2) == [LongType];
    assert SlotCount(current.stack, Category2) == 3 by {
      assert current.stack[..1] == [LongType];
      assert [LongType][..0] == [];
    }
  }

  // ---------------------------------------------------------------------------
  // The processor.

  /** `StackMapTableComputer`: collects one stack map frame per branch
      target it is handed, interning the classes of the frames' reference
      types in the class file's constant pool as it lowers them. */
  class StackMapTableComputer {
    const editor: ConstantPoolEditor
    var frameList: seq<StackMapFrame>
    /** `lastOffsetFramePair`, a `lateinit` property: `None` until set. */
    var lastOffsetFramePair: Option<(int, VFrame)>
    /** The offsets the frames in `frameList` were written for, the frames
        they describe, and the frame the first one is written relative to. */
    ghost var targets: seq<int>
    ghost var described: seq<VFrame>
    ghost var start: VFrame

    constructor (pool: ConstantPool)
      ensures editor.pool == pool
      ensures frameList == [] && lastOffsetFramePair == None && targets == [] && described == []
      ensures Tracking()
    {
      editor := new ConstantPoolEditor.Of(pool);
      frameList := [];
      lastOffsetFramePair := None;
      targets := [];
      described := [];
      start := FrameState([], []);
    }

    /** The frames are written for their offsets and chained from `start`
        through the frames they describe, and the last pair holds the offset
        and frame the next frame is written relative to. */
    ghost predicate Tracking()
      reads this, editor.pool
    {
      Describes(frameList, targets) &&
      Chain(frameList, start, described, editor.pool.interned) &&
      (frameList != [] ==> lastOffsetFramePair.Some?) &&
      (lastOffsetFramePair.Some? ==>
        lastOffsetFramePair.value.0 == LastOffset(targets) &&
        lastOffsetFramePair.value.1 == Previous(start, described, |described|))
    }

    /** The pool only grew: no constant moved and no interned index changed. */
    twostate predicate PoolGrew()
      reads editor.pool
    {
      editor.pool.Consistent() &&
      Extends(old(editor.pool.constants), editor.pool.constants) &&
      MapExtends(old(editor.pool.interned), editor.pool.interned)
    }

    /** `toVerificationType` of one value; a Java reference type interns its
        class. */
    method LowerType(v: VariableType) returns (t: VerificationType)
      requires editor.pool.Consistent()
      modifies editor.pool
      ensures PoolGrew()
      ensures t == ToVerificationType(v, editor.pool.interned)
      ensures v.JavaReferenceType? ==> ClassInternedIn(editor.pool.interned, ClassName(v.classType))
      ensures !v.JavaReferenceType? ==> editor.pool.constants == old(editor.pool.constants) && editor.pool.interned == old(editor.pool.interned)
    {
      if v.JavaReferenceType? {
        var index := editor.AddOrGetClass(ClassName(v.classType));
        t := ObjectVariable(index);
      } else {
        t := ToVerificationType(v, editor.pool.interned);
      }
    }

    /** `toVerificationTypeList`: lowers each value met by stepping over
        operand sizes. */
    method LowerList(vs: seq<VariableType>) returns (r: seq<VerificationType>)
      requires editor.pool.Consistent()
      modifies editor.pool
      ensures PoolGrew()
      ensures r == TypeList(vs, editor.pool.interned)
      ensures ClassesInterned(Logical(vs, Category2), editor.pool.interned)
    {
      r := [];
      var i := 0;
      ghost var visited: seq<VariableType> := [];
      while i < |vs|
        invariant PoolGrew()
        invariant visited + LogicalFrom(vs, i, Category2) == Logical(vs, Category2)
        invariant ClassesInterned(visited, editor.pool.interned)
        invariant r == LowerEach(visited, editor.pool.interned)
        decreases |vs| - i
      {
        ghost var before := editor.pool.interned;
        ghost var constantsBefore := editor.pool.constants;
        var t := LowerType(vs[i]);
        LowerEachStable(visited, before, editor.pool.interned);
        ExtendsTransitive(old(editor.pool.constants), constantsBefore, editor.pool.constants);
        r := r + [t];
        visited := visited + [vs[i]];
        i := i + vs[i].OperandSize();
      }
    }

    /** One verification type per stack value. */
    method LowerStack(vs: seq<VariableType>) returns (r: seq<VerificationType>)
      requires editor.pool.Consistent()
      modifies editor.pool
      ensures PoolGrew()
      ensures r == LowerEach(vs, editor.pool.interned)
      ensures ClassesInterned(vs, editor.pool.interned)
    {
      r := [];
      for i := 0 to |vs|
        invariant PoolGrew()
        invariant ClassesInterned(vs[..i], editor.pool.interned)
        invariant r == LowerEach(vs[..i], editor.pool.interned)
      {
        ghost var before := editor.pool.interned;
        ghost var constantsBefore := editor.pool.constants;
        var t := LowerType(vs[i]);
        LowerEachStable(vs[..i], before, editor.pool.interned);
        ExtendsTransitive(old(editor.pool.constants), constantsBefore, editor.pool.constants);
        r := r + [t];
        assert vs[..i + 1] == vs[..i] + [vs[i]];
      }
      assert vs[..|vs|] == vs;
    }
  
    /** The frame for `current` after `last`: the corrected choice, lowering
        only what that choice needs. */
    method ComputeFrame(offsetDelta: int, last: VFrame, current: VFrame) returns (r: Result<StackMapFrame>)
      requires editor.pool.Consistent()
      modifies editor.pool
      ensures PoolGrew()
      ensures r == ChooseFrame(offsetDelta, last, current, editor.pool.interned)
      ensures LoweredIn(last, current, editor.pool.interned)
    {
      SlotCountBounds(current.stack, Category2);
      if StackSize(current) == 0 {
        if current == last {
          return SameFrameFor(offsetDelta);
        }
        ghost var constantsBefore := editor.pool.constants;
        var lastVariables := LowerList(last.variables);
        ghost var middle := editor.pool.interned;
        ghost var constantsMiddle := editor.pool.constants;
        var currentVariables := LowerList(current.variables);
        LowerEachStable(Logical(last.variables, Category2), middle, editor.pool.interned);
        ExtendsTransitive(constantsBefore, constantsMiddle, editor.pool.constants);
        if |currentVariables| > |lastVariables| && currentVariables[..|lastVariables|] == lastVariables {
          r := AppendFrameFor(offsetDelta, lastVariables, currentVariables);
        } else if |currentVariables| < |lastVariables| && lastVariables[..|currentVariables|] == currentVariables {
          r := ChopFrameFor(offsetDelta, |lastVariables| - |currentVariables|, currentVariables);
        } else {
          r := FullFrameOf(offsetDelta, currentVariables, []);
        }
      } else if StackSize(current) == 1 && current.variables == last.variables {
        var top := LowerType(current.stack[|current.stack| - 1]);
        r := SameFrameOneStack(offsetDelta, top);
      } else {
        ghost var constantsBefore := editor.pool.constants;
        var currentVariables := LowerList(current.variables);
        ghost var middle := editor.pool.interned;
        ghost var constantsMiddle := editor.pool.constants;
        var stack := LowerStack(current.stack);
        LowerEachStable(Logical(current.variables, Category2), middle, editor.pool.interned);
        ExtendsTransitive(constantsBefore, constantsMiddle, editor.pool.constants);
        r := FullFrameOf(offsetDelta, currentVariables, stack);
      }
    }

    /** The frame for the branch target at `offset`, written relative to the
        last pair, which then moves to `offset`. */
    method AddFrame(offset: int, frameBefore: VFrame) returns (r: Outcome)
      requires editor.pool.Consistent() && lastOffsetFramePair.Some?
      modifies this, editor.pool
      ensures PoolGrew() && start == old(start)
      ensures var (lastOffset, lastFrame) := old(lastOffsetFramePair).value;
        var delta := DeltaFor(|old(frameList)|, lastOffset, offset);
        (r.Pass? <==> delta >= 0) &&
        (r.Pass? ==> frameList == old(frameList) + [ChooseFrame(delta, lastFrame, frameBefore, editor.pool.interned).value])
      ensures r.Pass? ==>
        targets == old(targets) + [offset] && described == old(described) + [frameBefore] &&
        lastOffsetFramePair == Some((offset, frameBefore))
      ensures r.Fail? ==>
        frameList == old(frameList) && targets == old(targets) && described == old(described) &&
        lastOffsetFramePair == old(lastOffsetFramePair)
      ensures old(Tracking()) ==> Tracking()
    {
      var (lastOffset, lastFrame) := lastOffsetFramePair.value;
      var offsetDelta := if |frameList| == 0 then offset - lastOffset else offset - lastOffset - 1;
      ghost var tracked := Tracking();
      ghost var interned := editor.pool.interned;
      var frame := ComputeFrame(offsetDelta, lastFrame, frameBefore);
      if frame.Failure? {
        if tracked {
          ChainGrows(frameList, start, described, interned, editor.pool.interned);
        }
        return Fail(frame.error);
      }
      if tracked {
        ChainStep(frameList, targets, start, described, interned, editor.pool.interned, frame.value, offset, frameBefore);
      }
      frameList := frameList + [frame.value];
      targets := targets + [offset];
      described := described + [frameBefore];
      lastOffsetFramePair := Some((offset, frameBefore));
      return Pass;
    }

    /** `handleInstruction`: offset 0 sets the pair the first delta is
        counted from; an instruction flagged as a branch target adds the
        frame chosen for the frame before it and becomes the new last pair.
        Reading the pair before it is set fails as the `lateinit` property
        does, and a negative delta fails as the frame factories do. */
    method HandleInstruction(offset: int, flags: Status, frameBefore: VFrame) returns (r: Outcome)
      requires editor.pool.Consistent()
      modifies this, editor.pool
      ensures PoolGrew()
      ensures var pair := if offset == 0 then Some((0, frameBefore)) else old(lastOffsetFramePair);
        if !IsFlagSet(flags, BRANCH_TARGET) then
          r.Pass? && frameList == old(frameList) && targets == old(targets) && lastOffsetFramePair == pair &&
          editor.pool.constants == old(editor.pool.constants) && editor.pool.interned == old(editor.pool.interned)
        else if pair.None? then
          r == Fail("UninitializedPropertyAccessException") && frameList == old(frameList) && targets == old(targets) &&
          lastOffsetFramePair == pair
        else
          var delta := DeltaFor(|old(frameList)|, pair.value.0, offset);
          (r.Pass? <==> delta >= 0) &&
          (r.Pass? ==>
            frameList == old(frameList) + [ChooseFrame(delta, pair.value.1, frameBefore, editor.pool.interned).value] &&
            targets == old(targets) + [offset] && described == old(described) + [frameBefore] &&
            lastOffsetFramePair == Some((offset, frameBefore))) &&
          (r.Fail? ==>
            frameList == old(frameList) && targets == old(targets) && described == old(described) && lastOffsetFramePair == pair)
      ensures !IsFlagSet(flags, BRANCH_TARGET) ==> described == old(described)
      ensures offset == 0 && old(targets) == [] ==> start == frameBefore
      ensures !(offset == 0 && old(targets) == []) ==> start == old(start)
      ensures old(Tracking()) && (offset == 0 ==> old(targets) == []) ==> Tracking()
    {
      if offset == 0 {
        lastOffsetFramePair := Some((offset, frameBefore));
        if targets == [] {
          start := frameBefore;
        }
      }
      if !IsFlagSet(flags, BRANCH_TARGET) {
        return Pass;
      }
      if lastOffsetFramePair.None? {
        return Fail("UninitializedPropertyAccessException");
      }
      r := AddFrame(offset, frameBefore);
    }
  }
}
