/** The verifier's `CodeAnalyzer`: the shared driver over verification
    types, with the stack map table computer as the processor that is
    handed every evaluated instruction once the queue is drained. */
module VerifierAnalyzer {
  import opened Wrappers
  import opened JvmTypes
  import opened FrameStates
  import opened Instructions
  import opened StatusFlags
  import opened InitialFrames
  import opened VariableTypes
  import opened AnalyzerDomains
  import opened CodeAnalyzers
  import SMT = StackMapTables
  import ConstantPoolEditors

  /** The computer has been handed the instructions below `n`: it wrote its
      frames for the branch targets among them, describing the frames
      before those, and starts from the frame at offset 0. */
  ghost predicate Handed(a: Analyzer<VariableType>, computer: SMT.StackMapTableComputer, n: int)
    requires a.Valid() && 0 <= n <= |a.code.at|
    reads computer, a.evaluated, a.status, a.framesBefore
  {
    computer.targets == a.BranchTargets(n) && a.FramesAt(computer.targets, computer.described) &&
    (n > 0 ==> Some(computer.start) == a.framesBefore[0] && computer.lastOffsetFramePair.Some?) &&
    (n == 0 ==> computer.lastOffsetFramePair.None?)
  }

  /** One turn of the processor loop: the instruction at `o`, if
      evaluated, is handed to the computer. */
  method HandOver(a: Analyzer<VariableType>, computer: SMT.StackMapTableComputer, o: int)
    requires a.Valid() && a.FramesComputed() && 0 <= o < |a.code.at| && a.evaluated[0]
    requires computer.editor.pool.Consistent() && computer.Tracking() && Handed(a, computer, o)
    modifies computer, computer.editor.pool
    ensures computer.PoolGrew() && computer.Tracking() && Handed(a, computer, o + 1)
  {
    if a.evaluated[o] {
      HandOverEvaluated(a, computer, o);
    } else {
      a.BranchTargetsNext(o);
    }
  }

  method HandOverEvaluated(a: Analyzer<VariableType>, computer: SMT.StackMapTableComputer, o: int)
    requires a.Valid() && a.FramesComputed() && 0 <= o < |a.code.at| && a.evaluated[0] && a.evaluated[o]
    requires computer.editor.pool.Consistent() && computer.Tracking() && Handed(a, computer, o)
    modifies computer, computer.editor.pool
    ensures computer.PoolGrew() && computer.Tracking() && Handed(a, computer, o + 1)
  {
    a.BranchTargetsExactly(o);
    a.BranchTargetsNext(o);
    assert a.Computed(o) && a.Computed(0);
    assert computer.targets != [] ==> SMT.LastOffset(computer.targets) < o;
    ghost var targets, described := computer.targets, computer.described;
    if IsFlagSet(a.status[o], BRANCH_TARGET) {
      var r := computer.HandleInstruction(o, a.status[o], a.framesBefore[o].value);
      assert r.Pass?;
      a.FramesAtAppend(targets, described, o, a.framesBefore[o].value);
    } else {
      var r := computer.HandleInstruction(o, a.status[o], a.framesBefore[o].value);
    }
  }

  /** The processor loop of `evaluateCode`: every evaluated offset, in
      ascending order, is handed to the stack map table computer with its
      status and the frame before it. Offset 0 comes first and the offsets
      increase, so no call fails, and the computer ends up with one frame
      per branch target, chained from the frame at offset 0. */
  method RunProcessors(a: Analyzer<VariableType>, computer: SMT.StackMapTableComputer)
    requires a.Valid() && a.FramesComputed() && 0 < |a.code.at| && a.evaluated[0]
    requires computer.editor.pool.Consistent() && computer.Tracking()
    requires computer.frameList == [] && computer.targets == [] && computer.lastOffsetFramePair.None?
    modifies computer, computer.editor.pool
    ensures computer.PoolGrew() && computer.Tracking() && Handed(a, computer, |a.code.at|)
    ensures forall k :: 0 <= k < |computer.frameList| ==> computer.frameList[k].OffsetDelta() >= 0
  {
    for o := 0 to |a.code.at|
      invariant computer.PoolGrew() && computer.Tracking() && Handed(a, computer, o)
    {
      ghost var constants := computer.editor.pool.constants;
      HandOver(a, computer, o);
      ConstantPoolEditors.ExtendsTransitive(old(computer.editor.pool.constants), constants, computer.editor.pool.constants);
    }
    a.BranchTargetsExactly(|a.code.at|);
    SMT.DeltasNonnegative(computer.frameList, computer.targets);
  }

  /** `visitCode` of the verifier: fresh arrays for the code and the
      frames over verification types, a constructor's receiver being
      `uninitializedThis`; then the queue part of `evaluateCode`. */
  method AnalyzeCode(code: Code, exceptionTable: seq<ExceptionEntry>, initialize: Initializer, m: MethodInfo)
    returns (a: Analyzer<VariableType>, out: Outcome)
    ensures fresh(a) && fresh(a.evaluated) && fresh(a.status) && fresh(a.framesBefore) && fresh(a.framesAfter)
    ensures a.Valid() && a.code == code && a.exceptionTable == exceptionTable && a.d == VerifierDomain(initialize)
    ensures a.uninitializedThis(m.classType) == UninitializedThisType(m.classType)
    ensures out.Pass? ==> a.Evaluated(m)
  {
    a := new Analyzer(code, exceptionTable, VerifierDomain(initialize), t => UninitializedThisType(t));
    out := a.EvaluateFrames(m);
  }

  /** The processor loop leaves the analysis it reads as it was. */
  method RunProcessorsOnFresh(a: Analyzer<VariableType>, ghost m: MethodInfo, computer: SMT.StackMapTableComputer)
    requires a.Valid() && a.Evaluated(m)
    requires a.evaluated !in {computer, computer.editor.pool} && a.status !in {computer, computer.editor.pool}
    requires a.framesBefore !in {computer, computer.editor.pool} && a.framesAfter !in {computer, computer.editor.pool}
    requires computer.editor.pool.Consistent() && computer.Tracking()
    requires computer.frameList == [] && computer.targets == [] && computer.lastOffsetFramePair.None?
    modifies computer, computer.editor.pool
    ensures a.Evaluated(m)
    ensures computer.Tracking() && Handed(a, computer, |a.code.at|)
    ensures forall k :: 0 <= k < |computer.frameList| ==> computer.frameList[k].OffsetDelta() >= 0
  {
    a.EvaluatedEntry(m);
    label Analysed:
    RunProcessors(a, computer);
    a.EvaluatedKept@Analysed(m);
  }

  /** `visitCode` followed by `evaluateCode` of the verifier: every
      evaluated offset is handed to the stack map table computer in
      ascending order. On success the computer wrote one frame per evaluated
      branch target, in ascending order of offsets and chained from the
      initial frame, each with a nonnegative offset delta. */
  method VisitCode(code: Code, exceptionTable: seq<ExceptionEntry>, initialize: Initializer, m: MethodInfo,
                   computer: SMT.StackMapTableComputer)
    returns (a: Analyzer<VariableType>, out: Outcome)
    requires computer.editor.pool.Consistent() && computer.Tracking()
    requires computer.frameList == [] && computer.targets == [] && computer.lastOffsetFramePair.None?
    modifies computer, computer.editor.pool
    ensures a.Valid() && a.code == code && a.exceptionTable == exceptionTable && a.d == VerifierDomain(initialize)
    ensures a.uninitializedThis(m.classType) == UninitializedThisType(m.classType)
    ensures out.Pass? ==> a.Evaluated(m)
    ensures out.Pass? ==> computer.Tracking() && Handed(a, computer, |code.at|)
    ensures out.Pass? ==> forall k :: 0 <= k < |computer.frameList| ==> computer.frameList[k].OffsetDelta() >= 0
  {
    a, out := AnalyzeCode(code, exceptionTable, initialize, m);
    if out.Pass? {
      RunProcessorsOnFresh(a, m, computer);
    }
  }
}
