/** The evaluation's `CodeAnalyzer`: the shared driver over evaluation
    values, the local variable size computer as a processor of its frames,
    and the liveness analyser, which works on `Frame` objects and their
    shared liveness cells. */
module EvaluationAnalyzer {
  import opened Wrappers
  import opened JvmTypes
  import opened FrameStates
  import opened Instructions
  import opened StatusFlags
  import opened InitialFrames
  import opened Values
  import opened AnalyzerDomains
  import opened CodeAnalyzers
  import opened Frames

  /** `visitCode` of the evaluation: fresh arrays for the code and the
      frames over values, a constructor's receiver being an uninitialized
      reference with offset -1; then the queue part of `evaluateCode`. */
  method AnalyzeCode(code: Code, exceptionTable: seq<ExceptionEntry>, m: MethodInfo)
    returns (a: Analyzer<Value>, out: Outcome)
    ensures fresh(a) && fresh(a.evaluated) && fresh(a.status) && fresh(a.framesBefore) && fresh(a.framesAfter)
    ensures a.Valid() && a.code == code && a.exceptionTable == exceptionTable && a.d == EvalDomain()
    ensures a.uninitializedThis(m.classType) == UninitializedReferenceValue(m.classType, -1)
    ensures out.Pass? ==> a.Evaluated(m)
  {
    a := new Analyzer(code, exceptionTable, EvalDomain(), t => UninitializedReferenceValue(t, -1));
    out := a.EvaluateFrames(m);
  }

  /** The frame processor that computes the number of local slots the code
      needs. */
  class LocalVariableSizeComputer {
    var localVariableSize: int

    constructor ()
      ensures localVariableSize == 0
    {
      localVariableSize := 0;
    }

    /** `handleInstruction`: the size becomes the least that is at least
        what it was and at least the locals of the frame after. */
    method HandleInstruction(offset: int, flags: Status, frameBefore: FrameState<Value>, frameAfter: FrameState<Value>)
      modifies this
      ensures localVariableSize >= old(localVariableSize) && localVariableSize >= |frameAfter.variables|
      ensures localVariableSize == old(localVariableSize) || localVariableSize == |frameAfter.variables|
    {
      if localVariableSize < |frameAfter.variables| {
        localVariableSize := |frameAfter.variables|;
      }
    }
  }

  /** The largest number of locals of a frame after an evaluated offset
      below `n`; 0 when there is none. */
  ghost function MaxVariableSize(a: Analyzer<Value>, n: int): nat
    requires a.Valid() && 0 <= n <= |a.code.at|
    reads a.evaluated, a.framesAfter
  {
    if n == 0 then 0
    else
      var rest := MaxVariableSize(a, n - 1);
      if a.evaluated[n - 1] && a.framesAfter[n - 1].Some? && |a.framesAfter[n - 1].value.variables| > rest
      then |a.framesAfter[n - 1].value.variables|
      else rest
  }

  /** The maximum covers the frame after every evaluated offset below `n`,
      and is attained by one of them unless it is 0. */
  lemma {:induction false} MaxVariableSizeIsMax(a: Analyzer<Value>, n: int)
    requires a.Valid() && 0 <= n <= |a.code.at|
    ensures forall o :: 0 <= o < n && a.evaluated[o] && a.framesAfter[o].Some? ==>
      |a.framesAfter[o].value.variables| <= MaxVariableSize(a, n)
    ensures MaxVariableSize(a, n) == 0 ||
      exists o :: 0 <= o < n && a.evaluated[o] && a.framesAfter[o].Some? && |a.framesAfter[o].value.variables| == MaxVariableSize(a, n)
  {
    if n > 0 {
      MaxVariableSizeIsMax(a, n - 1);
    }
  }

  /** The processor loop of `evaluateCode` with the local variable size
      computer: every evaluated offset, in ascending order, with the frames
      before and after it. */
  method RunProcessors(a: Analyzer<Value>, computer: LocalVariableSizeComputer)
    requires a.Valid() && a.FramesComputed() && computer.localVariableSize == 0
    modifies computer
    ensures computer.localVariableSize == MaxVariableSize(a, |a.code.at|)
  {
    for o := 0 to |a.code.at|
      invariant computer.localVariableSize == MaxVariableSize(a, o)
    {
      if a.evaluated[o] {
        assert a.Computed(o);
        computer.HandleInstruction(o, a.status[o], a.framesBefore[o].value, a.framesAfter[o].value);
      }
    }
  }

  /** `visitCode` followed by `evaluateCode` with the local variable size
      computer as processor: on success the computer holds the largest
      number of locals of any frame after an evaluated instruction. */
  method VisitCode(code: Code, exceptionTable: seq<ExceptionEntry>, m: MethodInfo, computer: LocalVariableSizeComputer)
    returns (a: Analyzer<Value>, out: Outcome)
    requires computer.localVariableSize == 0
    modifies computer
    ensures a.Valid() && a.code == code && a.exceptionTable == exceptionTable && a.d == EvalDomain()
    ensures out.Pass? ==> a.Evaluated(m)
    ensures out.Pass? ==> computer.localVariableSize == MaxVariableSize(a, |code.at|)
  {
    a, out := AnalyzeCode(code, exceptionTable, m);
    if out.Pass? {
      label Evaluated:
      RunProcessors(a, computer);
      assert unchanged@Evaluated(a.evaluated, a.status, a.framesBefore, a.framesAfter);
    }
  }

  // ---------------------------------------------------------------------------
  // The liveness analyser.

  /** A liveness cell serves the same slot in every frame: two slots with
      different indices, of frames in `fs` and `gs`, never share a cell. */
  ghost predicate SlotsApart(fs: seq<Option<Frame>>, gs: seq<Option<Frame>>)
    reads set p | 0 <= p < |fs| && fs[p].Some? :: fs[p].value
    reads set q | 0 <= q < |gs| && gs[q].Some? :: gs[q].value
  {
    forall p, q, i, j ::
      0 <= p < |fs| && fs[p].Some? && 0 <= q < |gs| && gs[q].Some? &&
      0 <= i < |fs[p].value.cells| && 0 <= j < |gs[q].value.cells| && i != j ==>
      fs[p].value.cells[i] != gs[q].value.cells[j]
  }

  /** The cells of the frames in `fs`. */
  function CellsOf(fs: seq<Option<Frame>>): set<LiveCell>
    reads set p | 0 <= p < |fs| && fs[p].Some? :: fs[p].value
  {
    set p, j | 0 <= p < |fs| && fs[p].Some? && 0 <= j < |fs[p].value.cells| :: fs[p].value.cells[j]
  }

  /** The successor edges along which liveness flows back to a branch: from
      each successor's frame before to the branch's frame after. */
  function BranchEdges(succ: seq<Successor>, offset: int): (r: seq<(int, int)>)
    ensures |r| == |succ|
    ensures forall k :: 0 <= k < |succ| ==> r[k] == (succ[k].offset, offset)
  {
    if succ == [] then [] else BranchEdges(succ[..|succ| - 1], offset) + [(succ[|succ| - 1].offset, offset)]
  }

  class LivenessAnalyser {
    /** Pairs of a successor offset and the offset of the branch whose frame
        after takes its liveness. */
    var postProcessing: seq<(int, int)>

    constructor ()
      ensures postProcessing == []
    {
      postProcessing := [];
    }

    /** `visitVariableInstruction`: a load marks the slot alive in the frame
        before (and every frame sharing that cell) and gives the frame after
        a new, dead cell for it; a store gives the frame after a new, dead
        cell for the slot it wrote. */
    method VisitVariableInstruction(kind: VariableKind, variable: int, frameBefore: Frame, frameAfter: Frame)
      returns (out: Outcome)
      requires frameBefore.Valid() && frameAfter.Valid()
      modifies frameAfter, if 0 <= variable < |frameBefore.cells| then {frameBefore.cells[variable]} else {}
      ensures frameAfter.Valid()
      ensures kind.LoadVariable? ==> (out.Pass? <==> 0 <= variable < |old(frameBefore.cells)| && variable < |old(frameAfter.cells)|)
      ensures kind.LoadVariable? && out.Pass? ==>
        old(frameBefore.cells[variable]).alive && |frameAfter.cells| == |old(frameAfter.cells)| &&
        fresh(frameAfter.cells[variable]) && !frameAfter.cells[variable].alive
      ensures kind.StoreVariable? ==> (out.Pass? <==> 0 <= variable < |frameAfter.variables|)
      ensures kind.StoreVariable? && out.Pass? ==>
        variable < |frameAfter.cells| && fresh(frameAfter.cells[variable]) && !frameAfter.cells[variable].alive
      ensures kind.OtherVariable? ==> out.Pass? && frameAfter.cells == old(frameAfter.cells)
      ensures frameAfter.variables == old(frameAfter.variables) && frameAfter.stack == old(frameAfter.stack)
    {
      match kind
      case LoadVariable =>
        out := frameBefore.VariableRead(variable);
        if out.Pass? {
          out := frameAfter.ResetVariableLiveness(variable);
        }
      case StoreVariable =>
        out := frameAfter.VariableWritten(variable);
      case OtherVariable =>
        out := Pass;
    }

    /** `visitBranchInstruction`: one edge per successor the block analyser
        enqueues, the target for `goto` and otherwise the next offset and
        the target. */
    method VisitBranchInstruction(i: Instruction, offset: int, length: int)
      requires i.Branch?
      modifies this
      ensures postProcessing == old(postProcessing) + BranchEdges(Successors(i, offset, length), offset)
    {
      var targetOffset := offset + i.branchOffset;
      var nextOffset := offset + length;
      if i.branchOp == GOTO {
        postProcessing := postProcessing + [(targetOffset, offset)];
      } else {
        postProcessing := postProcessing + [(nextOffset, offset), (targetOffset, offset)];
      }
    }

    /** The edge at `e` has been merged: when it can be and its branch has
        a frame after, that frame is alive in each slot whose cell in the
        successor's frame before was alive in the snapshot `start`. */
    ghost predicate EdgeMerged(e: int, framesBefore: seq<Option<Frame>>, framesAfter: seq<Option<Frame>>, start: map<LiveCell, bool>)
      requires 0 <= e < |postProcessing|
      reads this, CellsOf(framesAfter)
      reads set p | 0 <= p < |framesBefore| && framesBefore[p].Some? :: framesBefore[p].value
      reads set p | 0 <= p < |framesAfter| && framesAfter[p].Some? :: framesAfter[p].value
    {
      var (s, t) := postProcessing[e];
      EdgeOk(e, framesBefore, framesAfter) && framesAfter[t].Some? ==>
        forall j :: (0 <= j < |framesAfter[t].value.cells| && j < |framesBefore[s].value.cells| &&
                     framesBefore[s].value.cells[j] in start && start[framesBefore[s].value.cells[j]]) ==>
          framesAfter[t].value.cells[j].alive
    }

    /** The state of `finish` before the edge at `k`: the edges below `k`
        could all be merged and have been, and no bit of `all` or `start`
        was cleared. */
    ghost predicate Merging(k: int, framesBefore: seq<Option<Frame>>, framesAfter: seq<Option<Frame>>,
                            all: map<LiveCell, bool>, start: map<LiveCell, bool>)
      reads this, CellsOf(framesAfter), all.Keys, start.Keys
      reads set p | 0 <= p < |framesBefore| && framesBefore[p].Some? :: framesBefore[p].value
      reads set p | 0 <= p < |framesAfter| && framesAfter[p].Some? :: framesAfter[p].value
    {
      0 <= k <= |postProcessing| && Rose(all) && Rose(start) &&
      (forall e :: 0 <= e < k ==> EdgeOk(e, framesBefore, framesAfter)) &&
      (forall e :: 0 <= e < k ==> EdgeMerged(e, framesBefore, framesAfter, start))
    }

    /** The edge at `k` can be merged: the branch offset is an index of the
        frames, and when the branch has a frame after, the successor is an
        index too and has a frame before. */
    predicate EdgeOk(k: int, framesBefore: seq<Option<Frame>>, framesAfter: seq<Option<Frame>>)
      requires 0 <= k < |postProcessing|
      reads this
    {
      var (s, t) := postProcessing[k];
      0 <= t < |framesAfter| && (framesAfter[t].Some? ==> 0 <= s < |framesBefore| && framesBefore[s].Some?)
    }

    /** The merge of an edge that can be merged, whose branch has a frame
        after: no bit of the frames after is cleared, and the edge is
        merged. */
    method MergeFrames(k: int, framesBefore: seq<Option<Frame>>, framesAfter: seq<Option<Frame>>,
                       ghost all: map<LiveCell, bool>, ghost start: map<LiveCell, bool>)
      requires SlotsApart(framesAfter, framesAfter) && SlotsApart(framesAfter, framesBefore)
      requires k < |postProcessing| && Merging(k, framesBefore, framesAfter, all, start)
      requires EdgeOk(k, framesBefore, framesAfter) && 0 <= postProcessing[k].1 < |framesAfter|
      requires framesAfter[postProcessing[k].1].Some?
      modifies CellsOf(framesAfter)
      ensures Rose(all) && Rose(start)
      ensures forall p, j :: (0 <= p < |framesAfter| && framesAfter[p].Some? && 0 <= j < |framesAfter[p].value.cells| &&
                              old(framesAfter[p].value.cells[j].alive)) ==> framesAfter[p].value.cells[j].alive
      ensures EdgeMerged(k, framesBefore, framesAfter, start)
    {
      var (s, t) := postProcessing[k];
      framesAfter[t].value.MergeLiveness(framesBefore[s].value);
    }

    /** One edge of `finish`. */
    method MergeEdge(k: int, framesBefore: seq<Option<Frame>>, framesAfter: seq<Option<Frame>>,
                     ghost all: map<LiveCell, bool>, ghost start: map<LiveCell, bool>)
      returns (out: Outcome)
      requires SlotsApart(framesAfter, framesAfter) && SlotsApart(framesAfter, framesBefore)
      requires k < |postProcessing| && Merging(k, framesBefore, framesAfter, all, start)
      modifies CellsOf(framesAfter)
      ensures out.Pass? <==> EdgeOk(k, framesBefore, framesAfter)
      ensures Merging(if out.Pass? then k + 1 else k, framesBefore, framesAfter, all, start)
    {
      var (s, t) := postProcessing[k];
      if !(0 <= t < |framesAfter|) {
        return Fail("ArrayIndexOutOfBoundsException");
      }
      if framesAfter[t].Some? {
        if !(0 <= s < |framesBefore|) {
          return Fail("ArrayIndexOutOfBoundsException");
        }
        if framesBefore[s].None? {
          return Fail("NullPointerException");
        }
        label Before:
        MergeFrames(k, framesBefore, framesAfter, all, start);
        forall e | 0 <= e < k
          ensures EdgeMerged(e, framesBefore, framesAfter, start)
        {
          assert old@Before(EdgeMerged(e, framesBefore, framesAfter, start));
        }
      }
      out := Pass;
    }

    /** `finish`: for each edge in turn, the branch's frame after, if any,
        takes the liveness of the successor's frame before; a missing
        successor frame fails. No bit is ever cleared, and on success each
        branch frame is alive wherever a successor frame was at the start. */
    method Finish(framesBefore: seq<Option<Frame>>, framesAfter: seq<Option<Frame>>) returns (out: Outcome)
      requires SlotsApart(framesAfter, framesAfter) && SlotsApart(framesAfter, framesBefore)
      modifies CellsOf(framesAfter)
      ensures Rose(old(Bits(CellsOf(framesAfter) + CellsOf(framesBefore))))
      ensures out.Pass? <==> forall k :: 0 <= k < |postProcessing| ==> EdgeOk(k, framesBefore, framesAfter)
      ensures out.Pass? ==> forall k :: 0 <= k < |postProcessing| ==>
        EdgeMerged(k, framesBefore, framesAfter, old(Bits(CellsOf(framesBefore))))
    {
      ghost var all := Bits(CellsOf(framesAfter) + CellsOf(framesBefore));
      ghost var start := Bits(CellsOf(framesBefore));
      for k := 0 to |postProcessing|
        invariant Merging(k, framesBefore, framesAfter, all, start)
      {
        out := MergeEdge(k, framesBefore, framesAfter, all, start);
        if out.Fail? {
          return;
        }
      }
      out := Pass;
    }
  }
}
