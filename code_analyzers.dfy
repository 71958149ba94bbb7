/** The driver both `CodeAnalyzer`s share: a worklist over the basic blocks
    of a method's code that computes, for every reachable instruction, the
    frame before and after it, and records block entries, block exits,
    exception handlers and branch targets in a status word per code offset.
    The evaluation analyzer runs it over values, the verifier over
    verification types; the domain says which. */
module CodeAnalyzers {
  import opened Wrappers
  import opened JvmTypes
  import opened FrameStates
  import opened Instructions
  import opened FrameUpdates
  import opened StatusFlags
  import opened InitialFrames

  /** An entry of the processing queue: the offset whose block is evaluated
      when the entry is taken, and how the frame before it is set up. */
  datatype WorkItem<V> =
    | Block(offset: int, frame: FrameState<V>)   // enqueueBasicBlock: the given frame
    | Handler(entry: ExceptionEntry)      // enqueueExceptionHandler: built when taken
  {
    function Offset(): int {
      if Block? then offset else entry.handlerPC
    }
  }

  /** The contents of the evaluated flags, the frames before and the frames
      after at one point of the analysis. */
  datatype Snapshot<V> = Snapshot(evaluated: seq<bool>, before: seq<Option<FrameState<V>>>, after: seq<Option<FrameState<V>>>)

  function Offsets<V>(q: seq<WorkItem<V>>): (r: seq<int>)
    ensures |r| == |q| && forall k :: 0 <= k < |q| ==> r[k] == q[k].Offset()
  {
    seq(|q|, k requires 0 <= k < |q| => q[k].Offset())
  }

  lemma OffsetsAppend<V>(q: seq<WorkItem<V>>, r: seq<WorkItem<V>>)
    ensures Offsets(q + r) == Offsets(q) + Offsets(r)
  {
    assert Offsets(q + r) == Offsets(q) + Offsets(r);
  }

  /** The queue entries the block analyser adds for the successors, all
      starting from the same frame. */
  function Blocks<V>(succ: seq<Successor>, frame: FrameState<V>): (r: seq<WorkItem<V>>)
    ensures |r| == |succ| && forall k :: 0 <= k < |succ| ==> r[k] == Block(succ[k].offset, frame)
  {
    seq(|succ|, k requires 0 <= k < |succ| => Block(succ[k].offset, frame))
  }

  /** The queue entries of the exception handlers, in the order given. */
  function HandlerItems<V>(entries: seq<ExceptionEntry>): (r: seq<WorkItem<V>>)
    ensures |r| == |entries| && forall k :: 0 <= k < |entries| ==> r[k] == Handler(entries[k])
  {
    seq(|entries|, k requires 0 <= k < |entries| => Handler(entries[k]))
  }

  function Reversed<T>(s: seq<T>): (r: seq<T>)
    ensures |r| == |s| && forall k :: 0 <= k < |s| ==> r[k] == s[|s| - 1 - k]
  {
    seq(|s|, k requires 0 <= k < |s| => s[|s| - 1 - k])
  }

  /** A handler's frame: the locals of the frame before the first protected
      instruction, and a stack holding only the caught type
      (`java/lang/Throwable` for an entry that catches everything). */
  function HandlerFrame<V>(d: Domain<V>, start: FrameState<V>, e: ExceptionEntry): (r: Result<FrameState<V>>)
    ensures r.Success? <==> !CaughtType(e).IsVoidType()
    ensures r.Success? ==> r.value == FrameState(start.variables, [ValueFor(d, CaughtType(e)).value])
    ensures e.catchType == 0 ==> r == Success(FrameState(start.variables, [d.reference(JAVA_LANG_THROWABLE_TYPE)]))
  {
    var t :- ValueFor(d, CaughtType(e));
    Success(Push(ClearStack(start), t))
  }

  function SuccessorOffsets(succ: seq<Successor>): (r: seq<int>)
    ensures |r| == |succ| && forall k :: 0 <= k < |succ| ==> r[k] == succ[k].offset
  {
    seq(|succ|, k requires 0 <= k < |succ| => succ[k].offset)
  }

  /** The offsets the analysis continues to from the instruction at `o`:
      the next instruction unless it ends a block, and its successors. */
  function Edges(code: Code, o: int): seq<int> {
    if !(0 <= o < |code.at|) || code.at[o].None? then []
    else
      var (i, length) := code.at[o].value;
      (if IsBlockExit(i) then [] else [o + length]) + SuccessorOffsets(Successors(i, o, length))
  }

  lemma EdgesAt(code: Code, o: int)
    requires 0 <= o < |code.at| && code.at[o].Some?
    ensures var i, length := code.at[o].value.0, code.at[o].value.1;
      Edges(code, o) == (if IsBlockExit(i) then [] else [o + length]) + SuccessorOffsets(Successors(i, o, length))
  {
  }

  /** The next instruction is an edge of one that does not end a block. */
  lemma FallThroughEdge(code: Code, o: int)
    requires 0 <= o < |code.at| && code.at[o].Some? && !IsBlockExit(code.at[o].value.0)
    ensures o + code.at[o].value.1 in Edges(code, o)
  {
    EdgesAt(code, o);
  }

  /** The offsets the analysis starts from: 0 and every exception
      handler. */
  ghost predicate Root(handlers: seq<ExceptionEntry>, s: int) {
    s == 0 || exists k :: 0 <= k < |handlers| && handlers[k].handlerPC == s
  }

  /** A path through the code from a root along edges. */
  ghost predicate IsPath(code: Code, handlers: seq<ExceptionEntry>, path: seq<int>) {
    path != [] && Root(handlers, path[0]) &&
    forall j :: 0 < j < |path| ==> path[j] in Edges(code, path[j - 1])
  }

  /** The number of offsets not yet evaluated; it bounds how often the
      analyzer can still start a block. */
  function Unevaluated(s: seq<bool>): nat {
    if s == [] then 0 else Unevaluated(s[..|s| - 1]) + (if s[|s| - 1] then 0 else 1)
  }

  lemma {:induction false} MarkDecreases(s: seq<bool>, i: int)
    requires 0 <= i < |s| && !s[i]
    ensures Unevaluated(s[i := true]) + 1 == Unevaluated(s)
  {
    var t := s[i := true];
    if i == |s| - 1 {
      assert t[..|t| - 1] == s[..|s| - 1];
    } else {
      MarkDecreases(s[..|s| - 1], i);
      assert t[..|t| - 1] == s[..|s| - 1][i := true];
    }
  }

  class Analyzer<V(==)> {
    const code: Code
    const exceptionTable: seq<ExceptionEntry>
    /** The value domain the frame updater runs over. */
    const d: Domain<V>
    /** The receiver of a constructor in the initial frame, given its
        class. */
    const uninitializedThis: JvmType -> V
    const evaluated: array<bool>
    const status: array<Status>
    const framesBefore: array<Option<FrameState<V>>>
    const framesAfter: array<Option<FrameState<V>>>
    var queue: seq<WorkItem<V>>
    /** The offset taken from the queue, or reached by falling through, whose
        evaluation is under way (-1 when none is). */
    ghost var cursor: int

    ghost predicate Valid() {
      evaluated.Length == |code.at| && status.Length == |code.at| &&
      framesBefore.Length == |code.at| && framesAfter.Length == |code.at| &&
      framesBefore != framesAfter &&
      evaluated as object != status as object && evaluated as object != framesBefore as object &&
      evaluated as object != framesAfter as object && status as object != framesBefore as object &&
      status as object != framesAfter as object
    }

    /** All arrays as `visitCode` allocates them, and an empty queue. */
    ghost predicate Fresh()
      reads this, evaluated, status, framesBefore, framesAfter
      requires Valid()
    {
      queue == [] && cursor == -1 &&
      forall o :: 0 <= o < |code.at| ==>
        !evaluated[o] && status[o] == 0 && framesBefore[o].None? && framesAfter[o].None?
    }

    /** The frame after the instruction at `o` is the frame updater's result
        on the frame before it. */
    ghost predicate Computed(o: int)
      requires Valid() && 0 <= o < |code.at|
      reads framesBefore, framesAfter
    {
      code.at[o].Some? && framesBefore[o].Some? &&
      var r := Update(d, code.at[o].value.0, o, framesBefore[o].value);
      r.Success? && framesAfter[o] == Some(r.value)
    }

    ghost predicate FramesComputed()
      requires Valid()
      reads evaluated, framesBefore, framesAfter
    {
      forall o :: 0 <= o < |code.at| && evaluated[o] ==> Computed(o)
    }

    /** Offset `s` lies in the code and is evaluated, under evaluation or
        waiting in the queue. */
    ghost predicate Reached(s: int)
      requires Valid()
      reads this, evaluated
    {
      0 <= s < |code.at| && (evaluated[s] || s == cursor || s in Offsets(queue))
    }

    /** Offset `s` is reached and flagged as a block entry, and as a branch
        target when `branchTarget` is. */
    ghost predicate Entered(s: int, branchTarget: bool)
      requires Valid()
      reads this, evaluated, status
    {
      Reached(s) && IsFlagSet(status[s], BLOCK_ENTRY) && (branchTarget ==> IsFlagSet(status[s], BRANCH_TARGET))
    }

    /** The block analyser's work on the instruction at `o` is done: a block
        exit is flagged and every successor entered; any other instruction's
        next offset is reached. */
    ghost predicate Closed(o: int)
      requires Valid() && 0 <= o < |code.at|
      reads this, evaluated, status
    {
      code.at[o].Some? &&
      var (i, length) := code.at[o].value;
      var succ := Successors(i, o, length);
      (IsBlockExit(i) ==> IsFlagSet(status[o], BLOCK_EXIT)) &&
      (!IsBlockExit(i) ==> Reached(o + length)) &&
      forall k :: 0 <= k < |succ| ==> Entered(succ[k].offset, succ[k].isBranchTarget)
    }

    ghost predicate ClosedBut(except: int)
      requires Valid()
      reads this, evaluated, status
    {
      forall o :: 0 <= o < |code.at| && evaluated[o] && o != except ==> Closed(o)
    }

    ghost predicate AllClosed()
      requires Valid()
      reads this, evaluated, status
    {
      ClosedBut(-1)
    }

    /** `BLOCK_EXIT` is set only on evaluated instructions that end a
        block. */
    ghost predicate ExitsFlagged()
      requires Valid()
      reads evaluated, status
    {
      forall o :: 0 <= o < |code.at| && IsFlagSet(status[o], BLOCK_EXIT) ==>
        evaluated[o] && code.at[o].Some? && IsBlockExit(code.at[o].value.0)
    }

    ghost predicate QueueInRange()
      reads this
    {
      forall k :: 0 <= k < |queue| ==> 0 <= queue[k].Offset() < |code.at|
    }

    /** The entry block and every exception handler are entered, and the
        handlers flagged as such. */
    ghost predicate Seeded()
      requires Valid()
      reads this, evaluated, status
    {
      Entered(0, false) &&
      forall k :: 0 <= k < |exceptionTable| ==>
        Entered(exceptionTable[k].handlerPC, false) && IsFlagSet(status[exceptionTable[k].handlerPC], EXCEPTION_HANDLER)
    }

    /** The invariant of the worklist. */
    ghost predicate Consistent()
      requires Valid()
      reads this, evaluated, status, framesBefore, framesAfter
    {
      FramesComputed() && AllClosed() && ExitsFlagged() && QueueInRange()
    }

    /** No flag is ever cleared. */
    twostate predicate FlagsKept()
      requires Valid()
      reads status
    {
      forall o, flag :: 0 <= o < |code.at| && IsFlagSet(old(status[o]), flag) ==> IsFlagSet(status[o], flag)
    }

    /** `BLOCK_EXIT` was not newly set anywhere but at `at`. */
    twostate predicate ExitsKeptBut(at: int)
      requires Valid()
      reads status
    {
      forall o :: 0 <= o < |code.at| && o != at && IsFlagSet(status[o], BLOCK_EXIT) ==> IsFlagSet(old(status[o]), BLOCK_EXIT)
    }

    /** No offset that was reached stops being reached. */
    twostate predicate ReachedKept()
      requires Valid()
      reads this, evaluated
    {
      forall s :: old(Reached(s)) ==> Reached(s)
    }

    /** `visitCode`: the arrays allocated for the code, all unevaluated,
        unflagged and without frames, and an empty queue. */
    constructor (code: Code, exceptionTable: seq<ExceptionEntry>, d: Domain<V>, uninitializedThis: JvmType -> V)
      ensures this.code == code && this.exceptionTable == exceptionTable && this.d == d && this.uninitializedThis == uninitializedThis
      ensures Valid() && Fresh()
      ensures fresh(evaluated) && fresh(status) && fresh(framesBefore) && fresh(framesAfter)
    {
      this.code := code;
      this.exceptionTable := exceptionTable;
      this.d := d;
      this.uninitializedThis := uninitializedThis;
      evaluated := new bool[|code.at|](_ => false);
      status := new Status[|code.at|](_ => 0);
      framesBefore := new Option<FrameState<V>>[|code.at|](_ => None);
      framesAfter := new Option<FrameState<V>>[|code.at|](_ => None);
      queue := [];
      cursor := -1;
    }

    /** `setStatusFlag`: ORs `flag` into the status of `x`; an offset
        outside the code fails like the array access. */
    method SetStatusFlag(x: int, flag: Status) returns (out: Outcome)
      requires Valid()
      modifies status
      ensures out.Pass? <==> 0 <= x < |code.at|
      ensures out.Pass? ==> status[x] == SetFlag(old(status[x]), flag)
      ensures out.Pass? && flag != 0 ==> IsFlagSet(status[x], flag)
      ensures forall o :: 0 <= o < |code.at| && o != x ==> status[o] == old(status[o])
      ensures FlagsKept()
      ensures flag == BLOCK_ENTRY || flag == EXCEPTION_HANDLER || flag == BRANCH_TARGET ==> ExitsKeptBut(-1)
    {
      if !(0 <= x < |code.at|) {
        return Fail("ArrayIndexOutOfBoundsException");
      }
      var before := status[x];
      status[x] := SetFlag(before, flag);
      SetFlagSets(before, flag);
      SetFlagKeeps(before, flag);
      forall flag' | IsFlagSet(before, flag')
        ensures IsFlagSet(status[x], flag')
      {
        FlagStaysSet(before, status[x], flag');
      }
      if flag == BLOCK_ENTRY || flag == EXCEPTION_HANDLER || flag == BRANCH_TARGET {
        SetOtherFlag(before, flag);
      }
      return Pass;
    }

    /** `enqueueBasicBlock`: flags `s` as a block entry and queues it with
        the frame it starts from. */
    method EnqueueBasicBlock(s: int, frame: FrameState<V>) returns (out: Outcome)
      requires Valid()
      modifies this, status
      ensures out.Pass? <==> 0 <= s < |code.at|
      ensures out.Pass? ==> queue == old(queue) + [Block(s, frame)] && IsFlagSet(status[s], BLOCK_ENTRY)
      ensures out.Fail? ==> queue == old(queue)
      ensures forall o :: 0 <= o < |code.at| && o != s ==> status[o] == old(status[o])
      ensures FlagsKept() && ExitsKeptBut(-1)
      ensures cursor == old(cursor)
    {
      out := SetStatusFlag(s, BLOCK_ENTRY);
      if out.Pass? {
        queue := queue + [Block(s, frame)];
      }
    }

    /** `enqueueBranchTarget`: flags `s` as a branch target, then as a block
        entry, and queues it. */
    method EnqueueBranchTarget(s: int, frame: FrameState<V>) returns (out: Outcome)
      requires Valid()
      modifies this, status
      ensures out.Pass? <==> 0 <= s < |code.at|
      ensures out.Pass? ==> queue == old(queue) + [Block(s, frame)]
      ensures out.Pass? ==> IsFlagSet(status[s], BLOCK_ENTRY) && IsFlagSet(status[s], BRANCH_TARGET)
      ensures out.Fail? ==> queue == old(queue)
      ensures forall o :: 0 <= o < |code.at| && o != s ==> status[o] == old(status[o])
      ensures FlagsKept() && ExitsKeptBut(-1)
      ensures cursor == old(cursor)
    {
      out := SetStatusFlag(s, BRANCH_TARGET);
      if out.Pass? {
        out := EnqueueBasicBlock(s, frame);
      }
    }

    /** `enqueueExceptionHandler`: flags the handler as a block entry and an
        exception handler and queues it; its frame is built when it is
        taken. */
    method EnqueueExceptionHandler(e: ExceptionEntry) returns (out: Outcome)
      requires Valid()
      modifies this, status
      ensures out.Pass? <==> 0 <= e.handlerPC < |code.at|
      ensures out.Pass? ==> queue == old(queue) + [Handler(e)]
      ensures out.Pass? ==> IsFlagSet(status[e.handlerPC], BLOCK_ENTRY) && IsFlagSet(status[e.handlerPC], EXCEPTION_HANDLER)
      ensures forall o :: 0 <= o < |code.at| && o != e.handlerPC ==> status[o] == old(status[o])
      ensures FlagsKept() && ExitsKeptBut(-1)
      ensures cursor == old(cursor)
    {
      out := SetStatusFlag(e.handlerPC, BLOCK_ENTRY);
      if out.Fail? {
        return;
      }
      out := SetStatusFlag(e.handlerPC, EXCEPTION_HANDLER);
      queue := queue + [Handler(e)];
    }

    /** `setupInitialFrame`: the receiver, then the value of each
        parameter type, stored from local 0 on. */
    method SetupInitialFrame(m: MethodInfo) returns (r: Result<FrameState<V>>)
      ensures r == InitialFrame(d, m, uninitializedThis(m.classType))
    {
      var frame: FrameState<V> := FrameState([], []);
      var variableIndex: nat := 0;
      if !m.isStatic {
        var receiver := if m.isConstructor then uninitializedThis(m.classType) else d.reference(m.classType);
        frame, variableIndex := Store(frame, variableIndex, receiver, d.top, d.category2).value, 1;
      }
      ghost var start, startIndex := frame, variableIndex;
      for k := 0 to |m.parameters|
        invariant StoreParameters(d, start, startIndex, m.parameters) ==
                  StoreParameters(d, frame, variableIndex, m.parameters[k..])
      {
        var value := ValueFor(d, m.parameters[k]);
        if value.Failure? {
          return Failure(value.error);
        }
        assert m.parameters[k..][1..] == m.parameters[k + 1..];
        frame := Store(frame, variableIndex, value.value, d.top, d.category2).value;
        variableIndex := variableIndex + (if d.category2(value.value) then 2 else 1);
      }
      return Success(frame);
    }
  
    /** The frame updater: the frame after `o` is the update of a copy of
        the frame before it; a missing frame before fails like `!!`. */
    method UpdateFrame(o: int) returns (out: Outcome)
      requires Valid() && 0 <= o < |code.at| && code.at[o].Some?
      modifies framesAfter
      ensures out.Pass? <==> framesBefore[o].Some? && Update(d, code.at[o].value.0, o, framesBefore[o].value).Success?
      ensures out.Pass? ==> Computed(o)
      ensures forall p :: 0 <= p < |code.at| && p != o ==> framesAfter[p] == old(framesAfter[p])
    {
      if framesBefore[o].None? {
        return Fail("NullPointerException");
      }
      var r := Update(d, code.at[o].value.0, o, framesBefore[o].value);
      if r.Failure? {
        return Fail(r.error);
      }
      framesAfter[o] := Some(r.value);
      return Pass;
    }

    /** The block analyser: an instruction that ends a block is flagged
        `BLOCK_EXIT`, and its successors are queued with the frame after it,
        branch targets as such. */
    method AnalyseBlock(o: int) returns (out: Outcome)
      requires Valid() && 0 <= o < |code.at| && code.at[o].Some? && framesAfter[o].Some?
      modifies this, status
      ensures cursor == old(cursor)
      ensures var (i, length) := code.at[o].value;
        out.Pass? ==> queue == old(queue) + Blocks(Successors(i, o, length), old(framesAfter[o].value))
      ensures var (i, length) := code.at[o].value;
        var succ := Successors(i, o, length);
        out.Pass? ==> forall k :: 0 <= k < |succ| ==> Entered(succ[k].offset, succ[k].isBranchTarget)
      ensures out.Pass? && IsBlockExit(code.at[o].value.0) ==> IsFlagSet(status[o], BLOCK_EXIT)
      ensures !IsBlockExit(code.at[o].value.0) ==> ExitsKeptBut(-1)
      ensures ExitsKeptBut(o) && FlagsKept()
      ensures old(queue) <= queue && forall k :: |old(queue)| <= k < |queue| ==> 0 <= queue[k].Offset() < |code.at|
    {
      var (i, length) := code.at[o].value;
      var frameAfter := framesAfter[o].value;
      out := Pass;
      if IsBlockExit(i) {
        out := SetStatusFlag(o, BLOCK_EXIT);
      }
      ghost var s0, q0 := status[..], queue;
      var succ := Successors(i, o, length);
      assert succ[..0] == [];
      for k := 0 to |succ|
        invariant Enqueued(succ, k, frameAfter, q0, s0, old(cursor))
      {
        out := EnqueueSuccessor(succ, k, frameAfter, q0, s0, old(cursor));
        if out.Fail? {
          break;
        }
      }
      forall x, flag | 0 <= x < |code.at| && IsFlagSet(old(status[x]), flag)
        ensures IsFlagSet(status[x], flag)
      {
        assert IsFlagSet(s0[x], flag);
      }
      forall x | 0 <= x < |code.at| && IsFlagSet(status[x], BLOCK_EXIT)
        ensures IsFlagSet(s0[x], BLOCK_EXIT)
      {
      }
      if out.Fail? {
        return;
      }
      assert succ[..|succ|] == succ;
      out := Pass;
    }

    /** Every flag set in the snapshot `s0` is still set, and `BLOCK_EXIT`
        was not newly set anywhere. */
    ghost predicate FlagsGrew(s0: seq<Status>)
      requires Valid()
      reads status
    {
      |s0| == |code.at| &&
      (forall x, flag :: 0 <= x < |code.at| && IsFlagSet(s0[x], flag) ==> IsFlagSet(status[x], flag)) &&
      forall x :: 0 <= x < |code.at| && IsFlagSet(status[x], BLOCK_EXIT) ==> IsFlagSet(s0[x], BLOCK_EXIT)
    }

    /** The block analyser's loop over the successors `succ` has queued the
        first `k` of them, all entered, since the snapshot `q0`/`s0`. */
    ghost predicate Enqueued(succ: seq<Successor>, k: int, frameAfter: FrameState<V>, q0: seq<WorkItem<V>>, s0: seq<Status>, c0: int)
      requires Valid()
      reads this, evaluated, status
    {
      0 <= k <= |succ| && cursor == c0 &&
      queue == q0 + Blocks(succ[..k], frameAfter) &&
      (forall j :: 0 <= j < k ==> Entered(succ[j].offset, succ[j].isBranchTarget) && 0 <= succ[j].offset < |code.at|) &&
      FlagsGrew(s0)
    }

    /** One turn of the block analyser's loop over the successors: the
        `k`-th successor is queued, as a branch target when it is one. */
    method EnqueueSuccessor(succ: seq<Successor>, k: int, frameAfter: FrameState<V>, ghost q0: seq<WorkItem<V>>, ghost s0: seq<Status>, ghost c0: int)
      returns (out: Outcome)
      requires Valid() && Enqueued(succ, k, frameAfter, q0, s0, c0) && k < |succ|
      modifies this, status
      ensures Enqueued(succ, if out.Pass? then k + 1 else k, frameAfter, q0, s0, c0)
    {
      ghost var queue1 := queue;
      var s := succ[k].offset;
      if succ[k].isBranchTarget {
        out := EnqueueBranchTarget(s, frameAfter);
      } else {
        out := EnqueueBasicBlock(s, frameAfter);
      }
      if out.Fail? {
        return;
      }
      OffsetsAppend(queue1, [Block(s, frameAfter)]);
      assert Blocks(succ[..k + 1], frameAfter) == Blocks(succ[..k], frameAfter) + [Block(s, frameAfter)];
    }

    /** The set-up closure of a queue entry: a block's frame is the one it
        was queued with; a handler's is built from a copy of the frame
        before its first protected instruction. */
    method SetupFrame(item: WorkItem<V>) returns (out: Outcome)
      requires Valid() && 0 <= item.Offset() < |code.at|
      modifies framesBefore
      ensures forall p :: 0 <= p < |code.at| && p != item.Offset() ==> framesBefore[p] == old(framesBefore[p])
      ensures item.Block? ==> out.Pass? && framesBefore[item.offset] == Some(item.frame)
      ensures item.Handler? ==>
        var e := item.entry;
        (out.Pass? <==> 0 <= e.startPC < |code.at| && old(framesBefore[e.startPC]).Some? &&
                        HandlerFrame(d, old(framesBefore[e.startPC]).value, e).Success?) &&
        (out.Pass? ==> framesBefore[e.handlerPC] == Some(HandlerFrame(d, old(framesBefore[e.startPC]).value, e).value))
    {
      match item
      case Block(offset, frame) =>
        framesBefore[offset] := Some(frame);
        out := Pass;
      case Handler(e) =>
        if !(0 <= e.startPC < |code.at|) {
          return Fail("ArrayIndexOutOfBoundsException");
        }
        if framesBefore[e.startPC].None? {
          return Fail("NullPointerException");
        }
        var frame := HandlerFrame(d, framesBefore[e.startPC].value, e);
        if frame.Failure? {
          return Fail(frame.error);
        }
        framesBefore[e.handlerPC] := Some(frame.value);
        out := Pass;
    }
  
    /** Reached offsets stay reached while the evaluated offsets and the
        queue only grow and the cursor stays or leaves an evaluated
        offset. */
    twostate lemma KeepReached()
      requires Valid()
      requires forall o :: 0 <= o < |code.at| && old(evaluated[o]) ==> evaluated[o]
      requires old(queue) <= queue
      requires cursor == old(cursor) || (0 <= old(cursor) < |code.at| && evaluated[old(cursor)])
      ensures ReachedKept()
    {
      OffsetsAppend(old(queue), queue[|old(queue)|..]);
      assert queue == old(queue) + queue[|old(queue)|..];
    }

    /** Taking the last queue entry keeps its offset reached through the
        cursor. */
    twostate lemma KeepReachedTaken(taken: int)
      requires Valid()
      requires old(queue) != [] && queue == old(queue)[..|old(queue)| - 1] && taken == old(queue)[|old(queue)| - 1].Offset()
      requires cursor == taken && old(cursor) == -1
      requires forall o :: 0 <= o < |code.at| ==> evaluated[o] == old(evaluated[o])
      ensures ReachedKept()
    {
      var last := old(queue)[|old(queue)| - 1];
      assert old(queue) == queue + [last];
      OffsetsAppend(queue, [last]);
      assert Offsets([last]) == [taken];
      forall s | old(Reached(s))
        ensures Reached(s)
      {
        if s in old(Offsets(queue)) && s != taken {
          assert s in Offsets(queue);
        }
      }
    }

    /** What the block analyser established stays true while reached
        offsets stay reached and flags stay set. */
    twostate lemma KeepClosed(except: int)
      requires Valid() && old(ClosedBut(except)) && ReachedKept() && FlagsKept()
      requires forall o :: 0 <= o < |code.at| && evaluated[o] && o != except ==> old(evaluated[o])
      ensures ClosedBut(except)
    {
      forall o | 0 <= o < |code.at| && evaluated[o] && o != except
        ensures Closed(o)
      {
        assert old(Closed(o));
      }
    }

    /** Everything `Closed` says of `o` but that the next offset is
        reached, with `BLOCK_EXIT` set exactly on a block end. */
    ghost predicate Analysed(o: int)
      requires Valid() && 0 <= o < |code.at|
      reads this, evaluated, status
    {
      code.at[o].Some? &&
      var (i, length) := code.at[o].value;
      var succ := Successors(i, o, length);
      (IsBlockExit(i) <==> IsFlagSet(status[o], BLOCK_EXIT)) &&
      forall k :: 0 <= k < |succ| ==> Entered(succ[k].offset, succ[k].isBranchTarget)
    }

    /** The current contents of the evaluated flags and the frames. */
    ghost function State(): Snapshot<V>
      requires Valid()
      reads evaluated, framesBefore, framesAfter
    {
      Snapshot(evaluated[..], framesBefore[..], framesAfter[..])
    }

    ghost predicate Sized(t: Snapshot<V>) {
      |t.evaluated| == |code.at| && |t.before| == |code.at| && |t.after| == |code.at|
    }

    /** `p` is evaluated, `s` is one of the offsets the analysis continues
        to from it, and the frame before `s` is the frame after `p`. */
    ghost predicate EdgeFrom(t: Snapshot<V>, p: int, s: int)
      requires Sized(t) && 0 <= p < |code.at| && 0 <= s < |code.at|
    {
      t.evaluated[p] && s in Edges(code, p) && t.before[s] == t.after[p]
    }

    /** `s` is the handler of the table entry `e`, the first offset `e`
        protects is evaluated, and the frame before `s` is the handler frame
        built from the frame before that offset. */
    ghost predicate HandlerFrom(t: Snapshot<V>, e: ExceptionEntry, s: int)
      requires Sized(t) && 0 <= s < |code.at|
    {
      e.handlerPC == s && 0 <= e.startPC < |code.at| && t.evaluated[e.startPC] && t.before[e.startPC].Some? &&
      HandlerFrame(d, t.before[e.startPC].value, e).Success? &&
      t.before[s] == Some(HandlerFrame(d, t.before[e.startPC].value, e).value)
    }

    /** Where the frame before `s` comes from: it is the initial frame
        `entry` at offset 0, the frame after an evaluated offset that
        continues to `s`, or the handler frame of a table entry handled at
        `s`. */
    ghost predicate Sourced(t: Snapshot<V>, s: int, entry: FrameState<V>)
      requires Sized(t) && 0 <= s < |code.at|
    {
      t.before[s].Some? &&
      ((s == 0 && t.before[0] == Some(entry)) ||
       (exists p :: 0 <= p < |code.at| && EdgeFrom(t, p, s)) ||
       (exists e :: e in exceptionTable && HandlerFrom(t, e, s)))
    }

    /** A queue entry comes from the same places: a block carries `entry`
        to offset 0 or the frame after an evaluated offset that continues to
        it, and a handler is an entry of the table. */
    ghost predicate ItemSourced(t: Snapshot<V>, item: WorkItem<V>, entry: FrameState<V>)
      requires Sized(t)
    {
      match item
      case Block(s, f) =>
        (s == 0 && f == entry) ||
        exists p :: 0 <= p < |code.at| && t.evaluated[p] && s in Edges(code, p) && t.after[p] == Some(f)
      case Handler(e) => e in exceptionTable
    }

    /** The provenance invariant of the worklist, `c` being the offset under
        evaluation (-1 for none): the evaluated offsets and `c` have sourced
        frames, no other offset has a frame before, and every queue entry is
        sourced. */
    ghost predicate Traced(t: Snapshot<V>, q: seq<WorkItem<V>>, c: int, entry: FrameState<V>) {
      Sized(t) &&
      (forall s {:trigger Sourced(t, s, entry)} :: 0 <= s < |code.at| && (t.evaluated[s] || s == c) ==> Sourced(t, s, entry)) &&
      (forall x :: 0 <= x < |code.at| && t.before[x].Some? ==> t.evaluated[x] || x == c) &&
      forall k :: 0 <= k < |q| ==> ItemSourced(t, q[k], entry)
    }

    /** What is evaluated in `t0` is evaluated in `t1`, with the same
        frames. */
    ghost predicate Stable(t0: Snapshot<V>, t1: Snapshot<V>) {
      Sized(t0) && Sized(t1) &&
      forall p :: 0 <= p < |code.at| && t0.evaluated[p] ==>
        t1.evaluated[p] && t1.before[p] == t0.before[p] && t1.after[p] == t0.after[p]
    }

    lemma SourcedStable(t0: Snapshot<V>, t1: Snapshot<V>, s: int, entry: FrameState<V>)
      requires Stable(t0, t1) && 0 <= s < |code.at| && Sourced(t0, s, entry) && t1.before[s] == t0.before[s]
      ensures Sourced(t1, s, entry)
    {
      if s == 0 && t0.before[0] == Some(entry) {
      } else if exists p :: 0 <= p < |code.at| && EdgeFrom(t0, p, s) {
        var p :| 0 <= p < |code.at| && EdgeFrom(t0, p, s);
        assert EdgeFrom(t1, p, s);
      } else {
        var e :| e in exceptionTable && HandlerFrom(t0, e, s);
        assert HandlerFrom(t1, e, s);
      }
    }

    lemma ItemStable(t0: Snapshot<V>, t1: Snapshot<V>, item: WorkItem<V>, entry: FrameState<V>)
      requires Stable(t0, t1) && ItemSourced(t0, item, entry)
      ensures ItemSourced(t1, item, entry)
    {
      if item.Block? && !(item.offset == 0 && item.frame == entry) {
        var p :| 0 <= p < |code.at| && t0.evaluated[p] && item.offset in Edges(code, p) && t0.after[p] == Some(item.frame);
        assert t1.evaluated[p] && t1.after[p] == Some(item.frame);
      }
    }

    lemma EdgeSourced(t: Snapshot<V>, p: int, s: int, entry: FrameState<V>)
      requires Sized(t) && 0 <= p < |code.at| && 0 <= s < |code.at| && t.before[s].Some? && EdgeFrom(t, p, s)
      ensures Sourced(t, s, entry)
    {
    }

    lemma QueueStable(t0: Snapshot<V>, t1: Snapshot<V>, q: seq<WorkItem<V>>, entry: FrameState<V>)
      requires Stable(t0, t1) && forall k :: 0 <= k < |q| ==> ItemSourced(t0, q[k], entry)
      ensures forall k :: 0 <= k < |q| ==> ItemSourced(t1, q[k], entry)
    {
      forall k | 0 <= k < |q|
        ensures ItemSourced(t1, q[k], entry)
      {
        ItemStable(t0, t1, q[k], entry);
      }
    }

    /** The seeded queue is sourced: no offset is evaluated or framed yet,
        the handlers come from the table and the entry block carries
        `entry` to offset 0. */
    lemma SeedTraced(t: Snapshot<V>, q: seq<WorkItem<V>>, entry: FrameState<V>)
      requires Sized(t) && forall o :: 0 <= o < |code.at| ==> !t.evaluated[o] && t.before[o].None?
      requires q == HandlerItems(Reversed(exceptionTable)) + [Block(0, entry)]
      ensures Traced(t, q, -1, entry)
    {
      forall k | 0 <= k < |q|
        ensures ItemSourced(t, q[k], entry)
      {
        if k < |exceptionTable| {
          assert q[k] == Handler(exceptionTable[|exceptionTable| - 1 - k]);
        }
      }
    }

    /** Evaluating the instruction at `c` keeps the invariant: `c`'s frame
        was sourced before, and the successors it queues carry its frame
        after. */
    lemma InstructionTraced(t0: Snapshot<V>, t1: Snapshot<V>, q0: seq<WorkItem<V>>, q1: seq<WorkItem<V>>, c: int, entry: FrameState<V>)
      requires Traced(t0, q0, c, entry) && Sized(t1) && 0 <= c < |code.at| && !t0.evaluated[c] && code.at[c].Some?
      requires t1.evaluated == t0.evaluated[c := true] && t1.before == t0.before
      requires forall p :: 0 <= p < |code.at| && p != c ==> t1.after[p] == t0.after[p]
      requires t1.after[c].Some?
      requires q1 == q0 + Blocks(Successors(code.at[c].value.0, c, code.at[c].value.1), t1.after[c].value)
      ensures Traced(t1, q1, c, entry)
    {
      assert Stable(t0, t1);
      forall s | 0 <= s < |code.at| && (t1.evaluated[s] || s == c)
        ensures Sourced(t1, s, entry)
      {
        SourcedStable(t0, t1, s, entry);
      }
      var succ := Successors(code.at[c].value.0, c, code.at[c].value.1);
      EdgesAt(code, c);
      forall k | 0 <= k < |q1|
        ensures ItemSourced(t1, q1[k], entry)
      {
        if k < |q0| {
          ItemStable(t0, t1, q0[k], entry);
        } else {
          var j := k - |q0|;
          assert q1[k] == Block(succ[j].offset, t1.after[c].value);
          assert SuccessorOffsets(succ)[j] == succ[j].offset;
          assert succ[j].offset in Edges(code, c);
        }
      }
    }

    /** Handing the frame after `c` to the next offset, when that one is
        not evaluated, and moving on to it keeps the invariant. `next` is
        any edge of `c`; the block walk uses the fall-through one. */
    lemma FallThroughTraced(t0: Snapshot<V>, t1: Snapshot<V>, q: seq<WorkItem<V>>, c: int, next: int, entry: FrameState<V>)
      requires Traced(t0, q, c, entry) && Sized(t1) && 0 <= c < |code.at| && t0.evaluated[c]
      requires 0 <= next < |code.at| && next in Edges(code, c) && t0.after[c].Some?
      requires t1.evaluated == t0.evaluated && t1.after == t0.after
      requires forall x :: 0 <= x < |code.at| && x != next ==> t1.before[x] == t0.before[x]
      requires t1.before[next] == if t0.evaluated[next] then t0.before[next] else t0.after[c]
      ensures Traced(t1, q, next, entry)
    {
      assert Stable(t0, t1);
      forall s | 0 <= s < |code.at| && (t1.evaluated[s] || s == next)
        ensures Sourced(t1, s, entry)
      {
        if s == next && !t0.evaluated[next] {
          assert t1.before[next] == t1.after[c];
          EdgeSourced(t1, c, next, entry);
        } else {
          SourcedStable(t0, t1, s, entry);
        }
      }
      QueueStable(t0, t1, q, entry);
    }

    /** `FallThroughTraced` for the next instruction of one that does not
        end a block. */
    lemma StepTraced(t0: Snapshot<V>, t1: Snapshot<V>, q: seq<WorkItem<V>>, c: int, next: int, entry: FrameState<V>)
      requires Traced(t0, q, c, entry) && Sized(t1) && 0 <= c < |code.at| && t0.evaluated[c] && t0.after[c].Some?
      requires code.at[c].Some? && !IsBlockExit(code.at[c].value.0) && next == c + code.at[c].value.1 && 0 <= next < |code.at|
      requires t1.evaluated == t0.evaluated && t1.after == t0.after
      requires forall x :: 0 <= x < |code.at| && x != next ==> t1.before[x] == t0.before[x]
      requires t1.before[next] == if t0.evaluated[next] then t0.before[next] else t0.after[c]
      ensures Traced(t1, q, next, entry)
    {
      FallThroughEdge(code, c);
      FallThroughTraced(t0, t1, q, c, next, entry);
    }

    /** Setting up the frame of a taken entry whose offset is not evaluated
        keeps the invariant, with that offset under evaluation. */
    lemma SetupTraced(t0: Snapshot<V>, t1: Snapshot<V>, q: seq<WorkItem<V>>, item: WorkItem<V>, entry: FrameState<V>)
      requires Traced(t0, q, -1, entry) && ItemSourced(t0, item, entry) && Sized(t1)
      requires 0 <= item.Offset() < |code.at| && !t0.evaluated[item.Offset()]
      requires t1.evaluated == t0.evaluated && t1.after == t0.after
      requires item.Block? ==> t1.before == t0.before[item.offset := Some(item.frame)]
      requires item.Handler? ==>
        var e := item.entry;
        0 <= e.startPC < |code.at| && t0.before[e.startPC].Some? && HandlerFrame(d, t0.before[e.startPC].value, e).Success? &&
        t1.before == t0.before[e.handlerPC := Some(HandlerFrame(d, t0.before[e.startPC].value, e).value)]
      ensures Traced(t1, q, item.Offset(), entry)
    {
      var o := item.Offset();
      assert Stable(t0, t1);
      forall s | 0 <= s < |code.at| && (t1.evaluated[s] || s == o)
        ensures Sourced(t1, s, entry)
      {
        if s != o {
          SourcedStable(t0, t1, s, entry);
        } else if item.Handler? {
          assert HandlerFrom(t1, item.entry, o);
        } else if !(o == 0 && item.frame == entry) {
          var p :| 0 <= p < |code.at| && t0.evaluated[p] && o in Edges(code, p) && t0.after[p] == Some(item.frame);
          assert EdgeFrom(t1, p, o);
        }
      }
      QueueStable(t0, t1, q, entry);
    }

    /** Once the offset under evaluation is evaluated, no offset is. */
    lemma Settled(t: Snapshot<V>, q: seq<WorkItem<V>>, c: int, entry: FrameState<V>)
      requires Traced(t, q, c, entry) && 0 <= c < |code.at| && t.evaluated[c]
      ensures Traced(t, q, -1, entry)
    {
    }

    /** One turn of the block loop: marks `current` evaluated, runs the frame
        updater and then the block analyser on it. */
    method EvaluateInstruction(current: int) returns (out: Outcome)
      requires Valid() && Consistent()
      requires 0 <= current < |code.at| && !evaluated[current] && framesBefore[current].Some? && cursor == current
      modifies this, evaluated, status, framesAfter
      ensures cursor == current
      ensures evaluated[..] == old(evaluated[..])[current := true]
      ensures out.Pass? ==> FramesComputed() && ExitsFlagged() && QueueInRange() && Analysed(current)
      ensures out.Pass? ==> ClosedBut(current)
      ensures out.Pass? ==> FlagsKept() && ReachedKept() && old(queue) <= queue
      ensures forall p :: 0 <= p < |code.at| && p != current ==> framesAfter[p] == old(framesAfter[p])
      ensures out.Pass? ==>
        code.at[current].Some? && framesAfter[current].Some? &&
        queue == old(queue) + Blocks(Successors(code.at[current].value.0, current, code.at[current].value.1), framesAfter[current].value)
    {
      evaluated[current] := true;
      if code.at[current].None? {
        return Fail("IllegalArgumentException");
      }
      out := UpdateFrame(current);
      if out.Fail? {
        return;
      }
      out := AnalyseBlock(current);
      if out.Fail? {
        return;
      }
      KeepReached();
      KeepClosed(current);
    }

    /** One turn of the block loop with its ending: evaluates `current`;
        unless the instruction ends the block, hands its frame after to the
        next offset, when that one is not evaluated yet, and moves on to
        it. */
    method EvaluateStep(current: int, ghost entry: FrameState<V>) returns (out: Outcome, exit: bool, next: int)
      requires Valid() && Consistent()
      requires 0 <= current < |code.at| && !evaluated[current] && framesBefore[current].Some? && cursor == current
      requires Traced(State(), queue, current, entry)
      modifies this, evaluated, status, framesBefore, framesAfter
      ensures out.Pass? ==> Traced(State(), queue, cursor, entry)
      ensures out.Pass? ==> Consistent() && evaluated[..] == old(evaluated[..])[current := true]
      ensures out.Pass? && exit ==> cursor == current && code.at[current].Some? && IsBlockExit(code.at[current].value.0)
      ensures out.Pass? && !exit ==>
        code.at[current].Some? && !IsBlockExit(code.at[current].value.0) && next == current + code.at[current].value.1 &&
        0 <= next < |code.at| && cursor == next && (!evaluated[next] ==> framesBefore[next] == framesAfter[current] && framesBefore[next].Some?)
      ensures out.Pass? ==> forall p :: 0 <= p < |code.at| && evaluated[p] ==> framesBefore[p] == old(framesBefore[p])
      ensures out.Pass? ==> FlagsKept() && ReachedKept() && old(queue) <= queue
    {
      exit, next := false, current;
      ghost var t0, q0 := State(), queue;
      out := EvaluateInstruction(current);
      if out.Fail? {
        return;
      }
      ghost var t1 := State();
      InstructionTraced(t0, t1, q0, queue, current, entry);
      assert Computed(current);
      exit := IsFlagSet(status[current], BLOCK_EXIT);
      if exit {
        assert Closed(current);
        return;
      }
      out, next := FallThrough(current, entry);
      if out.Pass? {
        KeepReached();
      }
    }

    /** The end of a turn whose instruction does not end the block: the
        frame after `current` becomes the frame before the next offset,
        unless that one is evaluated already, and the walk moves on to
        it. */
    method FallThrough(current: int, ghost entry: FrameState<V>) returns (out: Outcome, next: int)
      requires Valid() && FramesComputed() && ClosedBut(current) && ExitsFlagged() && QueueInRange()
      requires 0 <= current < |code.at| && evaluated[current] && cursor == current && Analysed(current)
      requires !IsBlockExit(code.at[current].value.0)
      requires Traced(State(), queue, current, entry)
      modifies this, framesBefore
      ensures next == current + code.at[current].value.1 && queue == old(queue)
      ensures out.Pass? ==>
        Consistent() && 0 <= next < |code.at| && cursor == next &&
        (!evaluated[next] ==> framesBefore[next] == framesAfter[current] && framesBefore[next].Some?)
      ensures out.Pass? ==> forall p :: 0 <= p < |code.at| && evaluated[p] ==> framesBefore[p] == old(framesBefore[p])
      ensures out.Pass? ==> Traced(State(), queue, cursor, entry)
      ensures out.Pass? ==> ReachedKept()
    {
      assert Computed(current);
      next := current + code.at[current].value.1;
      if !(0 <= next < |code.at|) {
        return Fail("ArrayIndexOutOfBoundsException"), next;
      }
      ghost var t0 := State();
      if !evaluated[next] {
        framesBefore[next] := framesAfter[current];
      }
      cursor := next;
      ghost var t1 := State();
      StepTraced(t0, t1, queue, current, next, entry);
      KeepReached();
      KeepClosed(current);
      assert Closed(current);
      out := Pass;
    }

    /** The state of a block walk that started at `offset` from the
        snapshot `e0`/`f0`/`q0`/`u0` of the evaluated flags, the frames
        before, the queue and the number of unevaluated offsets: `current`
        is under evaluation, the worklist invariant holds, what was
        evaluated keeps its frame, and once `offset` is evaluated there is
        one unevaluated offset fewer. */
    ghost predicate InBlock(offset: int, current: int, e0: seq<bool>, f0: seq<Option<FrameState<V>>>, q0: seq<WorkItem<V>>, u0: nat)
      requires Valid()
      reads this, evaluated, status, framesBefore, framesAfter
    {
      |e0| == |f0| == |code.at| && 0 <= offset < |code.at| &&
      0 <= current < |code.at| && cursor == current &&
      (!evaluated[current] ==> framesBefore[current].Some?) &&
      Consistent() && Seeded() && q0 <= queue &&
      (forall p :: 0 <= p < |code.at| && e0[p] ==> evaluated[p] && framesBefore[p] == f0[p]) &&
      framesBefore[offset] == f0[offset] &&
      ((current == offset && !evaluated[offset] && Unevaluated(evaluated[..]) == u0) ||
       (evaluated[offset] && Unevaluated(evaluated[..]) < u0))
    }

    /** One turn of the block loop, keeping the walk's state. */
    method BlockStep(offset: int, current: int, ghost e0: seq<bool>, ghost f0: seq<Option<FrameState<V>>>,
                     ghost q0: seq<WorkItem<V>>, ghost u0: nat, ghost entry: FrameState<V>)
      returns (out: Outcome, exit: bool, next: int)
      requires Valid() && InBlock(offset, current, e0, f0, q0, u0) && !evaluated[current]
      requires Traced(State(), queue, current, entry)
      modifies this, evaluated, status, framesBefore, framesAfter
      ensures out.Pass? ==> Traced(State(), queue, cursor, entry)
      ensures out.Pass? && exit ==> InBlock(offset, current, e0, f0, q0, u0) && evaluated[current]
      ensures out.Pass? && !exit ==> InBlock(offset, next, e0, f0, q0, u0)
      ensures out.Pass? ==> Unevaluated(evaluated[..]) < old(Unevaluated(evaluated[..]))
    {
      MarkDecreases(evaluated[..], current);
      out, exit, next := EvaluateStep(current, entry);
      if out.Pass? {
        KeepSeeded();
        forall p | 0 <= p < |code.at| && e0[p]
          ensures evaluated[p] && framesBefore[p] == f0[p]
        {
          assert old(evaluated[p]) && old(framesBefore[p]) == f0[p];
          assert evaluated[p] == old(evaluated[..])[current := true][p];
        }
        assert evaluated[offset] == old(evaluated[..])[current := true][offset];
      }
    }

    /** The entry and the handlers stay entered while reached offsets stay
        reached and flags stay set. */
    twostate lemma KeepSeeded()
      requires Valid() && old(Seeded()) && ReachedKept() && FlagsKept()
      ensures Seeded()
    {
      assert old(Reached(0));
      forall k | 0 <= k < |exceptionTable|
        ensures Entered(exceptionTable[k].handlerPC, false)
      {
        assert old(Reached(exceptionTable[k].handlerPC));
      }
    }

    /** `evaluateBasicBlock`: from `offset`, evaluates instruction after
        instruction (frame updater, then block analyser) until one ends the
        block or the next one was already evaluated; the frame after an
        instruction becomes the frame before the next unless that one was
        already evaluated. */
    method EvaluateBasicBlock(offset: int, ghost entry: FrameState<V>) returns (out: Outcome)
      requires Valid() && Consistent() && Seeded()
      requires 0 <= offset < |code.at| && !evaluated[offset] && framesBefore[offset].Some? && cursor == offset
      requires Traced(State(), queue, offset, entry)
      modifies this, evaluated, status, framesBefore, framesAfter
      ensures out.Pass? ==> Traced(State(), queue, -1, entry)
      ensures out.Pass? ==> Consistent() && Seeded() && evaluated[offset] && cursor == -1
      ensures out.Pass? ==> Unevaluated(evaluated[..]) < old(Unevaluated(evaluated[..]))
      ensures out.Pass? ==> old(queue) <= queue
      ensures out.Pass? ==> forall p :: 0 <= p < |code.at| && old(evaluated[p]) ==>
        evaluated[p] && framesBefore[p] == old(framesBefore[p])
      ensures out.Pass? ==> framesBefore[offset] == old(framesBefore[offset])
    {
      ghost var e0, f0, q0, u0 := evaluated[..], framesBefore[..], queue, Unevaluated(evaluated[..]);
      var current := offset;
      while !evaluated[current]
        invariant InBlock(offset, current, e0, f0, q0, u0)
        invariant Traced(State(), queue, current, entry)
        decreases Unevaluated(evaluated[..])
      {
        var exit, next;
        out, exit, next := BlockStep(offset, current, e0, f0, q0, u0, entry);
        if out.Fail? {
          return;
        }
        if exit {
          break;
        }
        current := next;
      }
      Settled(State(), queue, current, entry);
      EndBlock();
      out := Pass;
    }

    /** The end of a block walk: no offset is under evaluation any more. */
    method EndBlock()
      requires Valid() && Consistent() && Seeded() && 0 <= cursor < |code.at| && evaluated[cursor]
      modifies this
      ensures cursor == -1 && queue == old(queue)
      ensures Consistent() && Seeded()
    {
      cursor := -1;
      KeepReached();
      KeepClosed(-1);
    }

    /** The exception handlers of the table queued in reverse order, each
        flagged as a block entry and a handler; the first handler outside
        the code stops the loop. */
    method EnqueueHandlers() returns (out: Outcome)
      requires Valid() && Fresh()
      modifies this, status
      ensures out.Pass? <==> forall k :: 0 <= k < |exceptionTable| ==> 0 <= exceptionTable[k].handlerPC < |code.at|
      ensures out.Pass? ==> queue == HandlerItems(Reversed(exceptionTable)) && cursor == -1
      ensures out.Pass? ==> forall k :: 0 <= k < |exceptionTable| ==>
        IsFlagSet(status[exceptionTable[k].handlerPC], BLOCK_ENTRY) &&
        IsFlagSet(status[exceptionTable[k].handlerPC], EXCEPTION_HANDLER)
      ensures forall o :: 0 <= o < |code.at| ==> !IsFlagSet(status[o], BLOCK_EXIT)
    {
      var handlers := Reversed(exceptionTable);
      for j := 0 to |handlers|
        invariant queue == HandlerItems(handlers[..j]) && cursor == -1
        invariant forall k :: 0 <= k < j ==>
          0 <= handlers[k].handlerPC < |code.at| &&
          IsFlagSet(status[handlers[k].handlerPC], BLOCK_ENTRY) && IsFlagSet(status[handlers[k].handlerPC], EXCEPTION_HANDLER)
        invariant forall o :: 0 <= o < |code.at| ==> !IsFlagSet(status[o], BLOCK_EXIT)
      {
        out := EnqueueExceptionHandler(handlers[j]);
        if out.Fail? {
          assert handlers[j] == exceptionTable[|exceptionTable| - 1 - j];
          return;
        }
        assert HandlerItems<V>(handlers[..j + 1]) == HandlerItems<V>(handlers[..j]) + [Handler(handlers[j])];
      }
      assert handlers[..|handlers|] == handlers;
      forall k | 0 <= k < |exceptionTable|
        ensures 0 <= exceptionTable[k].handlerPC < |code.at| &&
          IsFlagSet(status[exceptionTable[k].handlerPC], BLOCK_ENTRY) &&
          IsFlagSet(status[exceptionTable[k].handlerPC], EXCEPTION_HANDLER)
      {
        assert handlers[|exceptionTable| - 1 - k] == exceptionTable[k];
      }
      out := Pass;
    }

    /** The start of `evaluateCode`: the initial frame, the exception
        handlers queued in reverse table order, then the entry block, which
        is therefore taken first. */
    method Seed(m: MethodInfo) returns (r: Result<FrameState<V>>)
      requires Valid() && Fresh()
      modifies this, status
      ensures r.Success? <==>
        InitialFrame(d, m, uninitializedThis(m.classType)).Success? && 0 < |code.at| &&
        forall k :: 0 <= k < |exceptionTable| ==> 0 <= exceptionTable[k].handlerPC < |code.at|
      ensures r.Success? ==> r == InitialFrame(d, m, uninitializedThis(m.classType))
      ensures r.Success? ==> queue == HandlerItems(Reversed(exceptionTable)) + [Block(0, r.value)]
      ensures r.Success? ==> Consistent() && Seeded() && cursor == -1
    {
      r := SetupInitialFrame(m);
      if r.Failure? {
        return;
      }
      var out := EnqueueHandlers();
      if out.Fail? {
        return Failure(out.error);
      }
      ghost var handlers := Reversed(exceptionTable);
      out := EnqueueBasicBlock(0, r.value);
      if out.Fail? {
        return Failure(out.error);
      }
      forall k | 0 <= k < |exceptionTable|
        ensures Entered(exceptionTable[k].handlerPC, false) && IsFlagSet(status[exceptionTable[k].handlerPC], EXCEPTION_HANDLER)
      {
        var j := |exceptionTable| - 1 - k;
        assert handlers[j] == exceptionTable[k];
        assert Offsets(queue)[j] == exceptionTable[k].handlerPC;
      }
      assert Offsets(queue)[|queue| - 1] == 0;
    }

    /** The offset 0 is evaluated with the frame it was queued with, or
        waits as the last queue entry. */
    ghost predicate EntryPending(entry: FrameState<V>)
      requires Valid() && 0 < |code.at|
      reads this, evaluated, framesBefore
    {
      (evaluated[0] ==> framesBefore[0] == Some(entry)) &&
      (!evaluated[0] ==> queue != [] && queue[|queue| - 1] == Block(0, entry))
    }

    /** One turn of the queue loop of `evaluateCode`: takes the last entry,
        and when its offset is not evaluated yet sets up its frame and
        evaluates its block. */
    method TakeNext(ghost entry: FrameState<V>) returns (out: Outcome)
      requires Valid() && Consistent() && cursor == -1 && 0 < |code.at| && queue != []
      requires EntryPending(entry) && Seeded() && Traced(State(), queue, -1, entry)
      modifies this, evaluated, status, framesBefore, framesAfter
      ensures out.Pass? ==> Consistent() && cursor == -1 && EntryPending(entry)
      ensures out.Pass? ==> Seeded() && Traced(State(), queue, -1, entry)
      ensures out.Pass? ==>
        Unevaluated(evaluated[..]) < old(Unevaluated(evaluated[..])) ||
        (Unevaluated(evaluated[..]) == old(Unevaluated(evaluated[..])) && |queue| < old(|queue|))
    {
      var item := TakeLast(entry);
      if !evaluated[item.Offset()] {
        out := StartBlock(item, entry);
      } else {
        label Skipped:
        cursor := -1;
        KeepReached@Skipped();
        KeepClosed@Skipped(-1);
        out := Pass;
      }
    }

    /** Takes the last queue entry, whose offset becomes the cursor. */
    method TakeLast(ghost entry: FrameState<V>) returns (item: WorkItem<V>)
      requires Valid() && Consistent() && cursor == -1 && 0 < |code.at| && queue != []
      requires EntryPending(entry) && Seeded() && Traced(State(), queue, -1, entry)
      modifies this
      ensures item == old(queue)[|old(queue)| - 1] && queue == old(queue)[..|old(queue)| - 1]
      ensures Traced(State(), queue, -1, entry) && ItemSourced(State(), item, entry)
      ensures cursor == item.Offset() && 0 <= item.Offset() < |code.at|
      ensures Consistent() && Seeded()
      ensures evaluated[0] ==> framesBefore[0] == Some(entry)
      ensures !evaluated[0] ==> item == Block(0, entry)
    {
      item := queue[|queue| - 1];
      cursor := item.Offset();
      queue := queue[..|queue| - 1];
      KeepReachedTaken(item.Offset());
      KeepClosed(-1);
    }

    /** The taken entry's offset is not evaluated yet: its frame is set up
        and its block evaluated. */
    method StartBlock(item: WorkItem<V>, ghost entry: FrameState<V>) returns (out: Outcome)
      requires Valid() && Consistent() && Seeded() && 0 < |code.at|
      requires 0 <= item.Offset() < |code.at| && !evaluated[item.Offset()] && cursor == item.Offset()
      requires evaluated[0] ==> framesBefore[0] == Some(entry)
      requires !evaluated[0] ==> item == Block(0, entry)
      requires Traced(State(), queue, -1, entry) && ItemSourced(State(), item, entry)
      modifies this, evaluated, status, framesBefore, framesAfter
      ensures out.Pass? ==> Consistent() && cursor == -1 && EntryPending(entry) && Seeded()
      ensures out.Pass? ==> Unevaluated(evaluated[..]) < old(Unevaluated(evaluated[..]))
      ensures out.Pass? ==> Traced(State(), queue, -1, entry)
    {
      ghost var t0 := State();
      out := SetupFrame(item);
      if out.Fail? {
        return;
      }
      assert framesBefore[0] == Some(entry);
      SetupTraced(t0, State(), queue, item, entry);
      out := EvaluateBasicBlock(item.Offset(), entry);
    }

    /** The queue loop of `evaluateCode`, until the queue is empty. */
    method Drain(ghost entry: FrameState<V>) returns (out: Outcome)
      requires Valid() && Consistent() && cursor == -1 && 0 < |code.at|
      requires EntryPending(entry) && Seeded() && Traced(State(), queue, -1, entry)
      modifies this, evaluated, status, framesBefore, framesAfter
      ensures out.Pass? ==> Consistent() && queue == [] && cursor == -1
      ensures out.Pass? ==> Seeded()
      ensures out.Pass? ==> evaluated[0] && framesBefore[0] == Some(entry)
      ensures out.Pass? ==> forall s :: 0 <= s < |code.at| && evaluated[s] ==> Sourced(State(), s, entry)
    {
      while queue != []
        invariant Consistent() && cursor == -1 && EntryPending(entry)
        invariant Seeded() && Traced(State(), queue, -1, entry)
        decreases Unevaluated(evaluated[..]), |queue|
      {
        out := TakeNext(entry);
        if out.Fail? {
          return;
        }
      }
      out := Pass;
    }
  
    /** The closure the worklist reaches: every evaluated instruction has
        its frame after computed, `BLOCK_EXIT` exactly when it ends a block,
        an evaluated next instruction when it does not, and evaluated
        successors flagged as block entries and, when branch targets, as
        branch targets. */
    ghost predicate Complete()
      requires Valid()
      reads evaluated, status, framesBefore, framesAfter
    {
      forall o :: 0 <= o < |code.at| && evaluated[o] ==> CompleteAt(o)
    }

    ghost predicate CompleteAt(o: int)
      requires Valid() && 0 <= o < |code.at|
      reads evaluated, status, framesBefore, framesAfter
    {
      Computed(o) &&
      var (i, length) := code.at[o].value;
      var succ := Successors(i, o, length);
      (IsBlockExit(i) <==> IsFlagSet(status[o], BLOCK_EXIT)) &&
      (!IsBlockExit(i) ==> 0 <= o + length < |code.at| && evaluated[o + length]) &&
      forall k :: 0 <= k < |succ| ==>
        0 <= succ[k].offset < |code.at| && evaluated[succ[k].offset] &&
        IsFlagSet(status[succ[k].offset], BLOCK_ENTRY) &&
        (succ[k].isBranchTarget ==> IsFlagSet(status[succ[k].offset], BRANCH_TARGET))
    }

    /** With the queue empty and no block under way, the worklist invariant
        is the closure. */
    lemma Completed()
      requires Valid() && Consistent() && queue == [] && cursor == -1
      ensures Complete()
    {
      forall o | 0 <= o < |code.at| && evaluated[o]
        ensures CompleteAt(o)
      {
        assert Computed(o) && Closed(o);
      }
    }

    /** Once the closure holds and the entry and every handler are
        evaluated, the end of every path from them is evaluated. */
    lemma {:induction false} PathEvaluated(path: seq<int>)
      requires Valid() && Complete() && 0 < |code.at| && evaluated[0]
      requires forall k :: 0 <= k < |exceptionTable| ==>
        0 <= exceptionTable[k].handlerPC < |code.at| && evaluated[exceptionTable[k].handlerPC]
      requires IsPath(code, exceptionTable, path)
      ensures 0 <= path[|path| - 1] < |code.at| && evaluated[path[|path| - 1]]
    {
      var n := |path|;
      if n > 1 {
        var prefix := path[..n - 1];
        assert IsPath(code, exceptionTable, prefix) by {
          forall j | 0 < j < |prefix|
            ensures prefix[j] in Edges(code, prefix[j - 1])
          {
            assert prefix[j] == path[j] && prefix[j - 1] == path[j - 1];
          }
        }
        PathEvaluated(prefix);
        assert path[n - 1] in Edges(code, path[n - 2]);
        EdgeEvaluated(path[n - 2], path[n - 1]);
      }
    }

    /** Following one edge from an evaluated offset leads to an evaluated
        offset. */
    lemma EdgeEvaluated(p: int, s: int)
      requires Valid() && 0 <= p < |code.at| && evaluated[p] && CompleteAt(p) && s in Edges(code, p)
      ensures 0 <= s < |code.at| && evaluated[s]
    {
      var i, length := code.at[p].value.0, code.at[p].value.1;
      var succ := Successors(i, p, length);
      var fall := if IsBlockExit(i) then [] else [p + length];
      EdgesAt(code, p);
      if s !in fall {
        var k :| 0 <= k < |succ| && SuccessorOffsets(succ)[k] == s;
        assert succ[k].offset == s;
      }
    }

    /** The evaluated offsets below `n` flagged as branch targets, in
        ascending order. */
    ghost function BranchTargets(n: int): seq<int>
      requires Valid() && 0 <= n <= |code.at|
      reads evaluated, status
    {
      if n == 0 then []
      else BranchTargets(n - 1) + (if evaluated[n - 1] && IsFlagSet(status[n - 1], BRANCH_TARGET) then [n - 1] else [])
    }

    /** The branch targets below `n` are exactly the evaluated offsets below
        `n` with the flag set, each once and in ascending order. */
    lemma {:induction false} BranchTargetsExactly(n: int)
      requires Valid() && 0 <= n <= |code.at|
      ensures forall k :: 0 <= k < |BranchTargets(n)| ==>
        0 <= BranchTargets(n)[k] < n && evaluated[BranchTargets(n)[k]] && IsFlagSet(status[BranchTargets(n)[k]], BRANCH_TARGET)
      ensures forall o :: 0 <= o < n && evaluated[o] && IsFlagSet(status[o], BRANCH_TARGET) ==> o in BranchTargets(n)
      ensures forall j, k :: 0 <= j < k < |BranchTargets(n)| ==> BranchTargets(n)[j] < BranchTargets(n)[k]
    {
      if n > 0 {
        BranchTargetsExactly(n - 1);
        var before := BranchTargets(n - 1);
        assert forall k :: 0 <= k < |before| ==> BranchTargets(n)[k] == before[k];
      }
    }

    lemma BranchTargetsNext(o: int)
      requires Valid() && 0 <= o < |code.at|
      ensures BranchTargets(o + 1) == BranchTargets(o) + (if evaluated[o] && IsFlagSet(status[o], BRANCH_TARGET) then [o] else [])
    {
    }

    /** Each frame in `described` is the frame before the offset at the same
        position in `targets`. */
    ghost predicate FramesAt(targets: seq<int>, described: seq<FrameState<V>>)
      requires Valid()
      reads framesBefore
    {
      |described| == |targets| &&
      forall k :: 0 <= k < |targets| ==> 0 <= targets[k] < |code.at| && Some(described[k]) == framesBefore[targets[k]]
    }

    lemma FramesAtAppend(targets: seq<int>, described: seq<FrameState<V>>, o: int, f: FrameState<V>)
      requires Valid() && FramesAt(targets, described) && 0 <= o < |code.at| && framesBefore[o] == Some(f)
      ensures FramesAt(targets + [o], described + [f])
    {
    }

    /** What the queue part of `evaluateCode` establishes: the entry block
        was evaluated from the initial frame, every exception handler was
        evaluated and flagged, the evaluated offsets are closed under the
        block analyser's successors with their frames computed, the frame
        before every evaluated offset is the initial frame, the frame after
        an evaluated offset that continues to it or a handler frame, and
        every path from the entry or a handler ends at an evaluated
        offset. */
    ghost predicate Evaluated(m: MethodInfo)
      requires Valid()
      reads evaluated, status, framesBefore, framesAfter
    {
      InitialFrame(d, m, uninitializedThis(m.classType)).Success? && 0 < |code.at| &&
      evaluated[0] && framesBefore[0] == Some(InitialFrame(d, m, uninitializedThis(m.classType)).value) &&
      (forall k :: 0 <= k < |exceptionTable| ==>
        var h := exceptionTable[k].handlerPC;
        0 <= h < |code.at| && evaluated[h] && IsFlagSet(status[h], BLOCK_ENTRY) && IsFlagSet(status[h], EXCEPTION_HANDLER)) &&
      Complete() && ExitsFlagged() && FramesComputed() &&
      (forall s :: 0 <= s < |code.at| && evaluated[s] ==> Sourced(State(), s, InitialFrame(d, m, uninitializedThis(m.classType)).value)) &&
      forall path :: IsPath(code, exceptionTable, path) ==> 0 <= path[|path| - 1] < |code.at| && evaluated[path[|path| - 1]]
    }

    /** What the processors rely on: the entry offset is evaluated and every
        evaluated offset has its frames computed. */
    lemma EvaluatedEntry(m: MethodInfo)
      requires Valid() && Evaluated(m)
      ensures FramesComputed() && 0 < |code.at| && evaluated[0]
    {
    }

    /** Code that leaves the four arrays alone keeps the analysis. */
    twostate lemma EvaluatedKept(m: MethodInfo)
      requires Valid() && old(Evaluated(m))
      requires unchanged(evaluated, status, framesBefore, framesAfter)
      ensures Evaluated(m)
    {
    }

    /** `evaluateCode` up to the processors: the initial frame, the seeded
        queue, and the queue loop until it is empty. */
    method EvaluateFrames(m: MethodInfo) returns (out: Outcome)
      requires Valid() && Fresh()
      modifies this, evaluated, status, framesBefore, framesAfter
      ensures out.Pass? ==> Evaluated(m)
    {
      ghost var t := State();
      var initial := Seed(m);
      if initial.Failure? {
        return Fail(initial.error);
      }
      SeedTraced(t, queue, initial.value);
      out := Drain(initial.value);
      if out.Fail? {
        return;
      }
      Completed();
      assert Seeded();
      forall path | IsPath(code, exceptionTable, path)
        ensures 0 <= path[|path| - 1] < |code.at| && evaluated[path[|path| - 1]]
      {
        PathEvaluated(path);
      }
      assert FramesComputed() by {
        forall o | 0 <= o < |code.at| && evaluated[o]
          ensures Computed(o)
        {
          assert CompleteAt(o);
        }
      }
    }
  }
}
