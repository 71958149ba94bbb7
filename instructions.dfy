/** The instructions the analyzers dispatch on, one variant per visitor
    category of the instruction hierarchy. Decoding bytecode and parsing
    descriptors are not part of this model: an instruction carries its class
    types, its descriptor's parameter and return types, and its branch
    offsets already resolved. */
module Instructions {
  import opened Wrappers
  import opened JvmTypes
  import opened Constants
  import opened StackShuffles

  datatype BasicOp = NOP | ACONST_NULL | ATHROW | MONITORENTER | MONITOREXIT | OtherBasic

  /** `isLoadInstruction` / `isStoreInstruction` (the verifier tests the
      mnemonic for "load" and "store"); `ret` is neither. */
  datatype VariableKind = LoadVariable | StoreVariable | OtherVariable

  /** The primitive kind an arithmetic, conversion, literal or array-load
      instruction produces: `i`, `l`, `f` or `d`. */
  datatype NumericKind = IntKind | LongKind | FloatKind | DoubleKind

  /** The constant an `ldc`, `ldc_w` or `ldc2_w` loads. Float and double
      constants are not modelled beyond their kind. */
  datatype Loadable = DoubleLoadable | FloatLoadable | PoolConstant(constant: Constant)

  datatype ArrayOp =
    | ARRAYLENGTH
    | ArrayStore                      // aastore, bastore, …, iastore
    | AALOAD
    | ArrayLoad(kind: NumericKind)    // baload, saload, caload and iaload load an int

  datatype ClassOp = NEW | CHECKCAST | INSTANCEOF
  datatype FieldOp = GETFIELD | GETSTATIC | PUTFIELD | PUTSTATIC
  datatype InvokeOp = INVOKEVIRTUAL | INVOKESPECIAL | INVOKESTATIC

  /** `if_acmp*` and `if_icmp*` compare two values, `if*` and `ifnull` /
      `ifnonnull` one; `jsr` and `jsr_w` have no rule. */
  datatype BranchOp = IfCompareTwo | IfCompareOne | GOTO | OtherBranch

  datatype Instruction =
    | Basic(basicOp: BasicOp)
    | Stack(stackOp: StackOp)
    | LiteralVariable                                       // iinc
    | Variable(variableKind: VariableKind, variable: int)
    | LiteralConstant(loaded: Loadable)
    | Literal(literalKind: NumericKind)                     // xconst_n, bipush, sipush
    | Array(arrayOp: ArrayOp)
    | ArrayPrimitiveType(arrayType: JvmType)                // newarray
    | ANEWARRAY(componentClass: JvmType)
    | MULTIANEWARRAY(dimensions: nat, arrayClass: JvmType)
    | Class(classOp: ClassOp, classType: JvmType)
    | Field(fieldOp: FieldOp, fieldType: JvmType)
    | Method(invokeOp: InvokeOp, methodName: string, parameters: seq<JvmType>, returnType: JvmType)
    | InterfaceMethod(parameters: seq<JvmType>, returnType: JvmType)
    | InvokeDynamic(parameters: seq<JvmType>, returnType: JvmType)
    | Branch(branchOp: BranchOp, branchOffset: int)
    | Conversion(target: NumericKind)
    | Compare
    | Arithmetic(resultKind: NumericKind, unary: bool)
    | Switch(defaultOffset: int, caseOffsets: seq<int>)
    | Return(isVoidReturn: bool)
    | Unsupported                                           // categories without a visitor method

  /** Whether the instruction ends a basic block: branches, switches,
      `athrow` and returns (the block analyser's `BLOCK_EXIT`). */
  predicate IsBlockExit(i: Instruction) {
    i.Branch? || i.Switch? || i.Return? || i == Basic(ATHROW)
  }

  /** A successor the block analyser enqueues, with whether it is a branch
      target (flag `BRANCH_TARGET`) or only a block entry. */
  datatype Successor = Successor(offset: int, isBranchTarget: bool)

  /** The successors enqueued after the instruction at `offset` of length
      `length`, in enqueue order: for a conditional branch the fall-through
      then the target; for `goto` only the target; for a switch the default
      then every case. */
  function Successors(i: Instruction, offset: int, length: int): (r: seq<Successor>)
    ensures i.Branch? && i.branchOp == GOTO ==> r == [Successor(offset + i.branchOffset, true)]
    ensures i.Branch? && i.branchOp != GOTO ==>
      r == [Successor(offset + length, false), Successor(offset + i.branchOffset, true)]
    ensures i.Switch? ==> |r| == 1 + |i.caseOffsets| && forall k :: 0 <= k < |r| ==> r[k].isBranchTarget
    ensures i.Switch? ==> r[0] == Successor(offset + i.defaultOffset, true)
    ensures i.Switch? ==>
      forall k :: 0 <= k < |i.caseOffsets| ==> r[k + 1] == Successor(offset + i.caseOffsets[k], true)
    ensures !i.Branch? && !i.Switch? ==> r == []
  {
    match i
    case Branch(op, target) =>
      if op == GOTO then [Successor(offset + target, true)]
      else [Successor(offset + length, false), Successor(offset + target, true)]
    case Switch(d, cases) => [Successor(offset + d, true)] + CaseSuccessors(offset, cases)
    case _ => []
  }

  function CaseSuccessors(offset: int, cases: seq<int>): (r: seq<Successor>)
    ensures |r| == |cases|
    ensures forall k :: 0 <= k < |r| ==> r[k] == Successor(offset + cases[k], true)
  {
    if cases == [] then [] else CaseSuccessors(offset, cases[..|cases| - 1]) + [Successor(offset + cases[|cases| - 1], true)]
  }

  /** The code of a method: at each offset, the decoded instruction and its
      length, or nothing where no instruction starts. */
  datatype Code = Code(at: seq<Option<(Instruction, nat)>>)
  {
    function Length(): nat { |at| }
  }

  /** An exception table entry; `catchType == 0` catches everything, and
      otherwise `caughtClass` is the class the entry's class constant names. */
  datatype ExceptionEntry = ExceptionEntry(startPC: int, handlerPC: int, catchType: int, caughtClass: JvmType)

  /** The type a handler's frame starts with on its stack. */
  function CaughtType(e: ExceptionEntry): (t: JvmType)
    ensures e.catchType == 0 ==> t == JAVA_LANG_THROWABLE_TYPE
    ensures e.catchType != 0 ==> t == e.caughtClass
  {
    if e.catchType == 0 then JAVA_LANG_THROWABLE_TYPE else e.caughtClass
  }
}
