/** The frame updater of both analyzers, as a pure rule per instruction
    category: from the frame before an instruction, the frame after it or
    the exception the updater ends with. The two analyzers differ only in
    their value domain, so the rules are written once over a `Domain`: the
    values the value factory (or `VariableType`) creates, the category test,
    the `aaload` array check and what `referenceInitialized` does. */
module FrameUpdates {
  import opened Wrappers
  import opened JvmTypes
  import opened Constants
  import opened StackShuffles
  import opened FrameStates
  import opened Instructions

  datatype Domain<!V> = Domain(
    top: V,
    integer: V,
    float: V,
    long: V,
    double: V,
    nullReference: V,
    reference: JvmType -> V,
    uninitialized: (JvmType, int) -> V,
    category2: V -> bool,
    /** The component type of the array an `aaload` reads, or the failed
        check. */
    componentOf: V -> Result<JvmType>,
    /** `referenceInitialized` after an `<init>` call, given the frame
        without the receiver and the receiver. */
    initialize: (FrameState<V>, V) -> Result<FrameState<V>>)

  /** `createValueFor` / `VariableType.of`: the value of a JVM type; `void`
      has none. */
  function ValueFor<V>(d: Domain<V>, t: JvmType): (r: Result<V>)
    ensures r.Success? <==> !t.IsVoidType()
    ensures t.IsReferenceType() ==> r == Success(d.reference(t))
    ensures t == LongT || t == DoubleT ==> r == Success(if t == LongT then d.long else d.double)
    ensures t == FloatT ==> r == Success(d.float)
    ensures t in {ByteT, ShortT, CharT, BooleanT, IntT} ==> r == Success(d.integer)
  {
    if t.IsReferenceType() then Success(d.reference(t))
    else if t.IsPrimitiveType() then
      match t
      case FloatT => Success(d.float)
      case LongT => Success(d.long)
      case DoubleT => Success(d.double)
      case _ => Success(d.integer)
    else Failure("IllegalStateException")
  }

  function KindValue<V>(d: Domain<V>, k: NumericKind): V {
    match k
    case IntKind => d.integer
    case LongKind => d.long
    case FloatKind => d.float
    case DoubleKind => d.double
  }

  /** Pops `count` values and pushes `v`. */
  function Replace<V>(f: FrameState<V>, count: nat, v: V): Result<FrameState<V>> {
    var g :- PopN(f, count);
    Success(Push(g, v))
  }

  // ---------------------------------------------------------------------------
  // One rule per visitor method.

  function BasicUpdate<V>(d: Domain<V>, op: BasicOp, f: FrameState<V>): Result<FrameState<V>> {
    match op
    case NOP => Success(f)
    case ACONST_NULL => Success(Push(f, d.nullReference))
    case ATHROW =>
      var thrown :- Peek(f);
      Success(Push(ClearStack(f), thrown))
    case MONITORENTER => PopN(f, 1)
    case MONITOREXIT => PopN(f, 1)
    case OtherBasic => Failure("IllegalStateException")
  }

  function StackUpdate<V>(d: Domain<V>, op: StackOp, f: FrameState<V>): Result<FrameState<V>> {
    var s :- Shuffle(op, f.stack, d.category2);
    Success(f.(stack := s))
  }

  function VariableUpdate<V(==)>(d: Domain<V>, kind: VariableKind, i: int, f: FrameState<V>): Result<FrameState<V>> {
    match kind
    case LoadVariable =>
      var v :- Load(f, i, d.top);
      Success(Push(f, v))
    case StoreVariable =>
      var popped :- Pop(f);
      Store(popped.1, i, popped.0, d.top, d.category2)
    case OtherVariable => Failure("NotImplementedError")
  }

  /** The value an `ldc` pushes: `String` for a string constant, the
      constant's own kind for long, float and double, and an int for every
      other constant. */
  function LoadedValue<V>(d: Domain<V>, c: Loadable): V {
    match c
    case DoubleLoadable => d.double
    case FloatLoadable => d.float
    case PoolConstant(LongConstant(_)) => d.long
    case PoolConstant(StringConstant(_)) => d.reference(JAVA_LANG_STRING_TYPE)
    case PoolConstant(_) => d.integer
  }

  /** As written, the test for the `String` case asks for a UTF-8 constant,
      which `ldc` never loads. */
  function LoadedValueAsWritten<V>(d: Domain<V>, c: Loadable): V {
    match c
    case DoubleLoadable => d.double
    case FloatLoadable => d.float
    case PoolConstant(LongConstant(_)) => d.long
    case PoolConstant(Utf8Constant(_)) => d.reference(JAVA_LANG_STRING_TYPE)
    case PoolConstant(_) => d.integer
  }

  function ArrayUpdate<V>(d: Domain<V>, op: ArrayOp, f: FrameState<V>): Result<FrameState<V>> {
    match op
    case ARRAYLENGTH => Replace(f, 1, d.integer)
    case ArrayStore => PopN(f, 3)
    case AALOAD =>
      var g :- PopN(f, 1);
      var arrayRef :- Pop(g);
      var component :- d.componentOf(arrayRef.0);
      Success(Push(arrayRef.1, d.reference(component)))
    case ArrayLoad(k) => Replace(f, 2, KindValue(d, k))
  }

  function ClassUpdate<V>(d: Domain<V>, op: ClassOp, t: JvmType, offset: int, f: FrameState<V>): Result<FrameState<V>> {
    match op
    case NEW => Success(Push(f, d.uninitialized(t, offset)))
    case CHECKCAST => Replace(f, 1, d.reference(t))
    case INSTANCEOF => Replace(f, 1, d.integer)
  }

  function FieldUpdate<V>(d: Domain<V>, op: FieldOp, t: JvmType, f: FrameState<V>): Result<FrameState<V>> {
    match op
    case GETFIELD =>
      var g :- PopN(f, 1);
      var v :- ValueFor(d, t);
      Success(Push(g, v))
    case GETSTATIC =>
      var v :- ValueFor(d, t);
      Success(Push(f, v))
    case PUTFIELD => PopN(f, 2)
    case PUTSTATIC => PopN(f, 1)
  }

  /** Pushes the value of the return type unless it is `void`. */
  function PushResult<V>(d: Domain<V>, f: FrameState<V>, returnType: JvmType): Result<FrameState<V>> {
    if returnType.IsVoidType() then Success(f)
    else
      var v :- ValueFor(d, returnType);
      Success(Push(f, v))
  }

  /** Pops the arguments (and the receiver, when counted in `pops`) and
      pushes the result. */
  function Call<V>(d: Domain<V>, f: FrameState<V>, pops: nat, returnType: JvmType): Result<FrameState<V>> {
    var g :- PopN(f, pops);
    PushResult(d, g, returnType)
  }

  function MethodUpdate<V>(d: Domain<V>, op: InvokeOp, name: string, parameters: seq<JvmType>, returnType: JvmType,
                           f: FrameState<V>): Result<FrameState<V>> {
    var g :- PopN(f, |parameters|);
    var h :- (
      match op
      case INVOKESTATIC => Success(g)
      case INVOKESPECIAL =>
        if name == "<init>" then
          var receiver :- Pop(g);
          d.initialize(receiver.1, receiver.0)
        else PopN(g, 1)
      case INVOKEVIRTUAL => PopN(g, 1));
    PushResult(d, h, returnType)
  }

  function BranchUpdate<V>(op: BranchOp, f: FrameState<V>): Result<FrameState<V>> {
    match op
    case IfCompareTwo => PopN(f, 2)
    case IfCompareOne => PopN(f, 1)
    case GOTO => Success(f)
    case OtherBranch => Failure("NotImplementedError")
  }

  function ArithmeticUpdate<V>(d: Domain<V>, k: NumericKind, unary: bool, f: FrameState<V>): Result<FrameState<V>> {
    Replace(f, if unary then 1 else 2, KindValue(d, k))
  }

  /** As written, the unary case has no `fneg`, so `fneg` ends in an error. */
  function ArithmeticUpdateAsWritten<V>(d: Domain<V>, k: NumericKind, unary: bool, f: FrameState<V>): Result<FrameState<V>> {
    if unary && k == FloatKind then Failure("IllegalStateException")
    else ArithmeticUpdate(d, k, unary, f)
  }

  /** The frame after instruction `i` at `offset`, from the frame before it.
      Only a load or store and an `<init>` call can change the locals, and an
      instruction without a rule fails. */
  function Update<V(==)>(d: Domain<V>, i: Instruction, offset: int, f: FrameState<V>): (r: Result<FrameState<V>>)
    ensures r.Success? && !i.Variable? && !(i.Method? && i.methodName == "<init>") ==> r.value.variables == f.variables
    ensures i.Unsupported? ==> r.Failure?
  {
    match i
    case Basic(op) => BasicUpdate(d, op, f)
    case Stack(op) => StackUpdate(d, op, f)
    case LiteralVariable => Success(f)
    case Variable(kind, v) => VariableUpdate(d, kind, v, f)
    case LiteralConstant(c) => Success(Push(f, LoadedValue(d, c)))
    case Literal(k) => Success(Push(f, KindValue(d, k)))
    case Array(op) => ArrayUpdate(d, op, f)
    case ArrayPrimitiveType(t) => Replace(f, 1, d.reference(t))
    case ANEWARRAY(c) => Replace(f, 1, d.reference(ArrayT(c)))
    case MULTIANEWARRAY(n, t) => Replace(f, n, d.reference(t))
    case Class(op, t) => ClassUpdate(d, op, t, offset, f)
    case Field(op, t) => FieldUpdate(d, op, t, f)
    case Method(op, name, ps, r) => MethodUpdate(d, op, name, ps, r, f)
    case InterfaceMethod(ps, r) => Call(d, f, |ps| + 1, r)
    case InvokeDynamic(ps, r) => Call(d, f, |ps|, r)
    case Branch(op, _) => BranchUpdate(op, f)
    case Conversion(k) => Replace(f, 1, KindValue(d, k))
    case Compare => Replace(f, 2, d.integer)
    case Arithmetic(k, unary) => ArithmeticUpdate(d, k, unary, f)
    case Switch(_, _) => PopN(f, 1)
    case Return(isVoid) => if isVoid then Success(f) else PopN(f, 1)
    case Unsupported => Failure("NotImplementedError")
  }

  /** The updater as written: `dup_x2`, `fneg` and the `String` case of
      `ldc` differ from `Update`. */
  function UpdateAsWritten<V(==)>(d: Domain<V>, i: Instruction, offset: int, f: FrameState<V>): (r: Result<FrameState<V>>)
    ensures r.Success? && !i.Variable? && !(i.Method? && i.methodName == "<init>") ==> r.value.variables == f.variables
    ensures i == Arithmetic(FloatKind, true) ==> r.Failure?
    ensures i == Stack(DUP_X2) && r.Success? ==> |r.value.stack| == |f.stack| + 1
  {
    match i
    case Stack(DUP_X2) =>
      var s :- ShuffleAsWritten(DUP_X2, f.stack, d.category2);
      Success(f.(stack := s))
    case LiteralConstant(c) => Success(Push(f, LoadedValueAsWritten(d, c)))
    case Arithmetic(k, unary) => ArithmeticUpdateAsWritten(d, k, unary, f)
    case _ => Update(d, i, offset, f)
  }

  // ---------------------------------------------------------------------------
  // Stack effects.

  /** The number of values an instruction pops and pushes, as chapter 6 of
      the Java Virtual Machine Specification gives it, for every instruction
      whose effect is a fixed count; the stack shuffles, `athrow`, a call of
      `<init>` and the instructions without a rule have none. */
  function StackEffect(i: Instruction): Option<(nat, nat)> {
    match i
    case Basic(op) =>
      if op == NOP then Some((0, 0))
      else if op == ACONST_NULL then Some((0, 1))
      else if op == MONITORENTER || op == MONITOREXIT then Some((1, 0))
      else None
    case Stack(_) => None
    case LiteralVariable => Some((0, 0))
    case Variable(kind, _) =>
      if kind == LoadVariable then Some((0, 1)) else if kind == StoreVariable then Some((1, 0)) else None
    case LiteralConstant(_) => Some((0, 1))
    case Literal(_) => Some((0, 1))
    case Array(op) =>
      if op == ARRAYLENGTH then Some((1, 1)) else if op == ArrayStore then Some((3, 0)) else Some((2, 1))
    case ArrayPrimitiveType(_) => Some((1, 1))
    case ANEWARRAY(_) => Some((1, 1))
    case MULTIANEWARRAY(n, _) => Some((n, 1))
    case Class(op, _) => if op == NEW then Some((0, 1)) else Some((1, 1))
    case Field(op, _) =>
      if op == GETFIELD then Some((1, 1))
      else if op == GETSTATIC then Some((0, 1))
      else if op == PUTFIELD then Some((2, 0))
      else Some((1, 0))
    case Method(op, name, ps, r) =>
      if op == INVOKESPECIAL && name == "<init>" then None
      else Some((|ps| + (if op == INVOKESTATIC then 0 else 1), if r.IsVoidType() then 0 else 1))
    case InterfaceMethod(ps, r) => Some((|ps| + 1, if r.IsVoidType() then 0 else 1))
    case InvokeDynamic(ps, r) => Some((|ps|, if r.IsVoidType() then 0 else 1))
    case Branch(op, _) =>
      if op == IfCompareTwo then Some((2, 0))
      else if op == IfCompareOne then Some((1, 0))
      else if op == GOTO then Some((0, 0))
      else None
    case Conversion(_) => Some((1, 1))
    case Compare => Some((2, 1))
    case Arithmetic(_, unary) => Some((if unary then 1 else 2, 1))
    case Switch(_, _) => Some((1, 0))
    case Return(isVoid) => if isVoid then Some((0, 0)) else Some((1, 0))
    case Unsupported => None
  }

  /** `r` is the outcome of popping `pops` values and pushing `pushes`:
      it fails when the stack is too short, and otherwise keeps the values
      below the popped ones (and the locals, when `keepsLocals`). */
  ghost predicate Exact<V>(f: FrameState<V>, r: Result<FrameState<V>>, pops: nat, pushes: nat, keepsLocals: bool) {
    (|f.stack| < pops ==> r.Failure?) &&
    (r.Success? ==>
      pops <= |f.stack| &&
      |r.value.stack| == |f.stack| - pops + pushes &&
      r.value.stack[..|f.stack| - pops] == f.stack[..|f.stack| - pops] &&
      (keepsLocals ==> r.value.variables == f.variables))
  }

  /** Every stack effect is exact: an instruction with a fixed effect fails
      on a stack with fewer values than it pops, and otherwise keeps the
      values below the popped ones, leaves the stack `pushes - pops` longer
      and touches no local unless it is a store. */
  lemma UpdateStackEffect<V>(d: Domain<V>, i: Instruction, offset: int, f: FrameState<V>)
    requires StackEffect(i).Some?
    ensures Exact(f, Update(d, i, offset, f), StackEffect(i).value.0, StackEffect(i).value.1, !i.Variable?)
  {
    if LoadsOrAllocates(i) {
      LoadStackEffect(d, i, offset, f);
    } else {
      OperateStackEffect(d, i, offset, f);
    }
  }

  /** The instructions that load, store or allocate. */
  predicate LoadsOrAllocates(i: Instruction) {
    i.Basic? || i.LiteralVariable? || i.Variable? || i.LiteralConstant? || i.Literal? ||
    i.Array? || i.ArrayPrimitiveType? || i.ANEWARRAY? || i.MULTIANEWARRAY? || i.Class?
  }

  lemma LoadStackEffect<V>(d: Domain<V>, i: Instruction, offset: int, f: FrameState<V>)
    requires StackEffect(i).Some? && LoadsOrAllocates(i)
    ensures Exact(f, Update(d, i, offset, f), StackEffect(i).value.0, StackEffect(i).value.1, !i.Variable?)
  {
    match i
    case Basic(op) => BasicStackEffect(d, op, f);
    case LiteralVariable =>
    case Variable(kind, v) => VariableStackEffect(d, kind, v, f);
    case LiteralConstant(c) => PushStackEffect(f, LoadedValue(d, c));
    case Literal(k) => PushStackEffect(f, KindValue(d, k));
    case Array(op) => ArrayStackEffect(d, op, f);
    case ArrayPrimitiveType(t) => ReplaceStackEffect(f, 1, d.reference(t));
    case ANEWARRAY(c) => ReplaceStackEffect(f, 1, d.reference(ArrayT(c)));
    case MULTIANEWARRAY(n, t) => ReplaceStackEffect(f, n, d.reference(t));
    case Class(op, t) =>
      if op != NEW {
        ReplaceStackEffect(f, 1, if op == CHECKCAST then d.reference(t) else d.integer);
      }
    case _ => assert false;
  }

  lemma OperateStackEffect<V>(d: Domain<V>, i: Instruction, offset: int, f: FrameState<V>)
    requires StackEffect(i).Some? && !LoadsOrAllocates(i)
    ensures Exact(f, Update(d, i, offset, f), StackEffect(i).value.0, StackEffect(i).value.1, true)
  {
    match i
    case Field(op, t) => FieldStackEffect(d, op, t, f);
    case Method(op, name, ps, r) => MethodStackEffect(d, op, name, ps, r, f);
    case InterfaceMethod(ps, r) => CallStackEffect(d, |ps| + 1, r, f);
    case InvokeDynamic(ps, r) => CallStackEffect(d, |ps|, r, f);
    case Branch(op, l) => BranchStackEffect(d, op, l, f);
    case Conversion(k) => ReplaceStackEffect(f, 1, KindValue(d, k));
    case Compare => ReplaceStackEffect(f, 2, d.integer);
    case Arithmetic(k, unary) => ReplaceStackEffect(f, if unary then 1 else 2, KindValue(d, k));
    case Switch(_, _) => PopStackEffect(f, 1);
    case Return(isVoid) =>
      if !isVoid {
        PopStackEffect(f, 1);
      }
    case _ => assert false;
  }

  lemma PushStackEffect<V>(f: FrameState<V>, v: V)
    ensures Exact(f, Success(Push(f, v)), 0, 1, true)
  {
  }

  lemma PopStackEffect<V>(f: FrameState<V>, n: nat)
    ensures Exact(f, PopN(f, n), n, 0, true)
  {
  }

  lemma BasicStackEffect<V>(d: Domain<V>, op: BasicOp, f: FrameState<V>)
    requires StackEffect(Basic(op)).Some?
    ensures Exact(f, BasicUpdate(d, op, f), StackEffect(Basic(op)).value.0, StackEffect(Basic(op)).value.1, true)
  {
  }

  lemma VariableStackEffect<V>(d: Domain<V>, kind: VariableKind, v: int, f: FrameState<V>)
    requires StackEffect(Variable(kind, v)).Some?
    ensures Exact(f, VariableUpdate(d, kind, v, f), StackEffect(Variable(kind, v)).value.0,
                  StackEffect(Variable(kind, v)).value.1, false)
  {
  }

  lemma FieldStackEffect<V>(d: Domain<V>, op: FieldOp, t: JvmType, f: FrameState<V>)
    ensures Exact(f, FieldUpdate(d, op, t, f), StackEffect(Field(op, t)).value.0, StackEffect(Field(op, t)).value.1, true)
  {
  }

  lemma BranchStackEffect<V>(d: Domain<V>, op: BranchOp, l: int, f: FrameState<V>)
    requires StackEffect(Branch(op, l)).Some?
    ensures Exact(f, BranchUpdate(op, f), StackEffect(Branch(op, l)).value.0, StackEffect(Branch(op, l)).value.1, true)
  {
  }

  lemma ReplaceStackEffect<V>(f: FrameState<V>, count: nat, v: V)
    ensures Exact(f, Replace(f, count, v), count, 1, true)
    ensures Replace(f, count, v).Success? ==> Replace(f, count, v).value.stack == f.stack[..|f.stack| - count] + [v]
  {
  }

  lemma ArrayStackEffect<V>(d: Domain<V>, op: ArrayOp, f: FrameState<V>)
    ensures Exact(f, ArrayUpdate(d, op, f), if op == ARRAYLENGTH then 1 else if op == ArrayStore then 3 else 2,
                  if op == ArrayStore then 0 else 1, true)
  {
    var n := |f.stack|;
    match op
    case ARRAYLENGTH => ReplaceStackEffect(f, 1, d.integer);
    case ArrayStore =>
    case AALOAD =>
      if ArrayUpdate(d, op, f).Success? {
        assert PopN(f, 1).Success?;
        var g := PopN(f, 1).value;
        assert Pop(g).Success?;
        assert g.stack == f.stack[..n - 1];
        assert n >= 2;
        assert g.stack[..n - 2] == f.stack[..n - 2];
      }
    case ArrayLoad(k) => ReplaceStackEffect(f, 2, KindValue(d, k));
  }

  lemma CallStackEffect<V>(d: Domain<V>, pops: nat, r: JvmType, f: FrameState<V>)
    ensures Exact(f, Call(d, f, pops, r), pops, if r.IsVoidType() then 0 else 1, true)
  {
  }

  lemma MethodStackEffect<V>(d: Domain<V>, op: InvokeOp, name: string, ps: seq<JvmType>, r: JvmType, f: FrameState<V>)
    requires !(op == INVOKESPECIAL && name == "<init>")
    ensures Exact(f, MethodUpdate(d, op, name, ps, r, f), |ps| + (if op == INVOKESTATIC then 0 else 1),
                  if r.IsVoidType() then 0 else 1, true)
  {
    var pops := |ps| + (if op == INVOKESTATIC then 0 else 1);
    CallStackEffect(d, pops, r, f);
    if op != INVOKESTATIC && pops <= |f.stack| {
      var g := PopN(f, |ps|).value;
      assert g.stack[..|g.stack| - 1] == f.stack[..|f.stack| - pops];
      assert PopN(g, 1) == PopN(f, pops);
    }
  }

  // ---------------------------------------------------------------------------
  // The rules that are not a fixed count.

  /** The stack shuffles are exact: on every stack the instruction allows,
      the slots after the update are the instruction's effect on the slots
      before it, and the locals stay. */
  lemma StackUpdateExact<V>(d: Domain<V>, op: StackOp, f: FrameState<V>)
    requires Legal(op, f.stack, d.category2)
    ensures StackUpdate(d, op, f).Success?
    ensures StackUpdate(d, op, f).value.variables == f.variables
    ensures WordOp(op, Words(f.stack, d.category2)) == Some(Words(StackUpdate(d, op, f).value.stack, d.category2))
  {
    ShuffleMatchesWords(op, f.stack, d.category2);
  }

  /** `athrow` leaves exactly the previous top value on the stack. */
  lemma AthrowKeepsTop<V>(d: Domain<V>, offset: int, f: FrameState<V>)
    ensures Update(d, Basic(ATHROW), offset, f).Success? <==> |f.stack| > 0
    ensures |f.stack| > 0 ==>
      Update(d, Basic(ATHROW), offset, f).value == FrameState(f.variables, [f.stack[|f.stack| - 1]])
  {
  }

  /** `new` pushes an uninitialized reference tagged with its own offset. */
  lemma NewPushesUninitialized<V>(d: Domain<V>, t: JvmType, offset: int, f: FrameState<V>)
    ensures Update(d, Class(NEW, t), offset, f) == Success(FrameState(f.variables, f.stack + [d.uninitialized(t, offset)]))
  {
  }

  /** A call of `<init>` pops the arguments and the receiver, initializes
      the receiver in what is left, and pushes a result only for a non-void
      return type. */
  lemma InitializerCall<V>(d: Domain<V>, ps: seq<JvmType>, r: JvmType, offset: int, f: FrameState<V>)
    ensures var n := |f.stack|;
      var result := Update(d, Method(INVOKESPECIAL, "<init>", ps, r), offset, f);
      (n <= |ps| ==> result.Failure?) &&
      (n > |ps| ==>
        var initialized := d.initialize(FrameState(f.variables, f.stack[..n - |ps| - 1]), f.stack[n - |ps| - 1]);
        result == (if initialized.Failure? then Failure(initialized.error) else PushResult(d, initialized.value, r)))
  {
    var n := |f.stack|;
    if n > |ps| {
      var g := PopN(f, |ps|).value;
      assert g.stack[..|g.stack| - 1] == f.stack[..n - |ps| - 1];
    }
  }

  /** Loading a local pushes its value, and fails on an unused slot. */
  lemma LoadPushesLocal<V>(d: Domain<V>, i: int, offset: int, f: FrameState<V>)
    ensures Update(d, Variable(LoadVariable, i), offset, f).Success? <==>
      0 <= i < |f.variables| && f.variables[i] != d.top
    ensures Update(d, Variable(LoadVariable, i), offset, f).Success? ==>
      Update(d, Variable(LoadVariable, i), offset, f).value.stack == f.stack + [f.variables[i]]
  {
  }

  /** Instructions without a rule fail instead of guessing an effect. */
  lemma NoRuleFails<V>(d: Domain<V>, i: Instruction, offset: int, f: FrameState<V>)
    requires i in {Unsupported, Basic(OtherBasic), Stack(DUP2_X2)} ||
             (i.Variable? && i.variableKind == OtherVariable) || (i.Branch? && i.branchOp == OtherBranch)
    ensures Update(d, i, offset, f).Failure?
  {
  }

  /** `ldc` of a string constant pushes a `String` reference; as written it
      pushes an int, and only a UTF-8 constant, which `ldc` cannot load,
      would get the reference. */
  lemma LoadStringConstant<V>(d: Domain<V>, index: int, offset: int, f: FrameState<V>)
    ensures Update(d, LiteralConstant(PoolConstant(StringConstant(index))), offset, f) ==
      Success(Push(f, d.reference(JAVA_LANG_STRING_TYPE)))
    ensures UpdateAsWritten(d, LiteralConstant(PoolConstant(StringConstant(index))), offset, f) ==
      Success(Push(f, d.integer))
  {
  }

  /** `fneg` replaces a value by a float; as written it always fails. */
  lemma FloatNegation<V>(d: Domain<V>, offset: int, f: FrameState<V>)
    ensures Update(d, Arithmetic(FloatKind, true), offset, f).Success? <==> |f.stack| > 0
    ensures |f.stack| > 0 ==>
      Update(d, Arithmetic(FloatKind, true), offset, f).value.stack == f.stack[..|f.stack| - 1] + [d.float]
    ensures UpdateAsWritten(d, Arithmetic(FloatKind, true), offset, f).Failure?
  {
  }

  /** Apart from `dup_x2`, `fneg` and the string case of `ldc`, the updater
      as written is `Update`. */
  lemma AsWrittenAgrees<V>(d: Domain<V>, i: Instruction, offset: int, f: FrameState<V>)
    requires i != Stack(DUP_X2) && i != Arithmetic(FloatKind, true)
    requires !(i.LiteralConstant? && i.loaded.PoolConstant? &&
               (i.loaded.constant.StringConstant? || i.loaded.constant.Utf8Constant?))
    ensures UpdateAsWritten(d, i, offset, f) == Update(d, i, offset, f)
  {
  }
}
