/** The two value domains the frame updater runs over: the evaluation's
    values and the verifier's `VariableType`s; and the proof that the two
    analyzers compute corresponding frames. */
module AnalyzerDomains {
  import opened Wrappers
  import opened JvmTypes
  import opened FrameStates
  import opened Instructions
  import opened StackShuffles
  import opened FrameUpdates
  import opened Values
  import VT = VariableTypes

  /** The `aaload` check of the evaluation: a reference, initialized or
      not, of an array type. */
  function EvalComponent(v: Value): (r: Result<JvmType>)
    ensures r.Success? <==> (v.ReferenceValue? || v.UninitializedReferenceValue?) && v.valueType.ArrayT?
    ensures r.Success? ==> r.value == v.valueType.component
  {
    if (v.ReferenceValue? || v.UninitializedReferenceValue?) && v.valueType.ArrayT? then Success(v.valueType.component)
    else Failure("IllegalStateException")
  }

  /** After `<init>`, every occurrence of the receiver becomes an
      initialized reference of its type; the receiver must be a reference. */
  function EvalInitialize(f: FrameState<Value>, receiver: Value): (r: Result<FrameState<Value>>)
    ensures r.Success? <==> receiver.ReferenceValue? || receiver.UninitializedReferenceValue?
    ensures r.Success? ==> r.value == ReferenceInitialized(f, receiver, ReferenceValue(receiver.valueType))
  {
    if receiver.ReferenceValue? || receiver.UninitializedReferenceValue? then
      Success(ReferenceInitialized(f, receiver, ReferenceValue(receiver.valueType)))
    else Failure("IllegalStateException")
  }

  function Category2Value(x: Value): bool { x.IsCategory2() }
  function Category2Type(x: VT.VariableType): bool { x.IsCategory2() }

  function EvalDomain(): Domain<Value> {
    Domain(TopValue, IntegerValue, FloatValue, LongValue, DoubleValue, NullReferenceValue,
           t => ReferenceValue(t),
           (t, o) => UninitializedReferenceValue(t, o),
           Category2Value,
           v => EvalComponent(v),
           (f, v) => EvalInitialize(f, v))
  }

  /** The `aaload` check of the verifier: an initialized reference of an
      array type. */
  function VerifierComponent(v: VT.VariableType): (r: Result<JvmType>)
    ensures r.Success? <==> v.JavaReferenceType? && v.classType.ArrayT?
    ensures r.Success? ==> r.value == v.classType.component
  {
    if v.JavaReferenceType? && v.classType.ArrayT? then Success(v.classType.component)
    else Failure("IllegalStateException")
  }

  /** The verifier's domain. Its `Frame` class, and so what its
      `referenceInitialized` does, is not part of this model: that is the
      parameter. */
  function VerifierDomain(initialize: (FrameState<VT.VariableType>, VT.VariableType) -> Result<FrameState<VT.VariableType>>)
    : Domain<VT.VariableType>
  {
    Domain(VT.TopType, VT.IntegerType, VT.FloatType, VT.LongType, VT.DoubleType, VT.NullReference,
           t => VT.JavaReferenceType(t),
           (t, o) => VT.UninitializedType(t, o),
           Category2Type,
           v => VerifierComponent(v),
           initialize)
  }

  /** The generic `ValueFor` is `createValueFor` in the evaluation domain
      and `VariableType.of` in the verifier's. */
  lemma ValueForInstances(t: JvmType, initialize: (FrameState<VT.VariableType>, VT.VariableType) -> Result<FrameState<VT.VariableType>>)
    ensures FrameUpdates.ValueFor(EvalDomain(), t) == Values.ValueFor(t)
    ensures FrameUpdates.ValueFor(VerifierDomain(initialize), t) == VT.Of(t)
  {
  }

  // ---------------------------------------------------------------------------
  // Abstraction of evaluation frames to verifier frames.

  function AbstractAll(s: seq<Value>): (r: seq<VT.VariableType>)
    ensures |r| == |s|
    ensures forall k :: 0 <= k < |s| ==> r[k] == Abstract(s[k])
  {
    seq(|s|, k requires 0 <= k < |s| => Abstract(s[k]))
  }

  function AbstractFrame(f: FrameState<Value>): FrameState<VT.VariableType> {
    FrameState(AbstractAll(f.variables), AbstractAll(f.stack))
  }

  function AbstractResult(r: Result<FrameState<Value>>): Result<FrameState<VT.VariableType>> {
    match r
    case Success(g) => Success(AbstractFrame(g))
    case Failure(e) => Failure(e)
  }

  lemma AbstractSlice(s: seq<Value>, k: nat)
    requires k <= |s|
    ensures AbstractAll(s[..k]) == AbstractAll(s)[..k]
  {
  }

  lemma AbstractConcat(a: seq<Value>, b: seq<Value>)
    ensures AbstractAll(a + b) == AbstractAll(a) + AbstractAll(b)
  {
  }

  lemma AbstractCategory(v: Value)
    ensures Abstract(v).IsCategory2() <==> v.IsCategory2()
    ensures Abstract(v) == VT.TopType <==> v == TopValue
  {
  }

  lemma PopNAbstracts(f: FrameState<Value>, n: nat)
    ensures PopN(AbstractFrame(f), n) == AbstractResult(PopN(f, n))
  {
    if n <= |f.stack| {
      AbstractSlice(f.stack, |f.stack| - n);
    }
  }

  lemma PushAbstracts(f: FrameState<Value>, v: Value)
    ensures Push(AbstractFrame(f), Abstract(v)) == AbstractFrame(Push(f, v))
  {
    AbstractConcat(f.stack, [v]);
  }

  lemma PopAbstracts(f: FrameState<Value>)
    ensures Pop(AbstractFrame(f)).Success? <==> Pop(f).Success?
    ensures Pop(f).Success? ==>
      Pop(AbstractFrame(f)).value == (Abstract(Pop(f).value.0), AbstractFrame(Pop(f).value.1))
  {
    if |f.stack| > 0 {
      AbstractSlice(f.stack, |f.stack| - 1);
    }
  }

  lemma PaddedAbstracts(vs: seq<Value>, capacity: int)
    ensures AbstractAll(Padded(vs, capacity, TopValue)) == Padded(AbstractAll(vs), capacity, VT.TopType)
  {
    var p, q := AbstractAll(Padded(vs, capacity, TopValue)), Padded(AbstractAll(vs), capacity, VT.TopType);
    assert |p| == |q|;
    forall k | 0 <= k < |p|
      ensures p[k] == q[k]
    {
      if k < |vs| {
        assert Padded(vs, capacity, TopValue)[..|vs|][k] == vs[k];
        assert q[..|vs|][k] == AbstractAll(vs)[k];
      }
    }
  }

  lemma StoreAbstracts(f: FrameState<Value>, i: int, v: Value)
    ensures Store(AbstractFrame(f), i, Abstract(v), VT.TopType, Category2Type) ==
      AbstractResult(Store(f, i, v, TopValue, Category2Value))
  {
    if i >= 0 {
      var c := if v.IsCategory2() then i + 1 else i;
      PaddedAbstracts(f.variables, c);
      var padded := Padded(f.variables, c, TopValue);
      assert AbstractAll(padded[i := v]) == AbstractAll(padded)[i := Abstract(v)];
    }
  }

  /** The shuffle's result, abstracted. */
  function AbstractShuffled(r: Result<seq<Value>>): Result<seq<VT.VariableType>> {
    if r.Success? then Success(AbstractAll(r.value)) else Failure(r.error)
  }

  /** Shuffling commutes with abstraction. */
  lemma ShuffleAbstracts(op: StackOp, s: seq<Value>)
    ensures Shuffle(op, AbstractAll(s), Category2Type) == AbstractShuffled(Shuffle(op, s, Category2Value))
  {
    var n := |s|;
    if n >= 1 {
      AbstractSlice(s, n - 1);
      AbstractConcat(s, [s[n - 1]]);
      assert AbstractAll([s[n - 1]]) == [Abstract(s[n - 1])];
    }
    match op
    case POP =>
    case POP2 => if n >= 2 { AbstractSlice(s, n - 2); }
    case DUP =>
    case DUP2 => if n >= 2 { Pick2(s, s, n - 2, n - 1); }
    case DUP_X1 => if n >= 2 { Pick3(s, s[..n - 2], n - 1, n - 2, n - 1); }
    case DUP_X2 => DupX2Abstracts(s);
    case DUP2_X1 => Dup2X1Abstracts(s);
    case DUP2_X2 =>
    case SWAP => if n >= 2 { AbstractSlice(s, n - 2); Pick2(s, s[..n - 2], n - 1, n - 2); }
  }

  lemma DupX2Abstracts(s: seq<Value>)
    ensures Shuffle(DUP_X2, AbstractAll(s), Category2Type) == AbstractShuffled(Shuffle(DUP_X2, s, Category2Value))
  {
    var n := |s|;
    if n >= 2 {
      Pick3(s, s[..n - 2], n - 1, n - 2, n - 1);
    }
    if n >= 3 {
      Pick4(s, s[..n - 3], n - 1, n - 3, n - 2, n - 1);
    }
  }

  lemma Dup2X1Abstracts(s: seq<Value>)
    ensures Shuffle(DUP2_X1, AbstractAll(s), Category2Type) == AbstractShuffled(Shuffle(DUP2_X1, s, Category2Value))
  {
    var n := |s|;
    if n >= 2 {
      Pick3(s, s[..n - 2], n - 1, n - 2, n - 1);
    }
    if n >= 3 {
      Pick5(s, s[..n - 3], n - 2, n - 1, n - 3, n - 2, n - 1);
    }
  }

  lemma Pick2(s: seq<Value>, p: seq<Value>, a: nat, b: nat)
    requires a < |s| && b < |s|
    ensures AbstractAll(p + [s[a], s[b]]) == AbstractAll(p) + [AbstractAll(s)[a], AbstractAll(s)[b]]
  {
    AbstractConcat(p, [s[a], s[b]]);
    assert AbstractAll([s[a], s[b]]) == [Abstract(s[a]), Abstract(s[b])];
  }

  lemma Pick3(s: seq<Value>, p: seq<Value>, a: nat, b: nat, c: nat)
    requires a < |s| && b < |s| && c < |s|
    requires |p| <= |s| && p == s[..|p|]
    ensures AbstractAll(p + [s[a], s[b], s[c]]) == AbstractAll(s)[..|p|] + [AbstractAll(s)[a], AbstractAll(s)[b], AbstractAll(s)[c]]
  {
    AbstractSlice(s, |p|);
    AbstractConcat(p, [s[a], s[b], s[c]]);
    assert AbstractAll([s[a], s[b], s[c]]) == [Abstract(s[a]), Abstract(s[b]), Abstract(s[c])];
  }

  lemma Pick4(s: seq<Value>, p: seq<Value>, a: nat, b: nat, c: nat, e: nat)
    requires a < |s| && b < |s| && c < |s| && e < |s|
    requires |p| <= |s| && p == s[..|p|]
    ensures AbstractAll(p + [s[a], s[b], s[c], s[e]]) ==
      AbstractAll(s)[..|p|] + [AbstractAll(s)[a], AbstractAll(s)[b], AbstractAll(s)[c], AbstractAll(s)[e]]
  {
    AbstractSlice(s, |p|);
    AbstractConcat(p, [s[a], s[b], s[c], s[e]]);
    assert AbstractAll([s[a], s[b], s[c], s[e]]) == [Abstract(s[a]), Abstract(s[b]), Abstract(s[c]), Abstract(s[e])];
  }

  lemma Pick5(s: seq<Value>, p: seq<Value>, a: nat, b: nat, c: nat, e: nat, g: nat)
    requires a < |s| && b < |s| && c < |s| && e < |s| && g < |s|
    requires |p| <= |s| && p == s[..|p|]
    ensures AbstractAll(p + [s[a], s[b], s[c], s[e], s[g]]) ==
      AbstractAll(s)[..|p|] + [AbstractAll(s)[a], AbstractAll(s)[b], AbstractAll(s)[c], AbstractAll(s)[e], AbstractAll(s)[g]]
  {
    AbstractSlice(s, |p|);
    AbstractConcat(p, [s[a], s[b], s[c], s[e], s[g]]);
    assert AbstractAll([s[a], s[b], s[c], s[e], s[g]]) ==
      [Abstract(s[a]), Abstract(s[b]), Abstract(s[c]), Abstract(s[e]), Abstract(s[g])];
  }

  // ---------------------------------------------------------------------------
  // The two analyzers agree.

  type Initializer = (FrameState<VT.VariableType>, VT.VariableType) -> Result<FrameState<VT.VariableType>>

  lemma ReplaceAbstracts(f: FrameState<Value>, n: nat, v: Value)
    ensures FrameUpdates.Replace(AbstractFrame(f), n, Abstract(v)) == AbstractResult(FrameUpdates.Replace(f, n, v))
  {
    PopNAbstracts(f, n);
    if n <= |f.stack| {
      PushAbstracts(PopN(f, n).value, v);
    }
  }

  lemma KindValueAbstracts(init: Initializer, k: NumericKind)
    ensures KindValue(VerifierDomain(init), k) == Abstract(KindValue(EvalDomain(), k))
  {
  }

  lemma PushResultAbstracts(init: Initializer, f: FrameState<Value>, t: JvmType)
    ensures PushResult(VerifierDomain(init), AbstractFrame(f), t) == AbstractResult(PushResult(EvalDomain(), f, t))
  {
    ValueForInstances(t, init);
    AbstractAgrees(TopValue, t, map[]);
    if !t.IsVoidType() {
      PushAbstracts(f, Values.ValueFor(t).value);
    }
  }

  lemma CallAbstracts(init: Initializer, f: FrameState<Value>, n: nat, t: JvmType)
    ensures Call(VerifierDomain(init), AbstractFrame(f), n, t) == AbstractResult(Call(EvalDomain(), f, n, t))
  {
    PopNAbstracts(f, n);
    if n <= |f.stack| {
      PushResultAbstracts(init, PopN(f, n).value, t);
    }
  }

  lemma BasicAbstracts(init: Initializer, op: BasicOp, f: FrameState<Value>)
    ensures BasicUpdate(VerifierDomain(init), op, AbstractFrame(f)) == AbstractResult(BasicUpdate(EvalDomain(), op, f))
  {
    match op
    case ACONST_NULL => PushAbstracts(f, NullReferenceValue);
    case ATHROW =>
      if |f.stack| > 0 {
        PushAbstracts(ClearStack(f), f.stack[|f.stack| - 1]);
      }
    case MONITORENTER => PopNAbstracts(f, 1);
    case MONITOREXIT => PopNAbstracts(f, 1);
    case _ =>
  }

  lemma VariableAbstracts(init: Initializer, kind: VariableKind, i: int, f: FrameState<Value>)
    ensures VariableUpdate(VerifierDomain(init), kind, i, AbstractFrame(f)) ==
      AbstractResult(VariableUpdate(EvalDomain(), kind, i, f))
  {
    match kind
    case LoadVariable =>
      if 0 <= i < |f.variables| {
        AbstractCategory(f.variables[i]);
        PushAbstracts(f, f.variables[i]);
      }
    case StoreVariable =>
      PopAbstracts(f);
      if |f.stack| > 0 {
        var popped := Pop(f).value;
        StoreAbstracts(popped.1, i, popped.0);
      }
    case OtherVariable =>
  }

  lemma ArrayAbstracts(init: Initializer, op: ArrayOp, f: FrameState<Value>)
    requires op != AALOAD
    ensures ArrayUpdate(VerifierDomain(init), op, AbstractFrame(f)) == AbstractResult(ArrayUpdate(EvalDomain(), op, f))
  {
    match op
    case ARRAYLENGTH => ReplaceAbstracts(f, 1, IntegerValue);
    case ArrayStore => PopNAbstracts(f, 3);
    case ArrayLoad(k) => ReplaceAbstracts(f, 2, KindValue(EvalDomain(), k));
  }

  /** `aaload`: whenever the verifier accepts, the evaluation does too and
      their frames correspond; the evaluation also accepts an uninitialized
      array reference, which the verifier refuses. */
  lemma ArrayLoadAbstracts(init: Initializer, f: FrameState<Value>)
    ensures ArrayUpdate(VerifierDomain(init), AALOAD, AbstractFrame(f)).Success? ==>
      ArrayUpdate(VerifierDomain(init), AALOAD, AbstractFrame(f)) == AbstractResult(ArrayUpdate(EvalDomain(), AALOAD, f))
    ensures |f.stack| >= 2 && f.stack[|f.stack| - 2].UninitializedReferenceValue? && f.stack[|f.stack| - 2].valueType.ArrayT? ==>
      ArrayUpdate(EvalDomain(), AALOAD, f).Success? && ArrayUpdate(VerifierDomain(init), AALOAD, AbstractFrame(f)).Failure?
  {
    PopNAbstracts(f, 1);
    if |f.stack| >= 2 {
      var g := PopN(f, 1).value;
      assert g.stack == f.stack[..|f.stack| - 1];
      PopAbstracts(g);
      var a := Pop(g).value;
      assert a.0 == f.stack[|f.stack| - 2];
      if a.0.ReferenceValue? && a.0.valueType.ArrayT? {
        PushAbstracts(a.1, ReferenceValue(a.0.valueType.component));
      }
    }
  }

  lemma ClassAbstracts(init: Initializer, op: ClassOp, t: JvmType, offset: int, f: FrameState<Value>)
    requires op == NEW ==> offset >= 0
    ensures ClassUpdate(VerifierDomain(init), op, t, offset, AbstractFrame(f)) ==
      AbstractResult(ClassUpdate(EvalDomain(), op, t, offset, f))
  {
    match op
    case NEW => PushAbstracts(f, UninitializedReferenceValue(t, offset));
    case CHECKCAST => ReplaceAbstracts(f, 1, ReferenceValue(t));
    case INSTANCEOF => ReplaceAbstracts(f, 1, IntegerValue);
  }

  lemma FieldAbstracts(init: Initializer, op: FieldOp, t: JvmType, f: FrameState<Value>)
    ensures FieldUpdate(VerifierDomain(init), op, t, AbstractFrame(f)) == AbstractResult(FieldUpdate(EvalDomain(), op, t, f))
  {
    ValueForInstances(t, init);
    AbstractAgrees(TopValue, t, map[]);
    match op
    case GETFIELD =>
      PopNAbstracts(f, 1);
      if |f.stack| >= 1 && !t.IsVoidType() {
        PushAbstracts(PopN(f, 1).value, Values.ValueFor(t).value);
      }
    case GETSTATIC =>
      if !t.IsVoidType() {
        PushAbstracts(f, Values.ValueFor(t).value);
      }
    case PUTFIELD => PopNAbstracts(f, 2);
    case PUTSTATIC => PopNAbstracts(f, 1);
  }

  lemma MethodAbstracts(init: Initializer, op: InvokeOp, name: string, ps: seq<JvmType>, r: JvmType, f: FrameState<Value>)
    requires !(op == INVOKESPECIAL && name == "<init>")
    ensures MethodUpdate(VerifierDomain(init), op, name, ps, r, AbstractFrame(f)) ==
      AbstractResult(MethodUpdate(EvalDomain(), op, name, ps, r, f))
  {
    PopNAbstracts(f, |ps|);
    if |ps| <= |f.stack| {
      var g := PopN(f, |ps|).value;
      if op == INVOKESTATIC {
        PushResultAbstracts(init, g, r);
      } else {
        PopNAbstracts(g, 1);
        if 1 <= |g.stack| {
          PushResultAbstracts(init, PopN(g, 1).value, r);
        }
      }
    }
  }

  lemma LoadedValueAbstracts(init: Initializer, c: Loadable)
    ensures LoadedValue(VerifierDomain(init), c) == Abstract(LoadedValue(EvalDomain(), c))
  {
  }

  lemma BranchAbstracts(op: BranchOp, f: FrameState<Value>)
    ensures BranchUpdate(op, AbstractFrame(f)) == AbstractResult(BranchUpdate(op, f))
  {
    PopNAbstracts(f, 1);
    PopNAbstracts(f, 2);
  }

  /** The two code analyzers compute corresponding frames: for every
      instruction except `aaload` and a call of `<init>`, the verifier's
      updater run on the abstraction of an evaluation frame fails exactly
      when the evaluation's does, and otherwise yields the abstraction of
      the evaluation's frame after. `new` needs a proper offset, since an
      uninitialized value with a negative offset stands for `this`. */
  lemma UpdateAbstracts(init: Initializer, i: Instruction, offset: int, f: FrameState<Value>)
    requires !(i.Array? && i.arrayOp == AALOAD)
    requires !(i.Method? && i.invokeOp == INVOKESPECIAL && i.methodName == "<init>")
    requires i.Class? && i.classOp == NEW ==> offset >= 0
    ensures Update(VerifierDomain(init), i, offset, AbstractFrame(f)) == AbstractResult(Update(EvalDomain(), i, offset, f))
  {
    if LoadsOrAllocates(i) {
      LoadAbstracts(init, i, offset, f);
    } else {
      OperateAbstracts(init, i, f);
    }
  }

  lemma LoadAbstracts(init: Initializer, i: Instruction, offset: int, f: FrameState<Value>)
    requires LoadsOrAllocates(i) && !(i.Array? && i.arrayOp == AALOAD)
    requires i.Class? && i.classOp == NEW ==> offset >= 0
    ensures Update(VerifierDomain(init), i, offset, AbstractFrame(f)) == AbstractResult(Update(EvalDomain(), i, offset, f))
  {
    var ed := EvalDomain();
    match i
    case Basic(op) => BasicAbstracts(init, op, f);
    case LiteralVariable =>
    case Variable(kind, v) => VariableAbstracts(init, kind, v, f);
    case LiteralConstant(c) =>
      LoadedValueAbstracts(init, c);
      PushAbstracts(f, LoadedValue(ed, c));
    case Literal(k) =>
      KindValueAbstracts(init, k);
      PushAbstracts(f, KindValue(ed, k));
    case Array(op) => ArrayAbstracts(init, op, f);
    case ArrayPrimitiveType(t) => ReplaceAbstracts(f, 1, ReferenceValue(t));
    case ANEWARRAY(c) => ReplaceAbstracts(f, 1, ReferenceValue(ArrayT(c)));
    case MULTIANEWARRAY(n, t) => ReplaceAbstracts(f, n, ReferenceValue(t));
    case Class(op, t) => ClassAbstracts(init, op, t, offset, f);
    case _ => assert false;
  }

  lemma OperateAbstracts(init: Initializer, i: Instruction, f: FrameState<Value>)
    requires !LoadsOrAllocates(i)
    requires !(i.Method? && i.invokeOp == INVOKESPECIAL && i.methodName == "<init>")
    ensures forall offset :: Update(VerifierDomain(init), i, offset, AbstractFrame(f)) == AbstractResult(Update(EvalDomain(), i, offset, f))
  {
    var ed := EvalDomain();
    match i
    case Stack(op) => ShuffleAbstracts(op, f.stack);
    case Field(op, t) => FieldAbstracts(init, op, t, f);
    case Method(op, name, ps, r) => MethodAbstracts(init, op, name, ps, r, f);
    case InterfaceMethod(ps, r) => CallAbstracts(init, f, |ps| + 1, r);
    case InvokeDynamic(ps, r) => CallAbstracts(init, f, |ps|, r);
    case Branch(op, _) => BranchAbstracts(op, f);
    case Conversion(k) =>
      KindValueAbstracts(init, k);
      ReplaceAbstracts(f, 1, KindValue(ed, k));
    case Compare => ReplaceAbstracts(f, 2, IntegerValue);
    case Arithmetic(k, unary) =>
      KindValueAbstracts(init, k);
      ReplaceAbstracts(f, if unary then 1 else 2, KindValue(ed, k));
    case Switch(_, _) => PopNAbstracts(f, 1);
    case Return(isVoid) => PopNAbstracts(f, 1);
    case Unsupported =>
    case _ => assert false;
  }
}
