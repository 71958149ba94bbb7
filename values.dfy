/** The evaluation's value domain: the seven kinds of value its value factory
    creates, plus the `Top` filler of unused local slots. */
module Values {
  import opened Wrappers
  import opened JvmTypes
  import opened Constants
  import opened VerificationTypes
  import VariableTypes

  datatype Value =
    | TopValue
    | IntegerValue
    | LongValue
    | FloatValue
    | DoubleValue
    | NullReferenceValue
    | ReferenceValue(valueType: JvmType)
    | UninitializedReferenceValue(valueType: JvmType, offset: int)
  {
    predicate IsCategory2() {
      LongValue? || DoubleValue?
    }

    function OperandSize(): int {
      if IsCategory2() then 2 else 1
    }

    /** `ReferenceValue` in the Kotlin hierarchy: the null reference, a
        reference and an uninitialized reference. */
    predicate IsReference() {
      NullReferenceValue? || ReferenceValue? || UninitializedReferenceValue?
    }

    predicate IsNull() {
      NullReferenceValue?
    }
  }

  /** `isUninitializedThis`: the receiver of a constructor is created with a
      negative offset, every `new` with its own non-negative offset. */
  predicate IsUninitializedThis(v: Value)
    requires v.UninitializedReferenceValue?
  {
    v.offset < 0
  }

  /** `toVerificationType`; for an uninitialized reference, the
      uninitialized-this type when the offset is negative and the
      uninitialized type of its `new` otherwise. */
  function ToVerificationType(v: Value, interned: map<Constant, int>): (r: VerificationType)
    ensures v.UninitializedReferenceValue? ==>
      (r == UninitializedThisVariable <==> IsUninitializedThis(v)) &&
      (!IsUninitializedThis(v) ==> r == UninitializedVariable(v.offset))
  {
    match v
    case TopValue => TopVariable
    case IntegerValue => IntegerVariable
    case LongValue => LongVariable
    case FloatValue => FloatVariable
    case DoubleValue => DoubleVariable
    case NullReferenceValue => NullVariable
    case ReferenceValue(t) => ObjectVariable(VariableTypes.ClassIndexIn(interned, ClassName(t)))
    case UninitializedReferenceValue(_, o) => if o < 0 then UninitializedThisVariable else UninitializedVariable(o)
  }

  /** `createValueFor`: the value of JVM type `t`; `void` has none. */
  function ValueFor(t: JvmType): Result<Value> {
    if t.IsReferenceType() then Success(ReferenceValue(t))
    else if t.IsPrimitiveType() then
      match t
      case FloatT => Success(FloatValue)
      case LongT => Success(LongValue)
      case DoubleT => Success(DoubleValue)
      case _ => Success(IntegerValue)
    else Failure("IllegalStateException")
  }

  /** The verifier type a value stands for. */
  function Abstract(v: Value): VariableTypes.VariableType {
    match v
    case TopValue => VariableTypes.TopType
    case IntegerValue => VariableTypes.IntegerType
    case LongValue => VariableTypes.LongType
    case FloatValue => VariableTypes.FloatType
    case DoubleValue => VariableTypes.DoubleType
    case NullReferenceValue => VariableTypes.NullReference
    case ReferenceValue(t) => VariableTypes.JavaReferenceType(t)
    case UninitializedReferenceValue(t, o) =>
      if o < 0 then VariableTypes.UninitializedThisType(t) else VariableTypes.UninitializedType(t, o)
  }

  /** The evaluation and the verifier agree: `createValueFor` and
      `VariableType.of` fail on the same types and otherwise give
      corresponding values, and a value lowers to the verification type of
      the verifier type it stands for, with the same category. */
  lemma AbstractAgrees(v: Value, t: JvmType, interned: map<Constant, int>)
    ensures ValueFor(t).Success? <==> VariableTypes.Of(t).Success?
    ensures ValueFor(t).Success? ==> Abstract(ValueFor(t).value) == VariableTypes.Of(t).value
    ensures ToVerificationType(v, interned) == VariableTypes.ToVerificationType(Abstract(v), interned)
    ensures v.IsCategory2() <==> Abstract(v).IsCategory2()
    ensures v.IsReference() <==> Abstract(v).IsReferenceType()
  {
  }
}
