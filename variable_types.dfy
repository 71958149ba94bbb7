/** The verifier's value domain: the types a local variable or an operand
    stack entry can hold, their computational category (section 2.11.1 of
    the Java Virtual Machine Specification) and their lowering to the
    verification types written into a StackMapTable. */
module VariableTypes {
  import opened Wrappers
  import opened JvmTypes
  import opened Constants
  import opened ConstantPools
  import opened VerificationTypes

  datatype VariableType =
    | TopType
    | IntegerType
    | FloatType
    | LongType
    | DoubleType
    | JavaReferenceType(classType: JvmType)
    | UninitializedThisType(classType: JvmType)
    | UninitializedType(classType: JvmType, offset: int)
    | NullReference
  {
    /** Category 2 (two local-variable slots): long and double. */
    predicate IsCategory2() {
      LongType? || DoubleType?
    }

    function OperandSize(): int {
      if IsCategory2() then 2 else 1
    }

    predicate IsReferenceType() {
      JavaReferenceType? || UninitializedThisType? || UninitializedType? || NullReference?
    }
  }

  /** `VariableType.of`: the type a value of JVM type `t` has; `void` has
      none. */
  function Of(t: JvmType): Result<VariableType> {
    if t.IsReferenceType() then Success(JavaReferenceType(t))
    else if t.IsPrimitiveType() then
      match t
      case FloatT => Success(FloatType)
      case LongT => Success(LongType)
      case DoubleT => Success(DoubleType)
      case _ => Success(IntegerType)
    else Failure("IllegalStateException")
  }

  /** The sub-int primitive types widen to int; category 2 is exactly long
      and double; references keep their class type; only `void` fails. */
  lemma OfMeaning(t: JvmType)
    ensures Of(t).Failure? <==> t == VoidT
    ensures Of(t).Success? ==> (Of(t).value.IsCategory2() <==> t == LongT || t == DoubleT)
    ensures Of(t).Success? ==> Of(t).value.OperandSize() == (if t == LongT || t == DoubleT then 2 else 1)
    ensures t in {ByteT, ShortT, CharT, BooleanT, IntT} ==> Of(t) == Success(IntegerType)
    ensures t.IsReferenceType() ==> Of(t) == Success(JavaReferenceType(t))
    ensures Of(t).Success? ==> (Of(t).value.IsReferenceType() <==> t.IsReferenceType())
  {
  }

  // ---------------------------------------------------------------------------
  // Equality.

  /** `equals` as written, for `a.equals(b)`; `sameInstance` says whether the
      two are the very same object (only possible when they are equal). The
      primitive kinds, top and null are single objects compared by
      identity; the reference kinds first compare their classes.
      `UninitializedThisType.equals` then casts the other object to
      `JavaReferenceType`, which throws for a second uninitialized-this
      instance. */
  function EqualsAsWritten(a: VariableType, b: VariableType, sameInstance: bool): (r: Result<bool>)
    requires sameInstance ==> a == b
  {
    if sameInstance then Success(true)
    else match a
      case JavaReferenceType(t) => Success(b.JavaReferenceType? && t == b.classType)
      case UninitializedThisType(_) =>
        if b.UninitializedThisType? then Failure("ClassCastException") else Success(false)
      case UninitializedType(t, o) => Success(b.UninitializedType? && o == b.offset && t == b.classType)
      case _ => Success(a == b)
  }

  /** Written out: two distinct uninitialized-this objects of the same class
      cannot be compared. */
  lemma EqualsAsWrittenFails()
    ensures EqualsAsWritten(UninitializedThisType(ClassT("A")), UninitializedThisType(ClassT("A")), false).Failure?
  {
  }

  /** Outside that case `equals` as written is the corrected comparison. */
  lemma EqualsAsWrittenStructural(a: VariableType, b: VariableType, sameInstance: bool)
    requires sameInstance ==> a == b
    requires sameInstance || !(a.UninitializedThisType? && b.UninitializedThisType?)
    ensures EqualsAsWritten(a, b, sameInstance) == Success(Equals(a, b))
  {
  }

  /** `equals` kind by kind, with the cast of `UninitializedThisType.equals`
      corrected to its own class: the single objects are equal only to
      themselves, a reference type only to one of its own kind with the same
      class type, and an uninitialized type also needs the same offset. The
      result is structural equality. */
  function Equals(a: VariableType, b: VariableType): (r: bool)
    ensures r <==> a == b
    ensures a.UninitializedThisType? && b.UninitializedThisType? ==> (r <==> a.classType == b.classType)
    ensures a.UninitializedType? && b.UninitializedType? ==> (r <==> a.classType == b.classType && a.offset == b.offset)
    ensures a.JavaReferenceType? && (b.UninitializedThisType? || b.UninitializedType?) ==> !r
  {
    match a
    case TopType => b.TopType?
    case IntegerType => b.IntegerType?
    case FloatType => b.FloatType?
    case LongType => b.LongType?
    case DoubleType => b.DoubleType?
    case JavaReferenceType(t) => b.JavaReferenceType? && t == b.classType
    case UninitializedThisType(t) => b.UninitializedThisType? && t == b.classType
    case UninitializedType(t, o) => b.UninitializedType? && o == b.offset && t == b.classType
    case NullReference => b.NullReference?
  }

  // ---------------------------------------------------------------------------
  // Lowering to verification types.

  /** The index of the class constant for `className` once it is interned
      (0, an index no constant has, before). */
  function ClassIndexIn(interned: map<Constant, int>, className: string): int {
    if Utf8Constant(className) in interned && ClassConstant(interned[Utf8Constant(className)]) in interned
    then interned[ClassConstant(interned[Utf8Constant(className)])]
    else 0
  }

  predicate ClassInternedIn(interned: map<Constant, int>, className: string) {
    Utf8Constant(className) in interned && ClassConstant(interned[Utf8Constant(className)]) in interned
  }

  /** `toVerificationType`, with the class index a Java reference lowers to
      taken from the pool's lookup map (the interning itself is done by the
      caller through the pool editor). */
  function ToVerificationType(v: VariableType, interned: map<Constant, int>): VerificationType {
    match v
    case TopType => TopVariable
    case IntegerType => IntegerVariable
    case FloatType => FloatVariable
    case LongType => LongVariable
    case DoubleType => DoubleVariable
    case JavaReferenceType(t) => ObjectVariable(ClassIndexIn(interned, ClassName(t)))
    case UninitializedThisType(_) => UninitializedThisVariable
    case UninitializedType(_, o) => UninitializedVariable(o)
    case NullReference => NullVariable
  }

  /** An index, once interned, never changes as the pool grows. */
  lemma ClassIndexStable(before: map<Constant, int>, after: map<Constant, int>, className: string)
    requires forall c | c in before :: c in after && after[c] == before[c]
    requires ClassInternedIn(before, className)
    ensures ClassInternedIn(after, className)
    ensures ClassIndexIn(after, className) == ClassIndexIn(before, className)
  {
  }

  /** Lowering keeps the variant (the verification-type tag) and, in a
      consistent pool where both classes are interned, tells Java reference
      types of different classes apart. */
  lemma ToVerificationTypeSeparates(a: VariableType, b: VariableType, cs: seq<Option<Constant>>, interned: map<Constant, int>)
    requires Interning(cs, interned)
    requires a.JavaReferenceType? && b.JavaReferenceType?
    requires ClassInternedIn(interned, ClassName(a.classType)) && ClassInternedIn(interned, ClassName(b.classType))
    ensures ToVerificationType(a, interned) == ToVerificationType(b, interned) <==> ClassName(a.classType) == ClassName(b.classType)
  {
    var na, nb := ClassName(a.classType), ClassName(b.classType);
    if ToVerificationType(a, interned) == ToVerificationType(b, interned) {
      var ia := interned[ClassConstant(interned[Utf8Constant(na)])];
      assert cs[ia] == Some(ClassConstant(interned[Utf8Constant(na)])) == Some(ClassConstant(interned[Utf8Constant(nb)]));
      assert cs[interned[Utf8Constant(na)]] == Some(Utf8Constant(na));
    }
  }
}
