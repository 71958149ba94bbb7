/** What a constant refers to: the names it resolves to through the pool, and
    the visits `referencedConstantsAccept` makes, each naming the kind of
    constant the visitor is told to expect and the index field it is given. */
module ConstantReferences {
  import opened Wrappers
  import opened Constants
  import opened ConstantPools

  /** One call on a referenced-constant visitor: the kind of constant expected
      at `index`. */
  datatype Visit =
    | VisitUtf8(index: int)
    | VisitClass(index: int)
    | VisitNameAndType(index: int)
    | VisitFieldRef(index: int)
    | VisitMethodRef(index: int)
    | VisitInterfaceMethodRef(index: int)
    | VisitModule(index: int)
    | VisitPackage(index: int)

  /** The constant type a visit announces; the module visit has no model
      type here, since module constants are not part of this model. */
  function ExpectedType(v: Visit): Option<ConstantType> {
    match v
    case VisitUtf8(_) => Some(UTF8)
    case VisitClass(_) => Some(CLASS)
    case VisitNameAndType(_) => Some(NAME_AND_TYPE)
    case VisitFieldRef(_) => Some(FIELD_REF)
    case VisitMethodRef(_) => Some(METHOD_REF)
    case VisitInterfaceMethodRef(_) => Some(INTERFACE_METHOD_REF)
    case VisitModule(_) => None
    case VisitPackage(_) => Some(PACKAGE)
  }

  // ---------------------------------------------------------------------------
  // Resolving names through the pool.

  /** `classFile.getString`: the UTF-8 constant at `index`. */
  function GetString(cs: seq<Option<Constant>>, index: int): (r: Result<string>)
    ensures r.Success? <==> 0 <= index < |cs| && cs[index].Some? && cs[index].value.Utf8Constant?
    ensures r.Success? ==> cs[index] == Some(Utf8Constant(r.value))
  {
    var c :- Lookup(cs, index);
    if c.Utf8Constant? then Success(c.value) else Failure("ClassCastException")
  }

  /** `classFile.getNameAndType`. */
  function GetNameAndType(cs: seq<Option<Constant>>, index: int): (r: Result<Constant>)
    ensures r.Success? <==> 0 <= index < |cs| && cs[index].Some? && cs[index].value.NameAndTypeConstant?
    ensures r.Success? ==> cs[index] == Some(r.value) && r.value.NameAndTypeConstant?
  {
    var c :- Lookup(cs, index);
    if c.NameAndTypeConstant? then Success(c) else Failure("ClassCastException")
  }

  /** `classFile.getClassName`: the name of the class constant at `index`. */
  function GetClassName(cs: seq<Option<Constant>>, index: int): (r: Result<string>)
    ensures r.Success? ==> (0 <= index < |cs| && cs[index].Some? && cs[index].value.ClassConstant? &&
      GetString(cs, cs[index].value.classNameIndex) == r)
  {
    var c :- Lookup(cs, index);
    if c.ClassConstant? then GetString(cs, c.classNameIndex) else Failure("ClassCastException")
  }

  /** `getMemberName` and `getDescriptor` of a ref or bootstrap-method
      constant: through its name-and-type constant. */
  function MemberName(cs: seq<Option<Constant>>, c: Constant): (r: Result<string>)
    requires c.IsRef() || c.IsBootstrapRef()
    ensures r.Success? ==> (GetNameAndType(cs, c.nameAndTypeIndex).Success? &&
      r == GetString(cs, GetNameAndType(cs, c.nameAndTypeIndex).value.nameIndex))
  {
    var nt :- GetNameAndType(cs, c.nameAndTypeIndex);
    GetString(cs, nt.nameIndex)
  }

  function MemberDescriptor(cs: seq<Option<Constant>>, c: Constant): (r: Result<string>)
    requires c.IsRef() || c.IsBootstrapRef()
    ensures r.Success? ==> (GetNameAndType(cs, c.nameAndTypeIndex).Success? &&
      r == GetString(cs, GetNameAndType(cs, c.nameAndTypeIndex).value.descriptorIndex))
  {
    var nt :- GetNameAndType(cs, c.nameAndTypeIndex);
    GetString(cs, nt.descriptorIndex)
  }

  /** The pool entries a ref constant resolves to are found again after the
      pool grows at its end. */
  lemma ResolutionSurvivesGrowth(cs: seq<Option<Constant>>, more: seq<Option<Constant>>, index: int)
    requires GetString(cs, index).Success?
    ensures GetString(cs + more, index) == GetString(cs, index)
  {
    assert (cs + more)[index] == cs[index];
  }

  // ---------------------------------------------------------------------------
  // `referencedConstantsAccept`.

  /** The visits of one constant. A method handle to an invoke-static or
      invoke-special target looks up the referenced constant, whose type
      decides between a method and an interface-method visit. */
  function Referenced(cs: seq<Option<Constant>>, c: Constant): Result<seq<Visit>> {
    match c
    case Utf8Constant(_) => Success([])
    case IntegerConstant(_) => Success([])
    case LongConstant(_) => Success([])
    case ClassConstant(n) => Success([VisitUtf8(n)])
    case StringConstant(s) => Success([VisitUtf8(s)])
    case FieldrefConstant(ci, nt) => Success([VisitClass(ci), VisitNameAndType(nt)])
    case MethodrefConstant(ci, nt) => Success([VisitClass(ci), VisitNameAndType(nt)])
    case InterfaceMethodrefConstant(ci, nt) => Success([VisitClass(ci), VisitNameAndType(nt)])
    case NameAndTypeConstant(n, d) => Success([VisitUtf8(n), VisitUtf8(d)])
    case MethodHandleConstant(k, i) => MethodHandleVisits(cs, k, i)
    case MethodTypeConstant(d) => Success([VisitUtf8(d)])
    case DynamicConstant(_, nt, _) => Success([VisitNameAndType(nt)])
    case InvokeDynamicConstant(_, nt, _) => Success([VisitNameAndType(nt)])
    case PackageConstant(n) => Success([VisitUtf8(n)])
  }

  function MethodHandleVisits(cs: seq<Option<Constant>>, k: ReferenceKind, i: int): Result<seq<Visit>> {
    match k
    case GET_FIELD => Success([VisitFieldRef(i)])
    case GET_STATIC => Success([VisitFieldRef(i)])
    case PUT_FIELD => Success([VisitFieldRef(i)])
    case PUT_STATIC => Success([VisitFieldRef(i)])
    case INVOKE_VIRTUAL => Success([VisitMethodRef(i)])
    case NEW_INVOKE_SPECIAL => Success([VisitMethodRef(i)])
    case INVOKE_STATIC => InvokeTargetVisit(cs, i)
    case INVOKE_SPECIAL => InvokeTargetVisit(cs, i)
    case INVOKE_INTERFACE => Success([VisitInterfaceMethodRef(i)])
  }

  function InvokeTargetVisit(cs: seq<Option<Constant>>, i: int): Result<seq<Visit>> {
    var target :- Lookup(cs, i);
    if target.MethodrefConstant? then Success([VisitMethodRef(i)])
    else if target.InterfaceMethodrefConstant? then Success([VisitInterfaceMethodRef(i)])
    else Failure("IllegalStateException")
  }

  /** The index fields of a constant that refer to other pool entries. */
  function IndexFields(c: Constant): set<int> {
    match c
    case Utf8Constant(_) => {}
    case IntegerConstant(_) => {}
    case LongConstant(_) => {}
    case ClassConstant(n) => {n}
    case StringConstant(s) => {s}
    case FieldrefConstant(ci, nt) => {ci, nt}
    case MethodrefConstant(ci, nt) => {ci, nt}
    case InterfaceMethodrefConstant(ci, nt) => {ci, nt}
    case NameAndTypeConstant(n, d) => {n, d}
    case MethodHandleConstant(_, i) => {i}
    case MethodTypeConstant(d) => {d}
    case DynamicConstant(_, nt, _) => {nt}
    case InvokeDynamicConstant(_, nt, _) => {nt}
    case PackageConstant(n) => {n}
  }

  /** What section 4.4.8 of the Java Virtual Machine Specification demands of
      a method handle's referenced constant, for each kind (class files of
      version 52 or later for the two kinds that allow both). */
  predicate ReferenceTypeAllowed(k: ReferenceKind, t: ConstantType) {
    match k
    case GET_FIELD => t == FIELD_REF
    case GET_STATIC => t == FIELD_REF
    case PUT_FIELD => t == FIELD_REF
    case PUT_STATIC => t == FIELD_REF
    case INVOKE_VIRTUAL => t == METHOD_REF
    case NEW_INVOKE_SPECIAL => t == METHOD_REF
    case INVOKE_STATIC => t == METHOD_REF || t == INTERFACE_METHOD_REF
    case INVOKE_SPECIAL => t == METHOD_REF || t == INTERFACE_METHOD_REF
    case INVOKE_INTERFACE => t == INTERFACE_METHOD_REF
  }

  /** Each constant visits its own index fields, each at most once, and
      nothing else. */
  lemma ReferencedVisitsOwnFields(cs: seq<Option<Constant>>, c: Constant)
    ensures Referenced(cs, c).Success? ==>
      (set v | v in Referenced(cs, c).value :: v.index) == IndexFields(c) &&
      |Referenced(cs, c).value| <= 2
  {
    if c.MethodHandleConstant? && Referenced(cs, c).Success? {
      assert Referenced(cs, c).value[0].index == c.referenceIndex;
    }
  }

  /** When the referenced constant has a type the kind allows, the method
      handle's visit announces exactly that type; a referenced constant of
      another type makes the visit fail only for the two kinds that look it
      up. */
  lemma MethodHandleVisitMatchesTarget(cs: seq<Option<Constant>>, k: ReferenceKind, i: int)
    requires 0 <= i < |cs| && cs[i].Some? && ReferenceTypeAllowed(k, TypeOf(cs[i].value))
    ensures Referenced(cs, MethodHandleConstant(k, i)).Success?
    ensures Referenced(cs, MethodHandleConstant(k, i)).value == [MethodHandleVisitFor(TypeOf(cs[i].value), i)]
  {
  }

  function MethodHandleVisitFor(t: ConstantType, i: int): (v: Visit)
    requires t == FIELD_REF || t == METHOD_REF || t == INTERFACE_METHOD_REF
    ensures ExpectedType(v) == Some(t) && v.index == i
  {
    if t == FIELD_REF then VisitFieldRef(i)
    else if t == METHOD_REF then VisitMethodRef(i)
    else VisitInterfaceMethodRef(i)
  }

  lemma InvokeTargetFailure(cs: seq<Option<Constant>>, k: ReferenceKind, i: int)
    requires k == INVOKE_STATIC || k == INVOKE_SPECIAL
    ensures Referenced(cs, MethodHandleConstant(k, i)).Failure? <==>
      !(0 <= i < |cs| && cs[i].Some? && (cs[i].value.MethodrefConstant? || cs[i].value.InterfaceMethodrefConstant?))
  {
  }

  /** `ConstantPool.referencedConstantsAccept`: the visits of every constant
      from slot `i` on, in slot order; the first failing constant stops it. */
  function PoolReferencedFrom(cs: seq<Option<Constant>>, i: nat): (r: Result<seq<Visit>>)
    ensures r.Success? <==> forall j :: i <= j < |cs| && cs[j].Some? ==> Referenced(cs, cs[j].value).Success?
    decreases |cs| - i
  {
    if i >= |cs| then Success([])
    else if cs[i].None? then PoolReferencedFrom(cs, i + 1)
    else
      var here :- Referenced(cs, cs[i].value);
      var rest :- PoolReferencedFrom(cs, i + 1);
      Success(here + rest)
  }
}
