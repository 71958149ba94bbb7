/** The constant-pool entries of section 4.4 of the Java Virtual Machine
    Specification: their values, the `of` validators, `copyWith`, the equality
    the pool interns by, and the byte layout of each entry's info part (the
    tag byte in front of it is written by the pool). */
module Constants {
  import opened Wrappers
  import opened Bytes

  // ---------------------------------------------------------------------------
  // Method handle reference kinds (section 4.4.8, values 1 to 9).

  datatype ReferenceKind =
    | GET_FIELD
    | GET_STATIC
    | PUT_FIELD
    | PUT_STATIC
    | INVOKE_VIRTUAL
    | INVOKE_STATIC
    | INVOKE_SPECIAL
    | NEW_INVOKE_SPECIAL
    | INVOKE_INTERFACE

  /** The enum's declaration order, which `values()` iterates. */
  const REFERENCE_KINDS: seq<ReferenceKind> := [GET_FIELD, GET_STATIC, PUT_FIELD, PUT_STATIC,
    INVOKE_VIRTUAL, INVOKE_STATIC, INVOKE_SPECIAL, NEW_INVOKE_SPECIAL, INVOKE_INTERFACE]

  function KindValue(k: ReferenceKind): int {
    match k
    case GET_FIELD => 1
    case GET_STATIC => 2
    case PUT_FIELD => 3
    case PUT_STATIC => 4
    case INVOKE_VIRTUAL => 5
    case INVOKE_STATIC => 6
    case INVOKE_SPECIAL => 7
    case NEW_INVOKE_SPECIAL => 8
    case INVOKE_INTERFACE => 9
  }

  function SimpleName(k: ReferenceKind): string {
    match k
    case GET_FIELD => "REF_getField"
    case GET_STATIC => "REF_getStatic"
    case PUT_FIELD => "REF_putField"
    case PUT_STATIC => "REF_putStatic"
    case INVOKE_VIRTUAL => "REF_invokeVirtual"
    case INVOKE_STATIC => "REF_invokeStatic"
    case INVOKE_SPECIAL => "REF_invokeSpecial"
    case NEW_INVOKE_SPECIAL => "REF_newInvokeSpecial"
    case INVOKE_INTERFACE => "REF_invokeInterface"
  }

  /** `ReferenceKind.of`: the lookup in the value-to-kind map; an unknown value
      throws. */
  function ReferenceKindOf(value: int): (r: Result<ReferenceKind>)
    ensures r.Success? <==> 1 <= value <= 9
    ensures r.Success? ==> KindValue(r.value) == value
  {
    if value == 1 then Success(GET_FIELD)
    else if value == 2 then Success(GET_STATIC)
    else if value == 3 then Success(PUT_FIELD)
    else if value == 4 then Success(PUT_STATIC)
    else if value == 5 then Success(INVOKE_VIRTUAL)
    else if value == 6 then Success(INVOKE_STATIC)
    else if value == 7 then Success(INVOKE_SPECIAL)
    else if value == 8 then Success(NEW_INVOKE_SPECIAL)
    else if value == 9 then Success(INVOKE_INTERFACE)
    else Failure("IllegalArgumentException")
  }

  lemma ReferenceKindOfValue(k: ReferenceKind)
    ensures ReferenceKindOf(KindValue(k)) == Success(k)
  {
  }

  /** The first kind in `kinds` whose simple name is `text`. */
  function FindBySimpleName(kinds: seq<ReferenceKind>, text: string): (r: Result<ReferenceKind>)
    ensures r.Success? <==> exists i :: 0 <= i < |kinds| && SimpleName(kinds[i]) == text
    ensures r.Success? ==> r.value in kinds && SimpleName(r.value) == text
    decreases |kinds|
  {
    if kinds == [] then Failure("IllegalStateException")
    else if SimpleName(kinds[0]) == text then Success(kinds[0])
    else
      var r := FindBySimpleName(kinds[1..], text);
      assert forall i :: 1 <= i < |kinds| ==> kinds[i] == kinds[1..][i - 1];
      r
  }

  /** One step of the search: the kind at `i`, or the search from `i + 1`. */
  lemma FindStep(kinds: seq<ReferenceKind>, i: nat, text: string)
    requires i < |kinds|
    ensures FindBySimpleName(kinds[i..], text) ==
      if SimpleName(kinds[i]) == text then Success(kinds[i]) else FindBySimpleName(kinds[i + 1..], text)
  {
    assert kinds[i..][1..] == kinds[i + 1..];
  }

  /** `ofSimpleName`: the linear search over `values()` with an early return. */
  method OfSimpleName(text: string) returns (r: Result<ReferenceKind>)
    ensures r == FindBySimpleName(REFERENCE_KINDS, text)
  {
    for i := 0 to |REFERENCE_KINDS|
      invariant FindBySimpleName(REFERENCE_KINDS, text) == FindBySimpleName(REFERENCE_KINDS[i..], text)
    {
      FindStep(REFERENCE_KINDS, i, text);
      if SimpleName(REFERENCE_KINDS[i]) == text {
        return Success(REFERENCE_KINDS[i]);
      }
    }
    return Failure("IllegalStateException");
  }

  lemma SimpleNameInjective(a: ReferenceKind, b: ReferenceKind)
    ensures SimpleName(a) == SimpleName(b) ==> a == b
  {
    if SimpleName(a) == SimpleName(b) {
      assert |SimpleName(a)| == |SimpleName(b)|;
      assert SimpleName(a)[4] == SimpleName(b)[4] && SimpleName(a)[5] == SimpleName(b)[5];
      assert SimpleName(a)[10] == SimpleName(b)[10];
    }
  }

  /** Position of each kind in `values()`. */
  function Ordinal(k: ReferenceKind): (i: nat)
    ensures i < |REFERENCE_KINDS| && REFERENCE_KINDS[i] == k
  {
    KindValue(k) - 1
  }

  /** Every kind is found again by its simple name. */
  lemma OfSimpleNameInverse(k: ReferenceKind)
    ensures FindBySimpleName(REFERENCE_KINDS, SimpleName(k)) == Success(k)
  {
    var i := Ordinal(k);
    var r := FindBySimpleName(REFERENCE_KINDS, SimpleName(k));
    assert SimpleName(REFERENCE_KINDS[i]) == SimpleName(k);
    SimpleNameInjective(r.value, k);
  }

  /** Only the simple name of some kind is found. */
  lemma OfSimpleNameKnown(text: string)
    ensures FindBySimpleName(REFERENCE_KINDS, text).Success? <==> exists k :: SimpleName(k) == text
  {
    if k :| SimpleName(k) == text {
      var i := Ordinal(k);
      assert SimpleName(REFERENCE_KINDS[i]) == text;
    }
  }

  // ---------------------------------------------------------------------------
  // The constants.

  datatype ConstantType =
    | UTF8 | INTEGER | LONG | CLASS | STRING | FIELD_REF | METHOD_REF | INTERFACE_METHOD_REF
    | NAME_AND_TYPE | METHOD_HANDLE | METHOD_TYPE | DYNAMIC | INVOKE_DYNAMIC | PACKAGE

  /** A constant's value. `DynamicConstant` and `InvokeDynamicConstant`
      declare no `equals`, so two of them are equal only when they are the same
      object; `instance` stands for that object's identity. */
  datatype Constant =
    | Utf8Constant(value: string)
    | IntegerConstant(intValue: int)
    | LongConstant(longValue: int)
    | ClassConstant(classNameIndex: int)
    | StringConstant(stringIndex: int)
    | FieldrefConstant(classIndex: int, nameAndTypeIndex: int)
    | MethodrefConstant(classIndex: int, nameAndTypeIndex: int)
    | InterfaceMethodrefConstant(classIndex: int, nameAndTypeIndex: int)
    | NameAndTypeConstant(nameIndex: int, descriptorIndex: int)
    | MethodHandleConstant(referenceKind: ReferenceKind, referenceIndex: int)
    | MethodTypeConstant(descriptorIndex: int)
    | DynamicConstant(bootstrapMethodAttrIndex: int, nameAndTypeIndex: int, instance: nat)
    | InvokeDynamicConstant(bootstrapMethodAttrIndex: int, nameAndTypeIndex: int, instance: nat)
    | PackageConstant(packageNameIndex: int)
  {
    predicate IsRef() { FieldrefConstant? || MethodrefConstant? || InterfaceMethodrefConstant? }
    predicate IsBootstrapRef() { DynamicConstant? || InvokeDynamicConstant? }
  }

  function TypeOf(c: Constant): ConstantType {
    match c
    case Utf8Constant(_) => UTF8
    case IntegerConstant(_) => INTEGER
    case LongConstant(_) => LONG
    case ClassConstant(_) => CLASS
    case StringConstant(_) => STRING
    case FieldrefConstant(_, _) => FIELD_REF
    case MethodrefConstant(_, _) => METHOD_REF
    case InterfaceMethodrefConstant(_, _) => INTERFACE_METHOD_REF
    case NameAndTypeConstant(_, _) => NAME_AND_TYPE
    case MethodHandleConstant(_, _) => METHOD_HANDLE
    case MethodTypeConstant(_) => METHOD_TYPE
    case DynamicConstant(_, _, _) => DYNAMIC
    case InvokeDynamicConstant(_, _, _) => INVOKE_DYNAMIC
    case PackageConstant(_) => PACKAGE
  }

  /** The tag byte of each type (Table 4.4-B). */
  function Tag(t: ConstantType): int {
    match t
    case UTF8 => 1
    case INTEGER => 3
    case LONG => 5
    case CLASS => 7
    case STRING => 8
    case FIELD_REF => 9
    case METHOD_REF => 10
    case INTERFACE_METHOD_REF => 11
    case NAME_AND_TYPE => 12
    case METHOD_HANDLE => 15
    case METHOD_TYPE => 16
    case DYNAMIC => 17
    case INVOKE_DYNAMIC => 18
    case PACKAGE => 20
  }

  /** Number of pool slots the constant occupies (section 4.4.5). */
  function PoolSize(c: Constant): nat {
    if c.LongConstant? then 2 else 1
  }

  /** The `equals` methods, class by class: the same class and equal fields,
      and object identity for the two bootstrap-method constants. It agrees
      with value equality of the model, so a map keyed on `Constant` interns
      exactly as the source's hash map does. */
  function Equals(a: Constant, b: Constant): (r: bool)
    ensures r <==> a == b
    ensures a.IsRef() && b.IsRef() && TypeOf(a) != TypeOf(b) ==> !r
  {
    match a
    case Utf8Constant(v) => b.Utf8Constant? && b.value == v
    case IntegerConstant(v) => b.IntegerConstant? && b.intValue == v
    case LongConstant(v) => b.LongConstant? && b.longValue == v
    case ClassConstant(n) => b.ClassConstant? && b.classNameIndex == n
    case StringConstant(s) => b.StringConstant? && b.stringIndex == s
    case FieldrefConstant(c, nt) => b.FieldrefConstant? && b.classIndex == c && b.nameAndTypeIndex == nt
    case MethodrefConstant(c, nt) => b.MethodrefConstant? && b.classIndex == c && b.nameAndTypeIndex == nt
    case InterfaceMethodrefConstant(c, nt) =>
      b.InterfaceMethodrefConstant? && b.classIndex == c && b.nameAndTypeIndex == nt
    case NameAndTypeConstant(n, d) => b.NameAndTypeConstant? && b.nameIndex == n && b.descriptorIndex == d
    case MethodHandleConstant(k, i) => b.MethodHandleConstant? && b.referenceKind == k && b.referenceIndex == i
    case MethodTypeConstant(d) => b.MethodTypeConstant? && b.descriptorIndex == d
    case DynamicConstant(_, _, _) => a == b
    case InvokeDynamicConstant(_, _, _) => a == b
    case PackageConstant(n) => b.PackageConstant? && b.packageNameIndex == n
  }

  // ---------------------------------------------------------------------------
  // The `of` validators that check their arguments.

  function StringConstantOf(stringIndex: int): (r: Result<Constant>)
    ensures r.Success? <==> stringIndex >= 1
    ensures r.Success? ==> r.value.StringConstant? && r.value.stringIndex == stringIndex
  {
    if stringIndex >= 1 then Success(StringConstant(stringIndex)) else Failure("IllegalArgumentException")
  }

  function NameAndTypeConstantOf(nameIndex: int, descriptorIndex: int): (r: Result<Constant>)
    ensures r.Success? <==> nameIndex >= 1 && descriptorIndex >= 1
    ensures r.Success? ==> (r.value.NameAndTypeConstant? &&
      r.value.nameIndex == nameIndex && r.value.descriptorIndex == descriptorIndex)
  {
    if nameIndex < 1 then Failure("IllegalArgumentException")
    else if descriptorIndex < 1 then Failure("IllegalArgumentException")
    else Success(NameAndTypeConstant(nameIndex, descriptorIndex))
  }

  function MethodTypeConstantOf(descriptorIndex: int): (r: Result<Constant>)
    ensures r.Success? <==> descriptorIndex >= 1
    ensures r.Success? ==> r.value.MethodTypeConstant? && r.value.descriptorIndex == descriptorIndex
  {
    if descriptorIndex >= 1 then Success(MethodTypeConstant(descriptorIndex)) else Failure("IllegalArgumentException")
  }

  function PackageConstantOf(nameIndex: int): (r: Result<Constant>)
    ensures r.Success? <==> nameIndex >= 1
    ensures r.Success? ==> r.value.PackageConstant? && r.value.packageNameIndex == nameIndex
  {
    if nameIndex >= 1 then Success(PackageConstant(nameIndex)) else Failure("IllegalArgumentException")
  }

  /** `FieldrefConstant.of`, `MethodrefConstant.of` and
      `InterfaceMethodrefConstant.of`: both indices must be positive. */
  function RefConstantOf(t: ConstantType, classIndex: int, nameAndTypeIndex: int): (r: Result<Constant>)
    requires t == FIELD_REF || t == METHOD_REF || t == INTERFACE_METHOD_REF
    ensures r.Success? <==> classIndex >= 1 && nameAndTypeIndex >= 1
    ensures r.Success? ==> (r.value.IsRef() && TypeOf(r.value) == t &&
      r.value.classIndex == classIndex && r.value.nameAndTypeIndex == nameAndTypeIndex)
  {
    if classIndex < 1 then Failure("IllegalArgumentException")
    else if nameAndTypeIndex < 1 then Failure("IllegalArgumentException")
    else if t == FIELD_REF then Success(FieldrefConstant(classIndex, nameAndTypeIndex))
    else if t == METHOD_REF then Success(MethodrefConstant(classIndex, nameAndTypeIndex))
    else Success(InterfaceMethodrefConstant(classIndex, nameAndTypeIndex))
  }

  /** `InvokeDynamicConstant.of` and `DynamicConstant.of`: a non-negative
      bootstrap index and a positive name-and-type index; each call makes a new
      object. */
  function BootstrapRefConstantOf(t: ConstantType, bootstrapMethodAttrIndex: int, nameAndTypeIndex: int, instance: nat): (r: Result<Constant>)
    requires t == DYNAMIC || t == INVOKE_DYNAMIC
    ensures r.Success? <==> bootstrapMethodAttrIndex >= 0 && nameAndTypeIndex >= 1
    ensures r.Success? ==> (r.value.IsBootstrapRef() && TypeOf(r.value) == t && r.value.instance == instance &&
      r.value.bootstrapMethodAttrIndex == bootstrapMethodAttrIndex && r.value.nameAndTypeIndex == nameAndTypeIndex)
  {
    if bootstrapMethodAttrIndex < 0 then Failure("IllegalArgumentException")
    else if nameAndTypeIndex < 1 then Failure("IllegalArgumentException")
    else if t == DYNAMIC then Success(DynamicConstant(bootstrapMethodAttrIndex, nameAndTypeIndex, instance))
    else Success(InvokeDynamicConstant(bootstrapMethodAttrIndex, nameAndTypeIndex, instance))
  }

  function MethodHandleConstantOf(referenceKind: ReferenceKind, referenceIndex: int): (r: Result<Constant>)
    ensures r.Success? <==> referenceIndex >= 1
    ensures r.Success? ==> (r.value.MethodHandleConstant? &&
      r.value.referenceKind == referenceKind && r.value.referenceIndex == referenceIndex)
  {
    if referenceIndex >= 1 then Success(MethodHandleConstant(referenceKind, referenceIndex))
    else Failure("IllegalArgumentException")
  }

  // ---------------------------------------------------------------------------
  // `copyWith`: a new constant of the same class; a field that is not
  // supplied keeps its value. It goes through the private constructor, so it
  // does not validate.

  function OrElse(o: Option<int>, d: int): int {
    if o.Some? then o.value else d
  }

  /** The two indices of the constants that carry a pair of them. */
  predicate HasIndexPair(c: Constant) {
    c.NameAndTypeConstant? || c.IsRef() || c.IsBootstrapRef()
  }

  function FirstIndex(c: Constant): int
    requires HasIndexPair(c)
  {
    if c.NameAndTypeConstant? then c.nameIndex
    else if c.IsRef() then c.classIndex
    else c.bootstrapMethodAttrIndex
  }

  function SecondIndex(c: Constant): int
    requires HasIndexPair(c)
  {
    if c.NameAndTypeConstant? then c.descriptorIndex else c.nameAndTypeIndex
  }

  /** `copyWith(first, second)` of NameAndType, Fieldref, InterfaceMethodref,
      InvokeDynamic and Dynamic. */
  function CopyWithIndices(c: Constant, first: Option<int>, second: Option<int>, instance: nat): (r: Constant)
    requires HasIndexPair(c)
    ensures HasIndexPair(r) && TypeOf(r) == TypeOf(c)
    ensures FirstIndex(r) == (if first.Some? then first.value else FirstIndex(c))
    ensures SecondIndex(r) == (if second.Some? then second.value else SecondIndex(c))
    ensures c.IsBootstrapRef() ==> r.instance == instance
  {
    var a := OrElse(first, FirstIndex(c));
    var b := OrElse(second, SecondIndex(c));
    match c
    case NameAndTypeConstant(_, _) => NameAndTypeConstant(a, b)
    case FieldrefConstant(_, _) => FieldrefConstant(a, b)
    case MethodrefConstant(_, _) => MethodrefConstant(a, b)
    case InterfaceMethodrefConstant(_, _) => InterfaceMethodrefConstant(a, b)
    case DynamicConstant(_, _, _) => DynamicConstant(a, b, instance)
    case InvokeDynamicConstant(_, _, _) => InvokeDynamicConstant(a, b, instance)
  }

  /** Copying with no field supplied gives an equal constant, except for the
      two bootstrap-method constants, whose copy is another object. */
  lemma CopyWithNothing(c: Constant, instance: nat)
    requires HasIndexPair(c)
    ensures CopyWithIndices(c, None, None, instance) == c <==> !c.IsBootstrapRef() || c.instance == instance
  {
  }

  function MethodHandleCopyWith(c: Constant, referenceKind: Option<ReferenceKind>, referenceIndex: Option<int>): (r: Constant)
    requires c.MethodHandleConstant?
    ensures r.MethodHandleConstant?
    ensures r.referenceKind == (if referenceKind.Some? then referenceKind.value else c.referenceKind)
    ensures r.referenceIndex == (if referenceIndex.Some? then referenceIndex.value else c.referenceIndex)
  {
    MethodHandleConstant(if referenceKind.Some? then referenceKind.value else c.referenceKind,
                         OrElse(referenceIndex, c.referenceIndex))
  }

  function MethodTypeCopyWith(c: Constant, descriptorIndex: Option<int>): (r: Constant)
    requires c.MethodTypeConstant?
    ensures r.MethodTypeConstant?
    ensures r.descriptorIndex == (if descriptorIndex.Some? then descriptorIndex.value else c.descriptorIndex)
  {
    MethodTypeConstant(OrElse(descriptorIndex, c.descriptorIndex))
  }

  // ---------------------------------------------------------------------------
  // The info part of each entry: `writeConstantInfo` and, from the empty
  // constant that the reader creates for a tag, `readConstantInfo`. UTF-8
  // entries use modified UTF-8, which is not part of this model.

  /** `LongConstant.writeConstantInfo`: the arithmetic shift right by 32, then
      the low 32 bits, each as a 32-bit integer. */
  function HighWord(v: int): int { ToSigned32(v / TWO_32) }
  function LowWord(v: int): int { ToSigned32(v) }

  /** The info of each entry has the width of section 4.4: four bytes for an
      integer, eight for a long, three for a method handle, four for the
      constants with two indices and two for those with one. */
  function WriteConstantInfo(c: Constant): (r: seq<Byte>)
    requires !c.Utf8Constant?
    ensures |r| == (if c.LongConstant? then 8
                    else if c.IntegerConstant? || c.IsRef() || c.IsBootstrapRef() || c.NameAndTypeConstant? then 4
                    else if c.MethodHandleConstant? then 3
                    else 2)
  {
    match c
    case IntegerConstant(v) => U4(v)
    case LongConstant(v) => U4(HighWord(v)) + U4(LowWord(v))
    case ClassConstant(n) => U2(n)
    case StringConstant(s) => U2(s)
    case FieldrefConstant(ci, nt) => U2(ci) + U2(nt)
    case MethodrefConstant(ci, nt) => U2(ci) + U2(nt)
    case InterfaceMethodrefConstant(ci, nt) => U2(ci) + U2(nt)
    case NameAndTypeConstant(n, d) => U2(n) + U2(d)
    case MethodHandleConstant(k, i) => U1(KindValue(k)) + U2(i)
    case MethodTypeConstant(d) => U2(d)
    case DynamicConstant(b, nt, _) => U2(b) + U2(nt)
    case InvokeDynamicConstant(b, nt, _) => U2(b) + U2(nt)
    case PackageConstant(n) => U2(n)
  }

  /** `LongConstant.readConstantInfo`: two unsigned 32-bit words combined as
      `(high shl 32) + low` in 64-bit arithmetic. */
  function CombineWords(high: int, low: int): int {
    ToSigned64(ToSigned64(high * TWO_32) + low)
  }

  /** Reading keeps the class of the empty constant, and a bootstrap constant
      keeps its identity. */
  function ReadConstantInfo(c: Constant, s: seq<Byte>, p: nat): (r: Result<(Constant, nat)>)
    requires !c.Utf8Constant?
    ensures r.Success? ==> TypeOf(r.value.0) == TypeOf(c) && FieldsFit(r.value.0)
    ensures r.Success? && c.IsBootstrapRef() ==> r.value.0.instance == c.instance
  {
    match c
    case IntegerConstant(_) =>
      var (v, q) :- ReadInt(s, p);
      Success((IntegerConstant(v), q))
    case LongConstant(_) =>
      var (high, q) :- ReadU4(s, p);
      var (low, q') :- ReadU4(s, q);
      Success((LongConstant(CombineWords(high, low)), q'))
    case ClassConstant(_) =>
      var (n, q) :- ReadU2(s, p);
      Success((ClassConstant(n), q))
    case StringConstant(_) =>
      var (n, q) :- ReadU2(s, p);
      Success((StringConstant(n), q))
    case FieldrefConstant(_, _) =>
      var (ci, q) :- ReadU2(s, p);
      var (nt, q') :- ReadU2(s, q);
      Success((FieldrefConstant(ci, nt), q'))
    case MethodrefConstant(_, _) =>
      var (ci, q) :- ReadU2(s, p);
      var (nt, q') :- ReadU2(s, q);
      Success((MethodrefConstant(ci, nt), q'))
    case InterfaceMethodrefConstant(_, _) =>
      var (ci, q) :- ReadU2(s, p);
      var (nt, q') :- ReadU2(s, q);
      Success((InterfaceMethodrefConstant(ci, nt), q'))
    case NameAndTypeConstant(_, _) =>
      var (n, q) :- ReadU2(s, p);
      var (d, q') :- ReadU2(s, q);
      Success((NameAndTypeConstant(n, d), q'))
    case MethodHandleConstant(_, _) =>
      var (kv, q) :- ReadU1(s, p);
      var k :- ReferenceKindOf(kv);
      var (i, q') :- ReadU2(s, q);
      Success((MethodHandleConstant(k, i), q'))
    case MethodTypeConstant(_) =>
      var (d, q) :- ReadU2(s, p);
      Success((MethodTypeConstant(d), q))
    case DynamicConstant(_, _, id) =>
      var (b, q) :- ReadU2(s, p);
      var (nt, q') :- ReadU2(s, q);
      Success((DynamicConstant(b, nt, id), q'))
    case InvokeDynamicConstant(_, _, id) =>
      var (b, q) :- ReadU2(s, p);
      var (nt, q') :- ReadU2(s, q);
      Success((InvokeDynamicConstant(b, nt, id), q'))
    case PackageConstant(_) =>
      var (n, q) :- ReadU2(s, p);
      Success((PackageConstant(n), q))
  }

  /** The fields fit their widths in the class file. */
  predicate FieldsFit(c: Constant) {
    match c
    case Utf8Constant(_) => true
    case IntegerConstant(v) => IsInt32(v)
    case LongConstant(v) => IsInt64(v)
    case ClassConstant(n) => IsU2(n)
    case StringConstant(n) => IsU2(n)
    case FieldrefConstant(ci, nt) => IsU2(ci) && IsU2(nt)
    case MethodrefConstant(ci, nt) => IsU2(ci) && IsU2(nt)
    case InterfaceMethodrefConstant(ci, nt) => IsU2(ci) && IsU2(nt)
    case NameAndTypeConstant(n, d) => IsU2(n) && IsU2(d)
    case MethodHandleConstant(_, i) => IsU2(i)
    case MethodTypeConstant(d) => IsU2(d)
    case DynamicConstant(b, nt, _) => IsU2(b) && IsU2(nt)
    case InvokeDynamicConstant(b, nt, _) => IsU2(b) && IsU2(nt)
    case PackageConstant(n) => IsU2(n)
  }

  /** The 64-bit split: the two words put back together give the value. */
  lemma {:induction false} LongWordsRoundTrip(v: int)
    requires IsInt64(v)
    ensures CombineWords(HighWord(v) % TWO_32, LowWord(v) % TWO_32) == v
  {
    var h := v / TWO_32;
    var l := v % TWO_32;
    assert v == h * TWO_32 + l;
    assert -TWO_32 / 2 <= h < TWO_32 / 2 by {
      DivBounds(v);
    }
    assert ToSigned32(h) == h by {
      if h < 0 {
        DivModUnique(h, TWO_32, -1, h + TWO_32);
      } else {
        DivModUnique(h, TWO_32, 0, h);
      }
    }
    assert HighWord(v) % TWO_32 == h % TWO_32;
    assert LowWord(v) % TWO_32 == l by {
      var u := v % TWO_32;
      if u >= TWO_32 / 2 {
        DivModUnique(u - TWO_32, TWO_32, -1, u);
      }
    }
    var hu := h % TWO_32;
    // hu * 2^32 is congruent to h * 2^32 modulo 2^64
    if h < 0 {
      DivModUnique(h, TWO_32, -1, h + TWO_32);
      assert hu == h + TWO_32;
      assert hu * TWO_32 == h * TWO_32 + TWO_64;
      DivModUnique(hu * TWO_32, TWO_64, 0, hu * TWO_32);
      assert ToSigned64(hu * TWO_32) == h * TWO_32;
    } else {
      DivModUnique(h, TWO_32, 0, h);
      DivModUnique(hu * TWO_32, TWO_64, 0, hu * TWO_32);
      assert ToSigned64(hu * TWO_32) == h * TWO_32;
    }
    assert ToSigned64(hu * TWO_32) + l == v;
    if v < 0 {
      DivModUnique(v, TWO_64, -1, v + TWO_64);
    } else {
      DivModUnique(v, TWO_64, 0, v);
    }
  }

  lemma DivBounds(v: int)
    requires IsInt64(v)
    ensures -TWO_32 / 2 <= v / TWO_32 < TWO_32 / 2
  {
  }

  /** `readConstantInfo` on the empty constant of the same class reads back
      what `writeConstantInfo` wrote. */
  lemma ReadConstantInfoAt(s: seq<Byte>, p: nat, c: Constant)
    requires !c.Utf8Constant? && FieldsFit(c) && At(s, p, WriteConstantInfo(c))
    ensures ReadConstantInfo(EmptyOf(c), s, p) == Success((c, p + |WriteConstantInfo(c)|))
  {
    match c
    case IntegerConstant(v) => ReadIntegerInfoAt(s, p, v);
    case LongConstant(v) => ReadLongInfoAt(s, p, v);
    case ClassConstant(n) => ReadClassInfoAt(s, p, n);
    case StringConstant(n) => ReadStringInfoAt(s, p, n);
    case MethodTypeConstant(d) => ReadMethodTypeInfoAt(s, p, d);
    case PackageConstant(n) => ReadPackageInfoAt(s, p, n);
    case MethodHandleConstant(k, i) => ReadMethodHandleInfoAt(s, p, k, i);
    case FieldrefConstant(a, b) => ReadFieldrefInfoAt(s, p, a, b);
    case MethodrefConstant(a, b) => ReadMethodrefInfoAt(s, p, a, b);
    case InterfaceMethodrefConstant(a, b) => ReadInterfaceMethodrefInfoAt(s, p, a, b);
    case NameAndTypeConstant(a, b) => ReadNameAndTypeInfoAt(s, p, a, b);
    case DynamicConstant(a, b, id) => ReadDynamicInfoAt(s, p, a, b, id);
    case InvokeDynamicConstant(a, b, id) => ReadInvokeDynamicInfoAt(s, p, a, b, id);
  }

  lemma ReadIntegerInfoAt(s: seq<Byte>, p: nat, v: int)
    requires IsInt32(v) && At(s, p, U4(v))
    ensures ReadConstantInfo(IntegerConstant(0), s, p) == Success((IntegerConstant(v), p + 4))
  {
    ReadIntAt(s, p, v);
  }

  lemma ReadLongInfoAt(s: seq<Byte>, p: nat, v: int)
    requires IsInt64(v) && At(s, p, U4(HighWord(v)) + U4(LowWord(v)))
    ensures ReadConstantInfo(LongConstant(0), s, p) == Success((LongConstant(v), p + 8))
  {
    ReadLongAt(s, p, v);
  }

  lemma ReadIndexAt(s: seq<Byte>, p: nat, n: int)
    requires IsU2(n) && At(s, p, U2(n))
    ensures ReadU2(s, p) == Success((n, p + 2))
  {
    ReadU2At(s, p, n);
    DivModUnique(n, TWO_16, 0, n);
  }

  lemma ReadClassInfoAt(s: seq<Byte>, p: nat, n: int)
    requires IsU2(n) && At(s, p, U2(n))
    ensures ReadConstantInfo(ClassConstant(-1), s, p) == Success((ClassConstant(n), p + 2))
  {
    ReadIndexAt(s, p, n);
  }

  lemma ReadStringInfoAt(s: seq<Byte>, p: nat, n: int)
    requires IsU2(n) && At(s, p, U2(n))
    ensures ReadConstantInfo(StringConstant(-1), s, p) == Success((StringConstant(n), p + 2))
  {
    ReadIndexAt(s, p, n);
  }

  lemma ReadMethodTypeInfoAt(s: seq<Byte>, p: nat, n: int)
    requires IsU2(n) && At(s, p, U2(n))
    ensures ReadConstantInfo(MethodTypeConstant(-1), s, p) == Success((MethodTypeConstant(n), p + 2))
  {
    ReadIndexAt(s, p, n);
  }

  lemma ReadPackageInfoAt(s: seq<Byte>, p: nat, n: int)
    requires IsU2(n) && At(s, p, U2(n))
    ensures ReadConstantInfo(PackageConstant(-1), s, p) == Success((PackageConstant(n), p + 2))
  {
    ReadIndexAt(s, p, n);
  }

  lemma ReadMethodHandleInfoAt(s: seq<Byte>, p: nat, k: ReferenceKind, i: int)
    requires IsU2(i) && At(s, p, U1(KindValue(k)) + U2(i))
    ensures ReadConstantInfo(MethodHandleConstant(GET_FIELD, -1), s, p) == Success((MethodHandleConstant(k, i), p + 3))
  {
    AtSplit(s, p, U1(KindValue(k)), U2(i));
    ReadU1At(s, p, KindValue(k));
    ReferenceKindOfValue(k);
    ReadIndexAt(s, p + 1, i);
  }

  lemma ReadPairAt(s: seq<Byte>, p: nat, a: int, b: int)
    requires IsU2(a) && IsU2(b) && At(s, p, U2(a) + U2(b))
    ensures ReadU2(s, p) == Success((a, p + 2)) && ReadU2(s, p + 2) == Success((b, p + 4))
  {
    AtSplit(s, p, U2(a), U2(b));
    ReadIndexAt(s, p, a);
    ReadIndexAt(s, p + 2, b);
  }

  lemma ReadFieldrefInfoAt(s: seq<Byte>, p: nat, a: int, b: int)
    requires IsU2(a) && IsU2(b) && At(s, p, U2(a) + U2(b))
    ensures ReadConstantInfo(FieldrefConstant(-1, -1), s, p) == Success((FieldrefConstant(a, b), p + 4))
  {
    ReadPairAt(s, p, a, b);
  }

  lemma ReadMethodrefInfoAt(s: seq<Byte>, p: nat, a: int, b: int)
    requires IsU2(a) && IsU2(b) && At(s, p, U2(a) + U2(b))
    ensures ReadConstantInfo(MethodrefConstant(-1, -1), s, p) == Success((MethodrefConstant(a, b), p + 4))
  {
    ReadPairAt(s, p, a, b);
  }

  lemma ReadInterfaceMethodrefInfoAt(s: seq<Byte>, p: nat, a: int, b: int)
    requires IsU2(a) && IsU2(b) && At(s, p, U2(a) + U2(b))
    ensures ReadConstantInfo(InterfaceMethodrefConstant(-1, -1), s, p) ==
      Success((InterfaceMethodrefConstant(a, b), p + 4))
  {
    ReadPairAt(s, p, a, b);
  }

  lemma ReadNameAndTypeInfoAt(s: seq<Byte>, p: nat, a: int, b: int)
    requires IsU2(a) && IsU2(b) && At(s, p, U2(a) + U2(b))
    ensures ReadConstantInfo(NameAndTypeConstant(-1, -1), s, p) == Success((NameAndTypeConstant(a, b), p + 4))
  {
    ReadPairAt(s, p, a, b);
  }

  lemma ReadDynamicInfoAt(s: seq<Byte>, p: nat, a: int, b: int, id: nat)
    requires IsU2(a) && IsU2(b) && At(s, p, U2(a) + U2(b))
    ensures ReadConstantInfo(DynamicConstant(-1, -1, id), s, p) == Success((DynamicConstant(a, b, id), p + 4))
  {
    ReadPairAt(s, p, a, b);
  }

  lemma ReadInvokeDynamicInfoAt(s: seq<Byte>, p: nat, a: int, b: int, id: nat)
    requires IsU2(a) && IsU2(b) && At(s, p, U2(a) + U2(b))
    ensures ReadConstantInfo(InvokeDynamicConstant(-1, -1, id), s, p) == Success((InvokeDynamicConstant(a, b, id), p + 4))
  {
    ReadPairAt(s, p, a, b);
  }

  /** The constant `empty()` creates for each class before reading (its
      indices -1; a bootstrap constant keeps its object identity). */
  function EmptyOf(c: Constant): Constant
    requires !c.Utf8Constant?
  {
    match c
    case IntegerConstant(_) => IntegerConstant(0)
    case LongConstant(_) => LongConstant(0)
    case ClassConstant(_) => ClassConstant(-1)
    case StringConstant(_) => StringConstant(-1)
    case FieldrefConstant(_, _) => FieldrefConstant(-1, -1)
    case MethodrefConstant(_, _) => MethodrefConstant(-1, -1)
    case InterfaceMethodrefConstant(_, _) => InterfaceMethodrefConstant(-1, -1)
    case NameAndTypeConstant(_, _) => NameAndTypeConstant(-1, -1)
    case MethodHandleConstant(_, _) => MethodHandleConstant(GET_FIELD, -1)
    case MethodTypeConstant(_) => MethodTypeConstant(-1)
    case DynamicConstant(_, _, id) => DynamicConstant(-1, -1, id)
    case InvokeDynamicConstant(_, _, id) => InvokeDynamicConstant(-1, -1, id)
    case PackageConstant(_) => PackageConstant(-1)
  }

  /** The empty constant that `ConstantType.of(tag)` creates, with
      `instance` as the identity of a new bootstrap constant. A UTF-8 entry,
      whose modified UTF-8 info is not modelled, and a tag of no constant
      type of this model are errors. */
  function EmptyOfTag(tag: int, instance: nat): (r: Result<Constant>)
    ensures r.Success? ==> !r.value.Utf8Constant? && Tag(TypeOf(r.value)) == tag && r.value == EmptyOf(r.value)
    ensures r.Success? && r.value.IsBootstrapRef() ==> r.value.instance == instance
  {
    if tag == 3 then Success(IntegerConstant(0))
    else if tag == 5 then Success(LongConstant(0))
    else if tag == 7 then Success(ClassConstant(-1))
    else if tag == 8 then Success(StringConstant(-1))
    else if tag == 9 then Success(FieldrefConstant(-1, -1))
    else if tag == 10 then Success(MethodrefConstant(-1, -1))
    else if tag == 11 then Success(InterfaceMethodrefConstant(-1, -1))
    else if tag == 12 then Success(NameAndTypeConstant(-1, -1))
    else if tag == 15 then Success(MethodHandleConstant(GET_FIELD, -1))
    else if tag == 16 then Success(MethodTypeConstant(-1))
    else if tag == 17 then Success(DynamicConstant(-1, -1, instance))
    else if tag == 18 then Success(InvokeDynamicConstant(-1, -1, instance))
    else if tag == 20 then Success(PackageConstant(-1))
    else Failure("IllegalArgumentException")
  }

  /** Every constant other than UTF-8 has its tag's empty constant. */
  lemma EmptyOfTagOf(c: Constant, instance: nat)
    requires !c.Utf8Constant? && (c.IsBootstrapRef() ==> c.instance == instance)
    ensures EmptyOfTag(Tag(TypeOf(c)), instance) == Success(EmptyOf(c))
  {
  }

  /** `readConstant`: the tag byte, the empty constant of that tag, then its
      info. */
  function ReadEntry(s: seq<Byte>, p: nat, instance: nat): (r: Result<(Constant, nat)>)
    ensures r.Success? ==>
      !r.value.0.Utf8Constant? && FieldsFit(r.value.0) && ReadU1(s, p).Success? &&
      Tag(TypeOf(r.value.0)) == ReadU1(s, p).value.0
  {
    var (tag, q) :- ReadU1(s, p);
    var empty :- EmptyOfTag(tag, instance);
    ReadConstantInfo(empty, s, q)
  }

  lemma ReadLongAt(s: seq<Byte>, p: nat, v: int)
    requires IsInt64(v) && At(s, p, U4(HighWord(v)) + U4(LowWord(v)))
    ensures ReadU4(s, p) == Success((HighWord(v) % TWO_32, p + 4))
    ensures ReadU4(s, p + 4) == Success((LowWord(v) % TWO_32, p + 8))
    ensures CombineWords(HighWord(v) % TWO_32, LowWord(v) % TWO_32) == v
  {
    AtSplit(s, p, U4(HighWord(v)), U4(LowWord(v)));
    ReadU4At(s, p, HighWord(v));
    ReadU4At(s, p + 4, LowWord(v));
    LongWordsRoundTrip(v);
  }
}
