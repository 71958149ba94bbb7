/** The class element value of an annotation (section 4.7.16.1 of the Java
    Virtual Machine Specification, tag 'c'): an index of a UTF-8 constant
    holding a return descriptor. */
module ClassElementValues {
  import opened Wrappers
  import opened Bytes
  import opened Constants
  import opened ConstantPools
  import opened ConstantReferences

  datatype ClassElementValue = ClassElementValue(classIndex: int)

  /** The tag byte of the CLASS element value type. */
  const CLASS_TAG: int := 'c' as int

  /** `contentSize`: the tag byte and the u2 index. */
  const CONTENT_SIZE: int := 3

  function WriteElementValue(v: ClassElementValue): seq<Byte> {
    U2(v.classIndex)
  }

  function ReadElementValue(s: seq<Byte>, p: nat): Result<(ClassElementValue, nat)> {
    var (classIndex, q) :- ReadU2(s, p);
    Success((ClassElementValue(classIndex), q))
  }

  /** The round trip; with the tag byte in front, `contentSize` bytes are
      written. */
  lemma ReadElementValueAt(v: ClassElementValue, s: seq<Byte>, p: nat)
    requires IsU2(v.classIndex) && At(s, p, WriteElementValue(v))
    ensures |U1(CLASS_TAG) + WriteElementValue(v)| == CONTENT_SIZE
    ensures ReadElementValue(s, p) == Success((v, p + 2))
  {
    ReadU2At(s, p, v.classIndex);
    DivModUnique(v.classIndex, TWO_16, 0, v.classIndex);
  }

  /** `getType`: the descriptor string the index refers to (the parse into a
      JVM type is not part of this model). */
  function TypeDescriptor(cs: seq<Option<Constant>>, v: ClassElementValue): (r: Result<string>)
    ensures r.Success? <==> 0 <= v.classIndex < |cs| && cs[v.classIndex].Some? && cs[v.classIndex].value.Utf8Constant?
    ensures r.Success? ==> cs[v.classIndex] == Some(Utf8Constant(r.value))
  {
    GetString(cs, v.classIndex)
  }

  /** `referencedConstantsAccept` as written: the index is announced as a
      class constant. */
  function ReferencesAsWritten(v: ClassElementValue): (r: seq<Visit>)
    ensures |r| == 1 && r[0].index == v.classIndex && ExpectedType(r[0]) == Some(CLASS)
  {
    [VisitClass(v.classIndex)]
  }

  /** Wherever `getType` succeeds, the written visit announces a constant of
      the wrong type: the entry is a UTF-8 constant, not a class constant. */
  lemma ReferencesAsWrittenMistyped(cs: seq<Option<Constant>>, v: ClassElementValue)
    requires TypeDescriptor(cs, v).Success?
    ensures ExpectedType(ReferencesAsWritten(v)[0]) != Some(TypeOf(cs[v.classIndex].value))
  {
  }

  /** A concrete case: index 1 holding the descriptor of `String`. */
  lemma ReferencesAsWrittenExample()
    ensures TypeDescriptor([None, Some(Utf8Constant("Ljava/lang/String;"))], ClassElementValue(1)) == Success("Ljava/lang/String;")
    ensures ExpectedType(ReferencesAsWritten(ClassElementValue(1))[0]) == Some(CLASS)
  {
  }

  /** The visit announcing what `getType` reads: a UTF-8 constant. */
  function References(v: ClassElementValue): (r: seq<Visit>)
    ensures |r| == 1 && r[0].index == v.classIndex
  {
    [VisitUtf8(v.classIndex)]
  }

  /** Wherever `getType` succeeds, the visit announces the type of the
      constant actually at the index. */
  lemma ReferencesTyped(cs: seq<Option<Constant>>, v: ClassElementValue)
    requires TypeDescriptor(cs, v).Success?
    ensures ExpectedType(References(v)[0]) == Some(TypeOf(cs[v.classIndex].value))
  {
  }
}
