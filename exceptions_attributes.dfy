/** The Exceptions attribute of a method (section 4.7.5 of the Java Virtual
    Machine Specification): the constant-pool indices of the classes the
    method declares it may throw. */
module ExceptionsAttributes {
  import opened Wrappers
  import opened Bytes
  import opened Constants
  import opened ConstantPools
  import opened ConstantReferences

  datatype ExceptionsAttribute = ExceptionsAttribute(attributeNameIndex: int, exceptions: seq<int>)

  /** `empty(attributeNameIndex)`: no exceptions yet. */
  function Empty(attributeNameIndex: int): ExceptionsAttribute {
    ExceptionsAttribute(attributeNameIndex, [])
  }

  /** `dataSize`: the byte length of the attribute's data. */
  function DataSize(a: ExceptionsAttribute): int {
    2 + |a.exceptions| * 2
  }

  /** `get`: an index outside the array is an error. */
  function Get(a: ExceptionsAttribute, index: int): (r: Result<int>)
    ensures r.Success? <==> 0 <= index < |a.exceptions|
    ensures r.Success? ==> r.value == a.exceptions[index]
  {
    if 0 <= index < |a.exceptions| then Success(a.exceptions[index]) else Failure("ArrayIndexOutOfBoundsException")
  }

  /** `writeAttributeData`: the exceptions as a short index array. */
  function WriteData(a: ExceptionsAttribute): seq<Byte> {
    U2Array(a.exceptions)
  }

  /** `readAttributeData` on the empty attribute: only the array is read. */
  function ReadData(attributeNameIndex: int, s: seq<Byte>, p: nat): Result<(ExceptionsAttribute, nat)> {
    var (exceptions, q) :- ReadU2Array(s, p);
    Success((ExceptionsAttribute(attributeNameIndex, exceptions), q))
  }

  /** `dataSize` is the length that `writeAttributeData` writes. */
  lemma DataSizeIsWrittenLength(a: ExceptionsAttribute)
    ensures DataSize(a) == |WriteData(a)|
  {
    U2ArrayLength(a.exceptions);
  }

  /** The round trip: reading the written data gives the attribute back. */
  lemma ReadDataAt(a: ExceptionsAttribute, s: seq<Byte>, p: nat)
    requires IsU2s(a.exceptions) && IsU2(|a.exceptions|) && At(s, p, WriteData(a))
    ensures ReadData(a.attributeNameIndex, s, p) == Success((a, p + DataSize(a)))
  {
    ReadU2ArrayAt(s, p, a.exceptions);
    DataSizeIsWrittenLength(a);
  }

  /** `getExceptionClassNames`: the name of every exception class, in order;
      an index that is not a class constant is an error. */
  function ExceptionClassNames(cs: seq<Option<Constant>>, exceptions: seq<int>): (r: Result<seq<string>>)
    ensures r.Success? <==> forall i :: 0 <= i < |exceptions| ==> GetClassName(cs, exceptions[i]).Success?
    ensures r.Success? ==> (|r.value| == |exceptions| &&
      forall i :: 0 <= i < |exceptions| ==> GetClassName(cs, exceptions[i]) == Success(r.value[i]))
    decreases |exceptions|
  {
    if exceptions == [] then Success([])
    else
      var first :- GetClassName(cs, exceptions[0]);
      var rest :- ExceptionClassNames(cs, exceptions[1..]);
      assert forall i :: 1 <= i < |exceptions| ==> exceptions[i] == exceptions[1..][i - 1];
      Success([first] + rest)
  }

  /** `exceptionClassNameConstantsAccept`: `constantAccept` for each index, in
      order. */
  function ExceptionClassConstantsAccept(cs: seq<Option<Constant>>, exceptions: seq<int>): (r: Result<seq<(int, Constant)>>)
    ensures r.Success? <==> forall i :: 0 <= i < |exceptions| ==> ConstantAccept(cs, exceptions[i]).Success?
    ensures r.Success? && (forall i :: 0 <= i < |exceptions| ==> 1 <= exceptions[i] < |cs|) ==>
      (|r.value| == |exceptions| && forall i :: 0 <= i < |exceptions| ==> r.value[i] == (exceptions[i], cs[exceptions[i]].value))
    decreases |exceptions|
  {
    if exceptions == [] then Success([])
    else
      var first :- ConstantAccept(cs, exceptions[0]);
      var rest :- ExceptionClassConstantsAccept(cs, exceptions[1..]);
      assert forall i :: 1 <= i < |exceptions| ==> exceptions[i] == exceptions[1..][i - 1];
      Success(first + rest)
  }

  /** The visits of `referencedConstantsAccept` after the base attribute's
      own: one class visit per exception, in array order. */
  function ReferencedConstants(a: ExceptionsAttribute): (r: seq<Visit>)
    ensures |r| == |a.exceptions|
    ensures forall i :: 0 <= i < |r| ==> r[i] == VisitClass(a.exceptions[i])
  {
    seq(|a.exceptions|, i requires 0 <= i < |a.exceptions| => VisitClass(a.exceptions[i]))
  }
}
