/** The verification_type_info union of section 4.7.4 of the Java Virtual
    Machine Specification: a one-byte tag, followed by a u2 constant-pool index
    for Object and a u2 code offset for Uninitialized. The Kotlin classes for
    these are not part of this model; their tags and layout are the ones that
    section fixes. */
module VerificationTypes {
  import opened Wrappers
  import opened Bytes

  datatype VerificationType =
    | TopVariable
    | IntegerVariable
    | FloatVariable
    | DoubleVariable
    | LongVariable
    | NullVariable
    | UninitializedThisVariable
    | ObjectVariable(classIndex: int)
    | UninitializedVariable(offset: int)

  function Tag(v: VerificationType): (tag: int)
    ensures 0 <= tag <= 8
  {
    match v
    case TopVariable => 0
    case IntegerVariable => 1
    case FloatVariable => 2
    case DoubleVariable => 3
    case LongVariable => 4
    case NullVariable => 5
    case UninitializedThisVariable => 6
    case ObjectVariable(_) => 7
    case UninitializedVariable(_) => 8
  }

  /** The u2 operand of the two variants that carry one fits its field. */
  predicate Valid(v: VerificationType) {
    match v
    case ObjectVariable(i) => IsU2(i)
    case UninitializedVariable(o) => IsU2(o)
    case _ => true
  }

  predicate AllValid(vs: seq<VerificationType>) {
    forall i :: 0 <= i < |vs| ==> Valid(vs[i])
  }

  function ContentSize(v: VerificationType): nat {
    if v.ObjectVariable? || v.UninitializedVariable? then 3 else 1
  }

  /** Sum of the entries' sizes, as the AppendFrame size fold computes it. */
  function ContentSizes(vs: seq<VerificationType>): nat
    decreases |vs|
  {
    if vs == [] then 0 else ContentSize(vs[0]) + ContentSizes(vs[1..])
  }

  function Encode(v: VerificationType): seq<Byte> {
    match v
    case ObjectVariable(i) => U1(Tag(v)) + U2(i)
    case UninitializedVariable(o) => U1(Tag(v)) + U2(o)
    case _ => U1(Tag(v))
  }

  function EncodeAll(vs: seq<VerificationType>): seq<Byte> {
    WriteN(Encode, vs)
  }

  /** A list written with its u2 element count in front (`writeContentList`). */
  function EncodeList(vs: seq<VerificationType>): seq<Byte> {
    U2(|vs|) + EncodeAll(vs)
  }

  function Decode(s: seq<Byte>, p: nat): Result<(VerificationType, nat)> {
    var (tag, q) :- ReadU1(s, p);
    if tag == 0 then Success((TopVariable, q))
    else if tag == 1 then Success((IntegerVariable, q))
    else if tag == 2 then Success((FloatVariable, q))
    else if tag == 3 then Success((DoubleVariable, q))
    else if tag == 4 then Success((LongVariable, q))
    else if tag == 5 then Success((NullVariable, q))
    else if tag == 6 then Success((UninitializedThisVariable, q))
    else if tag == 7 then
      var (i, q') :- ReadU2(s, q);
      Success((ObjectVariable(i), q'))
    else if tag == 8 then
      var (o, q') :- ReadU2(s, q);
      Success((UninitializedVariable(o), q'))
    else Failure("IllegalArgumentException")
  }

  /** Reads `n` entries one after the other. */
  function DecodeN(s: seq<Byte>, p: nat, n: nat): Result<(seq<VerificationType>, nat)> {
    ReadN(Decode, s, p, n)
  }

  /** `readContentList`: a u2 count, then that many entries. */
  function DecodeList(s: seq<Byte>, p: nat): Result<(seq<VerificationType>, nat)> {
    var count :- ReadU2(s, p);
    DecodeN(s, count.1, count.0)
  }

  lemma ContentSizeIsLength(v: VerificationType)
    ensures ContentSize(v) == |Encode(v)|
  {
  }

  lemma {:induction false} ContentSizesIsLength(vs: seq<VerificationType>)
    ensures ContentSizes(vs) == |EncodeAll(vs)|
    decreases |vs|
  {
    if vs != [] {
      ContentSizesIsLength(vs[1..]);
    }
  }

  lemma DecodeAt(s: seq<Byte>, p: nat, v: VerificationType)
    requires Valid(v) && At(s, p, Encode(v))
    ensures Decode(s, p) == Success((v, p + |Encode(v)|))
  {
    match v
    case ObjectVariable(i) =>
      AtSplit(s, p, U1(7), U2(i));
      ReadU1At(s, p, 7);
      ReadU2At(s, p + 1, i);
    case UninitializedVariable(o) =>
      AtSplit(s, p, U1(8), U2(o));
      ReadU1At(s, p, 8);
      ReadU2At(s, p + 1, o);
    case TopVariable => ReadU1At(s, p, 0);
    case IntegerVariable => ReadU1At(s, p, 1);
    case FloatVariable => ReadU1At(s, p, 2);
    case DoubleVariable => ReadU1At(s, p, 3);
    case LongVariable => ReadU1At(s, p, 4);
    case NullVariable => ReadU1At(s, p, 5);
    case UninitializedThisVariable => ReadU1At(s, p, 6);
  }

  lemma DecodeNAt(s: seq<Byte>, p: nat, vs: seq<VerificationType>)
    requires AllValid(vs) && At(s, p, EncodeAll(vs))
    ensures DecodeN(s, p, |vs|) == Success((vs, p + |EncodeAll(vs)|))
  {
    EveryDecodeAt();
    ReadNAt(Encode, Decode, Valid, s, p, vs);
  }

  lemma EveryDecodeAt()
    ensures forall v: VerificationType, t: seq<Byte>, q: nat {:trigger Valid(v), At(t, q, Encode(v))} ::
      Valid(v) && At(t, q, Encode(v)) ==> Decode(t, q) == Success((v, q + |Encode(v)|))
  {
    forall v: VerificationType, t: seq<Byte>, q: nat | Valid(v) && At(t, q, Encode(v))
      ensures Decode(t, q) == Success((v, q + |Encode(v)|))
    {
      DecodeAt(t, q, v);
    }
  }

  lemma DecodeListAt(s: seq<Byte>, p: nat, vs: seq<VerificationType>)
    requires AllValid(vs) && IsU2(|vs|) && At(s, p, EncodeList(vs))
    ensures DecodeList(s, p).Success?
    ensures DecodeList(s, p).value.0 == vs
    ensures DecodeList(s, p).value.1 == p + |EncodeList(vs)|
  {
    AtSplit(s, p, U2(|vs|), EncodeAll(vs));
    ReadU2At(s, p, |vs|);
    DecodeListUnfold(s, p);
    DecodeNAt(s, p + 2, vs);
  }

  lemma DecodeListUnfold(s: seq<Byte>, p: nat)
    ensures ReadU2(s, p).Success? ==>
      DecodeList(s, p) == DecodeN(s, ReadU2(s, p).value.1, ReadU2(s, p).value.0)
  {
  }

  /** The `for` loop that reads a fixed number of entries (the locals of an
      append frame), against its specification. */
  method ReadEntries(s: seq<Byte>, p: nat, n: nat) returns (r: Result<(seq<VerificationType>, nat)>)
    ensures r == DecodeN(s, p, n)
  {
    var entries: seq<VerificationType> := [];
    var q := p;
    for i := 0 to n
      invariant DecodeN(s, p, i) == Success((entries, q))
    {
      ReadNSnoc(Decode, s, p, i);
      var entry := Decode(s, q);
      if entry.Failure? {
        ReadNFailsAfter(Decode, s, p, i + 1, n, entry.error);
        return Failure(entry.error);
      }
      entries := entries + [entry.value.0];
      q := entry.value.1;
    }
    return Success((entries, q));
  }
}
