/** The constant pool of a class file: a list of constants indexed from 1,
    in which index 0 and the slot after each long or double constant are
    empty, together with a map from constant to index used for interning. */
module ConstantPools {
  import opened Wrappers
  import opened Bytes
  import opened Constants

  /** `get`: an index outside the list, or an empty slot, is an error. */
  function Lookup(cs: seq<Option<Constant>>, index: int): (r: Result<Constant>)
    ensures r.Success? <==> 0 <= index < |cs| && cs[index].Some?
    ensures r.Success? ==> cs[index] == Some(r.value)
  {
    if index < 0 || index >= |cs| then Failure("IndexOutOfBoundsException")
    else if cs[index].None? then Failure("IllegalArgumentException")
    else Success(cs[index].value)
  }

  // ---------------------------------------------------------------------------
  // Layout of the pool in the class file.

  /** From slot `i` on, every slot holds a constant except the one right after
      a two-slot constant, which is empty and present. */
  predicate LayoutFrom(cs: seq<Option<Constant>>, i: nat, ok: Constant -> bool)
    decreases |cs| - i
  {
    i >= |cs| ||
    (cs[i].Some? && ok(cs[i].value) &&
     if PoolSize(cs[i].value) > 1 then i + 1 < |cs| && cs[i + 1].None? && LayoutFrom(cs, i + 2, ok)
     else LayoutFrom(cs, i + 1, ok))
  }

  predicate WellFormed(cs: seq<Option<Constant>>, ok: Constant -> bool) {
    1 <= |cs| && IsU2(|cs|) && cs[0].None? && LayoutFrom(cs, 1, ok)
  }

  /** One entry: the tag byte, then the constant's info. */
  function WriteEntry(writeInfo: Constant -> seq<Byte>, c: Constant): seq<Byte> {
    U1(Tag(TypeOf(c))) + writeInfo(c)
  }

  /** The entries of the non-empty slots from slot `i` on, in order. */
  function WriteEntriesFrom(writeInfo: Constant -> seq<Byte>, cs: seq<Option<Constant>>, i: nat): seq<Byte>
    decreases |cs| - i
  {
    if i >= |cs| then []
    else (if cs[i].Some? then WriteEntry(writeInfo, cs[i].value) else []) + WriteEntriesFrom(writeInfo, cs, i + 1)
  }

  /** `write`: the slot count (index 0 included), then every entry from index 1. */
  function WritePool(writeInfo: Constant -> seq<Byte>, cs: seq<Option<Constant>>): (r: seq<Byte>)
    ensures ReadU2(r, 0) == Success((|cs| % TWO_16, 2))
  {
    ReadU2At(U2(|cs|) + WriteEntriesFrom(writeInfo, cs, 1), 0, |cs|);
    U2(|cs|) + WriteEntriesFrom(writeInfo, cs, 1)
  }

  function Prepend(prefix: seq<Option<Constant>>, r: Result<(seq<Option<Constant>>, nat)>): Result<(seq<Option<Constant>>, nat)> {
    if r.Success? then Success((prefix + r.value.0, r.value.1)) else r
  }

  /** The loop of `read` from counter `i`: one constant per step, followed by
      an empty slot (and a counter step of 2) for a two-slot constant. */
  function ReadEntriesFrom(readConstant: (seq<Byte>, nat) -> Result<(Constant, nat)>,
                           s: seq<Byte>, p: nat, i: int, entries: int): Result<(seq<Option<Constant>>, nat)>
    decreases entries - i
  {
    if i >= entries then Success(([], p))
    else
      var (c, q) :- readConstant(s, p);
      if PoolSize(c) > 1 then Prepend([Some(c), None], ReadEntriesFrom(readConstant, s, q, i + 2, entries))
      else Prepend([Some(c)], ReadEntriesFrom(readConstant, s, q, i + 1, entries))
  }

  /** `read`: the slot count, then the entries; slot 0 is empty. */
  function ReadPool(readConstant: (seq<Byte>, nat) -> Result<(Constant, nat)>, s: seq<Byte>, p: nat): (r: Result<(seq<Option<Constant>>, nat)>)
    ensures ReadU2(s, p).Failure? ==> r.Failure?
    ensures r.Success? ==> |r.value.0| >= 1 && r.value.0[0].None?
  {
    var (entries, q) :- ReadU2(s, p);
    Prepend([None], ReadEntriesFrom(readConstant, s, q, 1, entries))
  }

  lemma PrependPrepend(a: seq<Option<Constant>>, b: seq<Option<Constant>>, r: Result<(seq<Option<Constant>>, nat)>)
    ensures Prepend(a, Prepend(b, r)) == Prepend(a + b, r)
  {
    if r.Success? {
      assert a + (b + r.value.0) == (a + b) + r.value.0;
    }
  }

  /** Reading back what `write` wrote gives the same slots, provided every
      constant is read back by `readConstant` from its own entry. */
  lemma {:induction false} ReadEntriesFromAt(writeInfo: Constant -> seq<Byte>, readConstant: (seq<Byte>, nat) -> Result<(Constant, nat)>,
                                             ok: Constant -> bool, cs: seq<Option<Constant>>, i: nat, s: seq<Byte>, p: nat)
    requires forall c: Constant, t: seq<Byte>, q: nat {:trigger ok(c), At(t, q, WriteEntry(writeInfo, c))} :: ok(c) && At(t, q, WriteEntry(writeInfo, c)) ==>
      readConstant(t, q) == Success((c, q + |WriteEntry(writeInfo, c)|))
    requires i <= |cs| && LayoutFrom(cs, i, ok) && At(s, p, WriteEntriesFrom(writeInfo, cs, i))
    ensures ReadEntriesFrom(readConstant, s, p, i, |cs|) == Success((cs[i..], p + |WriteEntriesFrom(writeInfo, cs, i)|))
    decreases |cs| - i
  {
    if i < |cs| {
      var c := cs[i].value;
      var q := p + |WriteEntry(writeInfo, c)|;
      var next := if PoolSize(c) > 1 then i + 2 else i + 1;
      FirstEntryAt(writeInfo, readConstant, ok, cs, i, s, p);
      ReadEntriesFromAt(writeInfo, readConstant, ok, cs, next, s, q);
      ReadEntriesFromStep(readConstant, s, p, i, |cs|, c, q);
      assert cs[i..] == cs[i..next] + cs[next..];
    }
  }

  /** The first entry from slot `i` reads back, and the rest of the
      layout starts at the next constant's slot. */
  lemma FirstEntryAt(writeInfo: Constant -> seq<Byte>, readConstant: (seq<Byte>, nat) -> Result<(Constant, nat)>,
                     ok: Constant -> bool, cs: seq<Option<Constant>>, i: nat, s: seq<Byte>, p: nat)
    requires forall c: Constant, t: seq<Byte>, q: nat {:trigger ok(c), At(t, q, WriteEntry(writeInfo, c))} :: ok(c) && At(t, q, WriteEntry(writeInfo, c)) ==>
      readConstant(t, q) == Success((c, q + |WriteEntry(writeInfo, c)|))
    requires i < |cs| && LayoutFrom(cs, i, ok) && At(s, p, WriteEntriesFrom(writeInfo, cs, i))
    ensures cs[i].Some?
    ensures var c := cs[i].value;
      var e := WriteEntry(writeInfo, c);
      var next := if PoolSize(c) > 1 then i + 2 else i + 1;
      readConstant(s, p) == Success((c, p + |e|)) &&
      next <= |cs| && LayoutFrom(cs, next, ok) && At(s, p + |e|, WriteEntriesFrom(writeInfo, cs, next)) &&
      cs[i..next] == (if PoolSize(c) > 1 then [Some(c), None] else [Some(c)]) &&
      |WriteEntriesFrom(writeInfo, cs, i)| == |e| + |WriteEntriesFrom(writeInfo, cs, next)|
  {
    var c := cs[i].value;
    var e := WriteEntry(writeInfo, c);
    var rest := WriteEntriesFrom(writeInfo, cs, i + 1);
    assert WriteEntriesFrom(writeInfo, cs, i) == e + rest;
    AtSplit(s, p, e, rest);
    if PoolSize(c) > 1 {
      assert rest == WriteEntriesFrom(writeInfo, cs, i + 2);
    }
  }

  lemma ReadEntriesFromStep(readConstant: (seq<Byte>, nat) -> Result<(Constant, nat)>,
                            s: seq<Byte>, p: nat, i: int, entries: int, c: Constant, q: nat)
    requires i < entries && readConstant(s, p) == Success((c, q))
    ensures ReadEntriesFrom(readConstant, s, p, i, entries) ==
      Prepend(if PoolSize(c) > 1 then [Some(c), None] else [Some(c)],
              ReadEntriesFrom(readConstant, s, q, if PoolSize(c) > 1 then i + 2 else i + 1, entries))
  {
  }

  /** The pool round trip: `read` after `write`. */
  lemma ReadPoolAt(writeInfo: Constant -> seq<Byte>, readConstant: (seq<Byte>, nat) -> Result<(Constant, nat)>,
                   ok: Constant -> bool, cs: seq<Option<Constant>>, s: seq<Byte>, p: nat)
    requires forall c: Constant, t: seq<Byte>, q: nat {:trigger ok(c), At(t, q, WriteEntry(writeInfo, c))} :: ok(c) && At(t, q, WriteEntry(writeInfo, c)) ==>
      readConstant(t, q) == Success((c, q + |WriteEntry(writeInfo, c)|))
    requires WellFormed(cs, ok) && At(s, p, WritePool(writeInfo, cs))
    ensures ReadPool(readConstant, s, p) == Success((cs, p + |WritePool(writeInfo, cs)|))
  {
    AtSplit(s, p, U2(|cs|), WriteEntriesFrom(writeInfo, cs, 1));
    ReadU2At(s, p, |cs|);
    DivModUnique(|cs|, TWO_16, 0, |cs|);
    ReadEntriesFromAt(writeInfo, readConstant, ok, cs, 1, s, p + 2);
    assert [None] + cs[1..] == cs;
  }

  /** The info bytes of each constant; a UTF-8 constant, whose modified
      UTF-8 info is not modelled, writes none. */
  function InfoBytes(c: Constant): seq<Byte> {
    if c.Utf8Constant? then [] else WriteConstantInfo(c)
  }

  /** A constant the entry reader gives back: not UTF-8, fields within their
      widths, and a bootstrap constant with the identity the reader gives. */
  predicate Encodable(c: Constant, instance: nat) {
    !c.Utf8Constant? && FieldsFit(c) && (c.IsBootstrapRef() ==> c.instance == instance)
  }

  /** One entry reads back: the tag byte selects the constant's own empty
      constant, whose info reader reads the written info. */
  lemma ReadEntryAt(c: Constant, s: seq<Byte>, p: nat, instance: nat)
    requires Encodable(c, instance) && At(s, p, WriteEntry(InfoBytes, c))
    ensures ReadEntry(s, p, instance) == Success((c, p + |WriteEntry(InfoBytes, c)|))
  {
    var tag := Tag(TypeOf(c));
    assert WriteEntry(InfoBytes, c) == U1(tag) + WriteConstantInfo(c);
    AtSplit(s, p, U1(tag), WriteConstantInfo(c));
    ReadU1At(s, p, tag);
    assert tag % TWO_8 == tag;
    EmptyOfTagOf(c, instance);
    ReadEntryStep(s, p, instance, tag, EmptyOf(c));
    ReadConstantInfoAt(s, p + 1, c);
  }

  lemma ReadEntryStep(s: seq<Byte>, p: nat, instance: nat, tag: int, empty: Constant)
    requires ReadU1(s, p) == Success((tag, p + 1))
    requires EmptyOfTag(tag, instance) == Success(empty)
    ensures ReadEntry(s, p, instance) == ReadConstantInfo(empty, s, p + 1)
  {
  }

  /** The pool round trip with the entry reader: a well-formed pool of
      encodable constants reads back from its written bytes. */
  lemma ReadWrittenPool(cs: seq<Option<Constant>>, s: seq<Byte>, p: nat, instance: nat)
    requires WellFormed(cs, c => Encodable(c, instance)) && At(s, p, WritePool(InfoBytes, cs))
    ensures ReadPool((t, q) => ReadEntry(t, q, instance), s, p) == Success((cs, p + |WritePool(InfoBytes, cs)|))
  {
    EveryEntryAt(instance);
    ReadPoolAt(InfoBytes, (t, q) => ReadEntry(t, q, instance), c => Encodable(c, instance), cs, s, p);
  }

  lemma EveryEntryAt(instance: nat)
    ensures forall c: Constant, t: seq<Byte>, q: nat {:trigger Encodable(c, instance), At(t, q, WriteEntry(InfoBytes, c))} ::
      Encodable(c, instance) && At(t, q, WriteEntry(InfoBytes, c)) ==>
      ReadEntry(t, q, instance) == Success((c, q + |WriteEntry(InfoBytes, c)|))
  {
    forall c: Constant, t: seq<Byte>, q: nat | Encodable(c, instance) && At(t, q, WriteEntry(InfoBytes, c))
      ensures ReadEntry(t, q, instance) == Success((c, q + |WriteEntry(InfoBytes, c)|))
    {
      ReadEntryAt(c, t, q, instance);
    }
  }

  // ---------------------------------------------------------------------------
  // Visiting the constants.

  /** `accept`: the non-empty slots from `i` on, with their indices, in order. */
  function VisitsFrom(cs: seq<Option<Constant>>, i: nat): (r: seq<(int, Constant)>)
    ensures forall k :: 0 <= k < |r| ==> i <= r[k].0 < |cs| && cs[r[k].0] == Some(r[k].1)
    ensures forall j :: i <= j < |cs| && cs[j].Some? ==> (j, cs[j].value) in r
    ensures forall k, l :: 0 <= k < l < |r| ==> r[k].0 < r[l].0
    decreases |cs| - i
  {
    if i >= |cs| then []
    else if cs[i].Some? then [(i, cs[i].value)] + VisitsFrom(cs, i + 1)
    else VisitsFrom(cs, i + 1)
  }

  /** `constantAccept`: the constant at `index` if the index lies in
      1 until size; an empty slot there is an error. */
  function ConstantAccept(cs: seq<Option<Constant>>, index: int): (r: Result<seq<(int, Constant)>>)
    ensures r.Failure? <==> 1 <= index < |cs| && cs[index].None?
    ensures r.Success? && 1 <= index < |cs| ==> r.value == [(index, cs[index].value)]
    ensures !(1 <= index < |cs|) ==> r == Success([])
  {
    if 1 <= index < |cs| then
      if cs[index].None? then Failure("IllegalStateException") else Success([(index, cs[index].value)])
    else Success([])
  }

  // ---------------------------------------------------------------------------
  // The pool object.

  /** The lookup map agrees with the list: every interned constant maps to a
      slot holding it, and slot 0 exists. */
  predicate Interning(cs: seq<Option<Constant>>, interned: map<Constant, int>) {
    1 <= |cs| &&
    forall c | c in interned :: 1 <= interned[c] < |cs| && cs[interned[c]] == Some(c)
  }

  class ConstantPool {
    var constants: seq<Option<Constant>>
    var interned: map<Constant, int>

    /** Every interned constant maps to a slot holding it; slot 0 exists. */
    predicate Consistent()
      reads this
    {
      Interning(constants, interned)
    }

    /** `empty()`. */
    constructor Empty()
      ensures constants == [None] && interned == map[]
      ensures Consistent()
    {
      constants := [None];
      interned := map[];
    }

    function Size(): int
      reads this
    {
      |constants|
    }

    method Get(index: int) returns (r: Result<Constant>)
      ensures r == Lookup(constants, index)
    {
      if index < 0 || index >= |constants| {
        return Failure("IndexOutOfBoundsException");
      }
      if constants[index].None? {
        return Failure("IllegalArgumentException");
      }
      return Success(constants[index].value);
    }

    /** `set`: replacing a constant requires one of the same class; the old
        constant leaves the map and the new one maps to `index`. */
    method Set(index: int, constant: Constant) returns (r: Outcome)
      modifies this
      ensures r.Pass? <==> (0 <= index < |old(constants)| &&
        (old(constants)[index].None? || TypeOf(old(constants)[index].value) == TypeOf(constant)))
      ensures r.Pass? ==> constants == old(constants)[index := Some(constant)]
      ensures r.Pass? ==> interned == (if old(constants)[index].Some? then old(interned) - {old(constants)[index].value} else old(interned))[constant := index]
      ensures r.Fail? ==> constants == old(constants) && interned == old(interned)
      ensures r.Pass? && 1 <= index && old(Consistent()) ==> Consistent() && interned[constant] == index
    {
      if index < 0 || index >= |constants| {
        return Fail("IndexOutOfBoundsException");
      }
      var oldConstant := constants[index];
      if oldConstant.Some? {
        if TypeOf(oldConstant.value) != TypeOf(constant) {
          return Fail("IllegalArgumentException");
        }
        interned := interned - {oldConstant.value};
      }
      constants := constants[index := Some(constant)];
      interned := interned[constant := index];
      return Pass;
    }

    /** `addConstant`: appends the constant (and an empty slot after a
        two-slot constant) and interns it at its new index. */
    method AddConstant(constant: Constant) returns (index: int)
      modifies this
      ensures index == |old(constants)|
      ensures constants == old(constants) + [Some(constant)] + (if PoolSize(constant) > 1 then [None] else [])
      ensures interned == old(interned)[constant := index]
      ensures old(Consistent()) ==> Consistent()
    {
      constants := constants + [Some(constant)];
      index := |constants| - 1;
      if PoolSize(constant) > 1 {
        constants := constants + [None];
      }
      interned := interned[constant := index];
    }

    /** `getConstantIndex`: the interned index, or -1. */
    function GetConstantIndex(constant: Constant): (i: int)
      reads this
      ensures constant !in interned ==> i == -1
      ensures Consistent() && constant in interned ==> 1 <= i < |constants| && constants[i] == Some(constant)
    {
      if constant in interned then interned[constant] else -1
    }

    /** `read`: replaces the slots by those read from `s`; the map is left as
        it was. */
    method Read(readConstant: (seq<Byte>, nat) -> Result<(Constant, nat)>, s: seq<Byte>, p: nat) returns (r: Result<nat>)
      modifies this
      ensures r.Success? <==> ReadPool(readConstant, s, p).Success?
      ensures r.Success? ==> constants == ReadPool(readConstant, s, p).value.0 && r.value == ReadPool(readConstant, s, p).value.1
      ensures interned == old(interned)
    {
      var header := ReadU2(s, p);
      if header.Failure? {
        return Failure(header.error);
      }
      var (entries, q0) := header.value;
      constants := [None];
      var i := 1;
      var q := q0;
      while i < entries
        invariant 1 <= |constants| && constants[0] == None && interned == old(interned)
        invariant ReadPool(readConstant, s, p) == Prepend(constants, ReadEntriesFrom(readConstant, s, q, i, entries))
        decreases entries - i
      {
        var next := readConstant(s, q);
        if next.Failure? {
          return Failure(next.error);
        }
        var (c, q') := next.value;
        if PoolSize(c) > 1 {
          PrependPrepend(constants, [Some(c), None], ReadEntriesFrom(readConstant, s, q', i + 2, entries));
          constants := constants + [Some(c), None];
          i := i + 2;
        } else {
          PrependPrepend(constants, [Some(c)], ReadEntriesFrom(readConstant, s, q', i + 1, entries));
          constants := constants + [Some(c)];
          i := i + 1;
        }
        q := q';
      }
      assert constants + [] == constants;
      return Success(q);
    }

    /** `write`: the loop over the slots from index 1. */
    method Write(writeInfo: Constant -> seq<Byte>) returns (out: seq<Byte>)
      ensures out == WritePool(writeInfo, constants)
    {
      out := U2(|constants|);
      var i := 1;
      while i < |constants|
        invariant 1 <= i && (i <= |constants| || |constants| == 0)
        invariant out + WriteEntriesFrom(writeInfo, constants, i) == U2(|constants|) + WriteEntriesFrom(writeInfo, constants, 1)
        decreases |constants| - i
      {
        if constants[i].Some? {
          out := out + WriteEntry(writeInfo, constants[i].value);
        }
        i := i + 1;
      }
      assert WriteEntriesFrom(writeInfo, constants, i) == [];
    }
  }
}
