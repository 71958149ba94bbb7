/** Big-endian class-file encoding of unsigned 1-, 2- and 4-byte fields and of
    u2 index arrays, with the sign conversions that `writeInt`, `readInt` and
    `readUnsignedInt` perform on 32-bit words. A field written from an
    out-of-range integer keeps only its low bits, as Java's `writeShort` and
    `writeInt` do. */
module Bytes {
  import opened Wrappers

  type Byte = x: int | 0 <= x < 256

  const TWO_8: int := 0x100
  const TWO_16: int := 0x1_0000
  const TWO_24: int := 0x100_0000
  const TWO_32: int := 0x1_0000_0000
  const TWO_63: int := 0x8000_0000_0000_0000
  const TWO_64: int := 0x1_0000_0000_0000_0000

  predicate IsU1(v: int) { 0 <= v < TWO_8 }
  predicate IsU2(v: int) { 0 <= v < TWO_16 }
  predicate IsU2s(vs: seq<int>) { forall i :: 0 <= i < |vs| ==> IsU2(vs[i]) }
  predicate IsInt32(v: int) { -TWO_32 / 2 <= v < TWO_32 / 2 }
  predicate IsInt64(v: int) { -TWO_63 <= v < TWO_63 }

  /** Two's-complement reading of the low 32 (or 64) bits of `v`. */
  function ToSigned32(v: int): int {
    var u := v % TWO_32;
    if u < TWO_32 / 2 then u else u - TWO_32
  }

  function ToSigned64(v: int): int {
    var u := v % TWO_64;
    if u < TWO_63 then u else u - TWO_64
  }

  function U1(v: int): seq<Byte> {
    [v % TWO_8]
  }

  function U2(v: int): seq<Byte> {
    [(v / TWO_8) % TWO_8, v % TWO_8]
  }

  function U4(v: int): seq<Byte> {
    [(v / TWO_24) % TWO_8, (v / TWO_16) % TWO_8, (v / TWO_8) % TWO_8, v % TWO_8]
  }

  /** Each reader returns the field and the position just after it. */
  function ReadU1(s: seq<Byte>, p: nat): (r: Result<(int, nat)>)
    ensures r.Success? ==> IsU1(r.value.0) && r.value.1 == p + 1
  {
    if p + 1 > |s| then Failure("EOFException") else Success((s[p], p + 1))
  }

  function ReadU2(s: seq<Byte>, p: nat): (r: Result<(int, nat)>)
    ensures r.Success? ==> IsU2(r.value.0) && r.value.1 == p + 2
  {
    if p + 2 > |s| then Failure("EOFException")
    else Success((s[p] * TWO_8 + s[p + 1], p + 2))
  }

  function ReadU4(s: seq<Byte>, p: nat): Result<(int, nat)> {
    if p + 4 > |s| then Failure("EOFException")
    else Success((((s[p] * TWO_8 + s[p + 1]) * TWO_8 + s[p + 2]) * TWO_8 + s[p + 3], p + 4))
  }

  /** `readInt`: the four bytes as a signed 32-bit integer. */
  function ReadInt(s: seq<Byte>, p: nat): (r: Result<(int, nat)>)
    ensures r.Success? ==> IsInt32(r.value.0) && r.value.1 == p + 4
  {
    var (u, q) :- ReadU4(s, p);
    Success((ToSigned32(u), q))
  }

  /** Entries written one after the other by `write`. */
  function WriteN<T>(write: T -> seq<Byte>, vs: seq<T>): seq<Byte>
    decreases |vs|
  {
    if vs == [] then [] else write(vs[0]) + WriteN(write, vs[1..])
  }

  /** `n` entries read one after the other by `read`; the first failure ends
      the list. */
  function ReadN<T>(read: (seq<Byte>, nat) -> Result<(T, nat)>, s: seq<Byte>, p: nat, n: nat): Result<(seq<T>, nat)>
    decreases n
  {
    if n == 0 then Success(([], p))
    else
      var (first, q) :- read(s, p);
      var (rest, q') :- ReadN(read, s, q, n - 1);
      Success(([first] + rest, q'))
  }

  /** A u2 count followed by that many u2 entries. */
  function U2Array(vs: seq<int>): seq<Byte> {
    U2(|vs|) + WriteN(U2, vs)
  }

  function ReadU2Array(s: seq<Byte>, p: nat): Result<(seq<int>, nat)> {
    var (n, q) :- ReadU2(s, p);
    ReadN(ReadU2, s, q, n)
  }

  // ---------------------------------------------------------------------------
  // Arithmetic facts behind the round trips.

  lemma MulAtLeast(m: int, d: int)
    requires m > 0 && d >= 1
    ensures m * d >= m
  {
    if d > 1 { MulAtLeast(m, d - 1); assert m * d == m * (d - 1) + m; }
  }

  lemma Distrib(m: int, a: int, b: int)
    ensures m * a - m * b == m * (a - b)
  {}

  lemma DivModUnique(v: int, m: int, k: int, t: int)
    requires 0 < m && 0 <= t < m && v == m * k + t
    ensures v / m == k && v % m == t
  {
    var k', t' := v / m, v % m;
    assert v == m * k' + t';
    Distrib(m, k, k');
    var d := k - k';
    assert m * d == t' - t;
    if d > 0 {
      MulAtLeast(m, d);
    } else if d < 0 {
      MulAtLeast(m, -d);
    }
  }

  /** Splitting `v` into a low part modulo `b` and the next `c` digits above it. */
  lemma DivModSplit(v: int, b: int, c: int)
    requires 0 < b && 0 < c
    ensures ((v / b) % c) * b + v % b == v % (b * c)
  {
    var q, r := v / b, v % b;
    var q1, q0 := q / c, q % c;
    assert v == b * q + r;
    assert q == c * q1 + q0;
    assert b * q == (b * c) * q1 + b * q0 by {
      calc {
        b * q;
        b * (c * q1 + q0);
        b * (c * q1) + b * q0;
        (b * c) * q1 + b * q0;
      }
    }
    assert b * q0 <= b * c - b by {
      MulAtLeast(b, c - q0);
      Distrib(b, c, q0);
    }
    DivModUnique(v, b * c, q1, b * q0 + r);
  }

  lemma U2Value(v: int)
    ensures U2(v)[0] * TWO_8 + U2(v)[1] == v % TWO_16
  {
    DivModSplit(v, TWO_8, TWO_8);
  }

  lemma U4Value(v: int)
    ensures ((U4(v)[0] * TWO_8 + U4(v)[1]) * TWO_8 + U4(v)[2]) * TWO_8 + U4(v)[3] == v % TWO_32
  {
    DivModSplit(v, TWO_8, TWO_8);
    DivModSplit(v, TWO_16, TWO_8);
    DivModSplit(v, TWO_24, TWO_8);
    assert (v / TWO_8) % TWO_8 * TWO_8 + v % TWO_8 == v % TWO_16;
    assert (v / TWO_16) % TWO_8 * TWO_16 + v % TWO_16 == v % TWO_24;
    assert (v / TWO_24) % TWO_8 * TWO_24 + v % TWO_24 == v % TWO_32;
  }

  // ---------------------------------------------------------------------------
  // Round trips: a field read back from wherever it was written.

  /** `x` occurs in `s` at position `p`. */
  predicate At(s: seq<Byte>, p: nat, x: seq<Byte>) {
    p + |x| <= |s| && s[p..p + |x|] == x
  }

  lemma AtMiddle(pre: seq<Byte>, x: seq<Byte>, post: seq<Byte>)
    ensures At(pre + x + post, |pre|, x)
  {
  }

  lemma AtSplit(s: seq<Byte>, p: nat, a: seq<Byte>, b: seq<Byte>)
    requires At(s, p, a + b)
    ensures At(s, p, a) && At(s, p + |a|, b)
  {
    assert s[p..p + |a|] == (a + b)[..|a|] == a;
    assert s[p + |a|..p + |a| + |b|] == (a + b)[|a|..] == b;
  }

  lemma ReadU1At(s: seq<Byte>, p: nat, v: int)
    requires At(s, p, U1(v))
    ensures ReadU1(s, p) == Success((v % TWO_8, p + 1))
  {
    assert s[p] == s[p..p + 1][0];
  }

  lemma ReadU2At(s: seq<Byte>, p: nat, v: int)
    requires At(s, p, U2(v))
    ensures ReadU2(s, p) == Success((v % TWO_16, p + 2))
  {
    assert s[p] == s[p..p + 2][0] && s[p + 1] == s[p..p + 2][1];
    U2Value(v);
  }

  lemma ReadU4At(s: seq<Byte>, p: nat, v: int)
    requires At(s, p, U4(v))
    ensures ReadU4(s, p) == Success((v % TWO_32, p + 4))
  {
    assert s[p] == s[p..p + 4][0] && s[p + 1] == s[p..p + 4][1];
    assert s[p + 2] == s[p..p + 4][2] && s[p + 3] == s[p..p + 4][3];
    U4Value(v);
  }

  /** `readInt` after `writeInt` gives back every 32-bit integer. */
  lemma ReadIntAt(s: seq<Byte>, p: nat, v: int)
    requires IsInt32(v) && At(s, p, U4(v))
    ensures ReadInt(s, p) == Success((v, p + 4))
  {
    ReadU4At(s, p, v);
    if v < 0 {
      DivModUnique(v, TWO_32, -1, v + TWO_32);
    } else {
      DivModUnique(v, TWO_32, 0, v);
    }
  }

  /** A list of entries read back from where it was written, given that each
      valid entry reads back from wherever it was written. */
  lemma {:induction false} ReadNAt<T>(write: T -> seq<Byte>, read: (seq<Byte>, nat) -> Result<(T, nat)>,
                                      valid: T -> bool, s: seq<Byte>, p: nat, vs: seq<T>)
    requires forall v: T, t: seq<Byte>, q: nat :: valid(v) && At(t, q, write(v)) ==> read(t, q) == Success((v, q + |write(v)|))
    requires forall i :: 0 <= i < |vs| ==> valid(vs[i])
    requires At(s, p, WriteN(write, vs))
    ensures ReadN(read, s, p, |vs|) == Success((vs, p + |WriteN(write, vs)|))
    decreases |vs|
  {
    if vs != [] {
      var q := p + |write(vs[0])|;
      AtSplit(s, p, write(vs[0]), WriteN(write, vs[1..]));
      assert read(s, p) == Success((vs[0], q));
      ReadNAt(write, read, valid, s, q, vs[1..]);
      assert [vs[0]] + vs[1..] == vs;
    }
  }

  /** Reading one more entry after `i` of them extends the list by it. */
  lemma {:induction false} ReadNSnoc<T>(read: (seq<Byte>, nat) -> Result<(T, nat)>, s: seq<Byte>, p: nat, i: nat)
    requires ReadN(read, s, p, i).Success?
    ensures var (xs, q) := ReadN(read, s, p, i).value;
      ReadN(read, s, p, i + 1) ==
        if read(s, q).Failure? then Failure(read(s, q).error)
        else Success((xs + [read(s, q).value.0], read(s, q).value.1))
    decreases i
  {
    if i == 0 {
      if read(s, p).Success? {
        assert [read(s, p).value.0] + [] == [] + [read(s, p).value.0];
      }
    } else {
      var (first, q) := read(s, p).value;
      ReadNSnoc(read, s, q, i - 1);
      var (rest, q') := ReadN(read, s, q, i - 1).value;
      if read(s, q').Success? {
        var x := read(s, q').value.0;
        assert [first] + (rest + [x]) == [first] + rest + [x];
      }
    }
  }

  /** Once one entry fails, every longer list fails with the same error. */
  lemma {:induction false} ReadNFailsAfter<T>(read: (seq<Byte>, nat) -> Result<(T, nat)>, s: seq<Byte>, p: nat, i: nat, n: nat, e: string)
    requires i <= n && ReadN(read, s, p, i) == Failure(e)
    ensures ReadN(read, s, p, n) == Failure(e)
    decreases i
  {
    if 0 < i {
      var first := read(s, p);
      if first.Success? {
        ReadNFailsAfter(read, s, first.value.1, i - 1, n - 1, e);
      }
    }
  }

  /** The u2 index array read back after it was written (`readShortIndexArray`
      after `writeShortIndexArray`). */
  lemma ReadU2ArrayAt(s: seq<Byte>, p: nat, vs: seq<int>)
    requires IsU2s(vs) && IsU2(|vs|) && At(s, p, U2Array(vs))
    ensures ReadU2Array(s, p) == Success((vs, p + |U2Array(vs)|))
  {
    AtSplit(s, p, U2(|vs|), WriteN(U2, vs));
    ReadU2At(s, p, |vs|);
    EveryU2At();
    ReadNAt(U2, ReadU2, IsU2, s, p + 2, vs);
  }

  lemma EveryU2At()
    ensures forall v: int, t: seq<Byte>, q: nat {:trigger IsU2(v), At(t, q, U2(v))} ::
      IsU2(v) && At(t, q, U2(v)) ==> ReadU2(t, q) == Success((v, q + |U2(v)|))
  {
    forall v: int, t: seq<Byte>, q: nat | IsU2(v) && At(t, q, U2(v))
      ensures ReadU2(t, q) == Success((v, q + |U2(v)|))
    {
      ReadU2At(t, q, v);
    }
  }

  /** Each u2 entry takes two bytes, so a u2 array of `n` entries takes
      `2 + 2 * n`. */
  lemma {:induction false} U2ArrayLength(vs: seq<int>)
    ensures |WriteN(U2, vs)| == 2 * |vs|
    ensures |U2Array(vs)| == 2 + 2 * |vs|
    decreases |vs|
  {
    if vs != [] {
      U2ArrayLength(vs[1..]);
    }
  }

  /** The loop that `readShortIndexArray` runs, against its specification. */
  method ReadShortIndexArray(s: seq<Byte>, p: nat) returns (r: Result<(seq<int>, nat)>)
    ensures r == ReadU2Array(s, p)
  {
    var count :- ReadU2(s, p);
    var n, q := count.0, count.1;
    var i := 0;
    var entries: seq<int> := [];
    while i < n
      invariant 0 <= i <= n
      invariant ReadN(ReadU2, s, q, i) == Success((entries, q + 2 * i))
    {
      ReadNSnoc(ReadU2, s, q, i);
      var entry := ReadU2(s, q + 2 * i);
      if entry.Failure? {
        ReadNFailsAfter(ReadU2, s, q, i + 1, n, entry.error);
        return Failure(entry.error);
      }
      entries := entries + [entry.value.0];
      i := i + 1;
    }
    return Success((entries, q + 2 * n));
  }
}
