/** The stack-manipulation instructions (`pop` … `swap`). The analyzers keep
    one stack entry per value, so a long or double is one entry; the Java
    Virtual Machine Specification (chapter 6) defines these instructions on
    slots, where such a value takes two. `Words` relates the two views, and
    the slot-level definitions are the reference the rules are proved
    against. */
module StackShuffles {
  import opened Wrappers
  import opened VariableTypes

  datatype StackOp = POP | POP2 | DUP | DUP2 | DUP_X1 | DUP_X2 | DUP2_X1 | DUP2_X2 | SWAP

  /** The shuffle as both analyzers write it, except for `dup_x2`, which
      branches on the category of the second value (see `DupX2AsWritten`).
      Popping from an empty stack fails; `dup2_x2` is not implemented. */
  function Shuffle<V>(op: StackOp, s: seq<V>, category2: V -> bool): (r: Result<seq<V>>)
    ensures op == DUP2_X2 ==> r.Failure?
  {
    var n := |s|;
    match op
    case POP => if n < 1 then Failure("NoSuchElementException") else Success(s[..n - 1])
    case POP2 =>
      if n < 1 then Failure("NoSuchElementException")
      else if category2(s[n - 1]) then Success(s[..n - 1])
      else if n < 2 then Failure("NoSuchElementException")
      else Success(s[..n - 2])
    case DUP => if n < 1 then Failure("NoSuchElementException") else Success(s + [s[n - 1]])
    case DUP2 =>
      if n < 1 then Failure("NoSuchElementException")
      else if category2(s[n - 1]) then Success(s + [s[n - 1]])
      else if n < 2 then Failure("NoSuchElementException")
      else Success(s + [s[n - 2], s[n - 1]])
    case DUP_X1 =>
      if n < 2 then Failure("NoSuchElementException")
      else Success(s[..n - 2] + [s[n - 1], s[n - 2], s[n - 1]])
    case DUP_X2 =>
      if n < 2 then Failure("NoSuchElementException")
      else if category2(s[n - 2]) then Success(s[..n - 2] + [s[n - 1], s[n - 2], s[n - 1]])
      else if n < 3 then Failure("NoSuchElementException")
      else Success(s[..n - 3] + [s[n - 1], s[n - 3], s[n - 2], s[n - 1]])
    case DUP2_X1 =>
      if n < 1 then Failure("NoSuchElementException")
      else if category2(s[n - 1]) then
        if n < 2 then Failure("NoSuchElementException")
        else Success(s[..n - 2] + [s[n - 1], s[n - 2], s[n - 1]])
      else if n < 3 then Failure("NoSuchElementException")
      else Success(s[..n - 3] + [s[n - 2], s[n - 1], s[n - 3], s[n - 2], s[n - 1]])
    case DUP2_X2 => Failure("NotImplementedError")
    case SWAP =>
      if n < 2 then Failure("NoSuchElementException")
      else Success(s[..n - 2] + [s[n - 1], s[n - 2]])
  }

  /** `dup_x2` as written: the branch tests the category of the top value,
      which the instruction requires to be category 1, instead of the value
      below it. */
  function DupX2AsWritten<V>(s: seq<V>, category2: V -> bool): (r: Result<seq<V>>)
    ensures r.Success? <==> |s| >= 3 || (|s| == 2 && category2(s[1]))
    ensures r.Success? && category2(s[|s| - 1]) ==> r.value == s[..|s| - 2] + [s[|s| - 1]] + s[|s| - 2..]
    ensures r.Success? && !category2(s[|s| - 1]) ==> r.value == s[..|s| - 3] + [s[|s| - 1]] + s[|s| - 3..]
  {
    var n := |s|;
    if n < 1 then Failure("NoSuchElementException")
    else if category2(s[n - 1]) then
      if n < 2 then Failure("NoSuchElementException")
      else
        assert s[n - 2..] == [s[n - 2], s[n - 1]];
        Success(s[..n - 2] + [s[n - 1], s[n - 2], s[n - 1]])
    else if n < 3 then Failure("NoSuchElementException")
    else
      assert s[n - 3..] == [s[n - 3], s[n - 2], s[n - 1]];
      Success(s[..n - 3] + [s[n - 1], s[n - 3], s[n - 2], s[n - 1]])
  }

  function ShuffleAsWritten<V>(op: StackOp, s: seq<V>, category2: V -> bool): Result<seq<V>> {
    if op == DUP_X2 then DupX2AsWritten(s, category2) else Shuffle(op, s, category2)
  }

  // ---------------------------------------------------------------------------
  // The slot-level reference.

  /** The slots one value occupies. */
  function Slots<V>(v: V, category2: V -> bool): seq<V> {
    if category2(v) then [v, v] else [v]
  }

  /** The slots a stack of values occupies, bottom first. */
  function Words<V>(s: seq<V>, category2: V -> bool): seq<V> {
    if s == [] then [] else Words(s[..|s| - 1], category2) + Slots(s[|s| - 1], category2)
  }

  /** The instructions on slots, as chapter 6 of the Java Virtual Machine
      Specification describes them. */
  function WordOp<V>(op: StackOp, w: seq<V>): Option<seq<V>> {
    var m := |w|;
    match op
    case POP => if m < 1 then None else Some(w[..m - 1])
    case POP2 => if m < 2 then None else Some(w[..m - 2])
    case DUP => if m < 1 then None else Some(w + [w[m - 1]])
    case DUP2 => if m < 2 then None else Some(w + [w[m - 2], w[m - 1]])
    case DUP_X1 => if m < 2 then None else Some(w[..m - 2] + [w[m - 1], w[m - 2], w[m - 1]])
    case DUP_X2 => if m < 3 then None else Some(w[..m - 3] + [w[m - 1], w[m - 3], w[m - 2], w[m - 1]])
    case DUP2_X1 => if m < 3 then None else Some(w[..m - 3] + [w[m - 2], w[m - 1], w[m - 3], w[m - 2], w[m - 1]])
    case DUP2_X2 => if m < 4 then None else Some(w[..m - 4] + [w[m - 2], w[m - 1], w[m - 4], w[m - 3], w[m - 2], w[m - 1]])
    case SWAP => if m < 2 then None else Some(w[..m - 2] + [w[m - 1], w[m - 2]])
  }

  /** The forms the specification allows for each instruction: which of the
      top values must be of category 1 or 2. */
  predicate Legal<V>(op: StackOp, s: seq<V>, category2: V -> bool) {
    var n := |s|;
    match op
    case POP => n >= 1 && !category2(s[n - 1])
    case DUP => n >= 1 && !category2(s[n - 1])
    case POP2 => (n >= 1 && category2(s[n - 1])) || (n >= 2 && !category2(s[n - 1]) && !category2(s[n - 2]))
    case DUP2 => (n >= 1 && category2(s[n - 1])) || (n >= 2 && !category2(s[n - 1]) && !category2(s[n - 2]))
    case DUP_X1 => n >= 2 && !category2(s[n - 1]) && !category2(s[n - 2])
    case SWAP => n >= 2 && !category2(s[n - 1]) && !category2(s[n - 2])
    case DUP_X2 =>
      n >= 2 && !category2(s[n - 1]) &&
      (category2(s[n - 2]) || (n >= 3 && !category2(s[n - 2]) && !category2(s[n - 3])))
    case DUP2_X1 =>
      (n >= 2 && category2(s[n - 1]) && !category2(s[n - 2])) ||
      (n >= 3 && !category2(s[n - 1]) && !category2(s[n - 2]) && !category2(s[n - 3]))
    case DUP2_X2 => false
  }

  lemma WordsSnoc<V>(p: seq<V>, a: V, category2: V -> bool)
    ensures Words(p + [a], category2) == Words(p, category2) + Slots(a, category2)
  {
    assert (p + [a])[..|p|] == p;
  }

  lemma WordsSnoc2<V>(p: seq<V>, a: V, b: V, category2: V -> bool)
    ensures Words(p + [a, b], category2) == Words(p, category2) + Slots(a, category2) + Slots(b, category2)
  {
    assert p + [a, b] == (p + [a]) + [b];
    WordsSnoc(p + [a], b, category2);
    WordsSnoc(p, a, category2);
  }

  lemma WordsSnoc3<V>(p: seq<V>, a: V, b: V, c: V, category2: V -> bool)
    ensures Words(p + [a, b, c], category2) ==
      Words(p, category2) + Slots(a, category2) + Slots(b, category2) + Slots(c, category2)
  {
    assert p + [a, b, c] == (p + [a, b]) + [c];
    WordsSnoc(p + [a, b], c, category2);
    WordsSnoc2(p, a, b, category2);
  }

  /** Category-1 values take one slot each. */
  lemma {:induction false} WordsCategory1<V>(p: seq<V>, xs: seq<V>, category2: V -> bool)
    requires forall i :: 0 <= i < |xs| ==> !category2(xs[i])
    ensures Words(p + xs, category2) == Words(p, category2) + xs
    decreases |xs|
  {
    if xs == [] {
      assert p + xs == p;
    } else {
      var ys, x := xs[..|xs| - 1], xs[|xs| - 1];
      assert p + xs == (p + ys) + [x];
      WordsSnoc(p + ys, x, category2);
      WordsCategory1(p, ys, category2);
      assert xs == ys + [x];
    }
  }

  /** On every stack the specification allows, the rules do on values what
      the specification does on slots. */
  lemma ShuffleMatchesWords<V>(op: StackOp, s: seq<V>, category2: V -> bool)
    requires Legal(op, s, category2)
    ensures Shuffle(op, s, category2).Success?
    ensures WordOp(op, Words(s, category2)) == Some(Words(Shuffle(op, s, category2).value, category2))
  {
    var n := |s|;
    match op
    case POP => ShuffleOneValue(op, s, category2);
    case DUP => ShuffleOneValue(op, s, category2);
    case POP2 =>
      if category2(s[n - 1]) {
        ShuffleOneValue(op, s, category2);
      } else {
        ShuffleTwoValues(op, s, category2);
      }
    case DUP2 =>
      if category2(s[n - 1]) {
        ShuffleOneValue(op, s, category2);
      } else {
        ShuffleTwoValues(op, s, category2);
      }
    case DUP_X1 => ShuffleTwoValues(op, s, category2);
    case SWAP => ShuffleTwoValues(op, s, category2);
    case DUP_X2 =>
      if category2(s[n - 2]) {
        ShuffleTwoValues(op, s, category2);
      } else {
        ShuffleThreeValues(op, s, category2);
      }
    case DUP2_X1 =>
      if category2(s[n - 1]) {
        ShuffleTwoValues(op, s, category2);
      } else {
        ShuffleThreeValues(op, s, category2);
      }
    case DUP2_X2 => assert false;
  }

  /** The forms that act on the top value alone. */
  lemma ShuffleOneValue<V>(op: StackOp, s: seq<V>, category2: V -> bool)
    requires 1 <= |s| && Legal(op, s, category2)
    requires op == POP || op == DUP || ((op == POP2 || op == DUP2) && category2(s[|s| - 1]))
    ensures Shuffle(op, s, category2).Success?
    ensures WordOp(op, Words(s, category2)) == Some(Words(Shuffle(op, s, category2).value, category2))
  {
    var n := |s|;
    var p, a := s[..n - 1], s[n - 1];
    SplitOne(s);
    match op
    case POP => PopOne(p, a, category2);
    case POP2 => PopOne(p, a, category2);
    case DUP => DupOne(p, a, category2);
    case DUP2 => DupOne(p, a, category2);
    case _ => assert false;
  }

  /** The forms that act on the top two values. */
  lemma ShuffleTwoValues<V>(op: StackOp, s: seq<V>, category2: V -> bool)
    requires 2 <= |s| && Legal(op, s, category2)
    requires (op == DUP_X2 && category2(s[|s| - 2])) || (op == DUP2_X1 && category2(s[|s| - 1])) ||
             ((op == POP2 || op == DUP2) && !category2(s[|s| - 1])) || op == DUP_X1 || op == SWAP
    ensures Shuffle(op, s, category2).Success?
    ensures WordOp(op, Words(s, category2)) == Some(Words(Shuffle(op, s, category2).value, category2))
  {
    var n := |s|;
    var p, a, b := s[..n - 2], s[n - 2], s[n - 1];
    SplitTwo(s);
    match op
    case POP2 => PopTwo(p, a, b, category2);
    case DUP2 => DupTwo(p, a, b, category2);
    case DUP_X1 => DupX1(p, a, b, category2);
    case SWAP => Swap(p, a, b, category2);
    case DUP_X2 => DupX2Form2(p, a, b, category2);
    case DUP2_X1 => Dup2X1Form2(p, a, b, category2);
    case _ => assert false;
  }

  /** The forms that act on the top three values, all of category 1. */
  lemma ShuffleThreeValues<V>(op: StackOp, s: seq<V>, category2: V -> bool)
    requires 3 <= |s| && Legal(op, s, category2)
    requires (op == DUP_X2 && !category2(s[|s| - 2])) || (op == DUP2_X1 && !category2(s[|s| - 1]))
    ensures Shuffle(op, s, category2).Success?
    ensures WordOp(op, Words(s, category2)) == Some(Words(Shuffle(op, s, category2).value, category2))
  {
    var n := |s|;
    var p, a, b, c := s[..n - 3], s[n - 3], s[n - 2], s[n - 1];
    SplitThree(s);
    if op == DUP_X2 {
      DupX2Form1(p, a, b, c, category2);
    } else {
      Dup2X1Form1(p, a, b, c, category2);
    }
  }

  /** A stack as its top values on what lies below them. */
  lemma SplitOne<V>(s: seq<V>)
    requires 1 <= |s|
    ensures s == s[..|s| - 1] + [s[|s| - 1]]
    ensures s + [s[|s| - 1]] == s[..|s| - 1] + [s[|s| - 1], s[|s| - 1]]
  {
  }

  lemma SplitTwo<V>(s: seq<V>)
    requires 2 <= |s|
    ensures s == s[..|s| - 2] + [s[|s| - 2], s[|s| - 1]]
    ensures s + [s[|s| - 2], s[|s| - 1]] == s[..|s| - 2] + [s[|s| - 2], s[|s| - 1], s[|s| - 2], s[|s| - 1]]
  {
  }

  lemma SplitThree<V>(s: seq<V>)
    requires 3 <= |s|
    ensures s == s[..|s| - 3] + [s[|s| - 3], s[|s| - 2], s[|s| - 1]]
  {
  }

  lemma PopOne<V>(p: seq<V>, a: V, category2: V -> bool)
    ensures WordOp(if category2(a) then POP2 else POP, Words(p + [a], category2)) == Some(Words(p, category2))
  {
    WordsSnoc(p, a, category2);
    var w := Words(p + [a], category2);
    assert w[..|w| - |Slots(a, category2)|] == Words(p, category2);
  }

  lemma DupOne<V>(p: seq<V>, a: V, category2: V -> bool)
    ensures WordOp(if category2(a) then DUP2 else DUP, Words(p + [a], category2)) ==
      Some(Words(p + [a, a], category2))
  {
    WordsSnoc(p, a, category2);
    WordsSnoc2(p, a, a, category2);
    var P, S := Words(p, category2), Slots(a, category2);
    var w := P + S;
    if category2(a) {
      assert w + [w[|w| - 2], w[|w| - 1]] == P + S + S;
    } else {
      assert w + [w[|w| - 1]] == P + S + S;
    }
  }

  lemma PopTwo<V>(p: seq<V>, a: V, b: V, category2: V -> bool)
    requires !category2(a) && !category2(b)
    ensures WordOp(POP2, Words(p + [a, b], category2)) == Some(Words(p, category2))
  {
    WordsSnoc2(p, a, b, category2);
    var w := Words(p + [a, b], category2);
    assert w == Words(p, category2) + [a, b];
    assert w[..|w| - 2] == Words(p, category2);
  }

  lemma DupTwo<V>(p: seq<V>, a: V, b: V, category2: V -> bool)
    requires !category2(a) && !category2(b)
    ensures WordOp(DUP2, Words(p + [a, b], category2)) == Some(Words(p + [a, b, a, b], category2))
  {
    var P := Words(p, category2);
    WordsCategory1(p, [a, b], category2);
    WordsCategory1(p, [a, b, a, b], category2);
    var w := P + [a, b];
    assert w + [w[|w| - 2], w[|w| - 1]] == P + [a, b, a, b];
  }

  lemma DupX1<V>(p: seq<V>, a: V, b: V, category2: V -> bool)
    requires !category2(a) && !category2(b)
    ensures WordOp(DUP_X1, Words(p + [a, b], category2)) == Some(Words(p + [b, a, b], category2))
  {
    var P := Words(p, category2);
    WordsSnoc2(p, a, b, category2);
    WordsSnoc3(p, b, a, b, category2);
    var w := Words(p + [a, b], category2);
    assert w == P + [a, b];
    assert w[..|w| - 2] == P;
    assert Words(p + [b, a, b], category2) == P + [b, a, b];
  }

  lemma Swap<V>(p: seq<V>, a: V, b: V, category2: V -> bool)
    requires !category2(a) && !category2(b)
    ensures WordOp(SWAP, Words(p + [a, b], category2)) == Some(Words(p + [b, a], category2))
  {
    var P := Words(p, category2);
    WordsSnoc2(p, a, b, category2);
    WordsSnoc2(p, b, a, category2);
    var w := Words(p + [a, b], category2);
    assert w == P + [a, b];
    assert w[..|w| - 2] == P;
    assert Words(p + [b, a], category2) == P + [b, a];
  }

  lemma DupX2Form1<V>(p: seq<V>, a: V, b: V, c: V, category2: V -> bool)
    requires !category2(a) && !category2(b) && !category2(c)
    ensures WordOp(DUP_X2, Words(p + [a, b, c], category2)) == Some(Words(p + [c, a, b, c], category2))
  {
    var P := Words(p, category2);
    WordsCategory1(p, [a, b, c], category2);
    WordsCategory1(p, [c, a, b, c], category2);
    var w := P + [a, b, c];
    assert w[..|w| - 3] == P;
  }

  lemma DupX2Form2<V>(p: seq<V>, a: V, b: V, category2: V -> bool)
    requires category2(a) && !category2(b)
    ensures WordOp(DUP_X2, Words(p + [a, b], category2)) == Some(Words(p + [b, a, b], category2))
  {
    var P := Words(p, category2);
    WordsSnoc2(p, a, b, category2);
    WordsSnoc3(p, b, a, b, category2);
    var w := Words(p + [a, b], category2);
    assert w == P + [a, a, b];
    assert w[..|w| - 3] == P;
    assert Words(p + [b, a, b], category2) == P + [b, a, a, b];
  }

  lemma Dup2X1Form1<V>(p: seq<V>, a: V, b: V, c: V, category2: V -> bool)
    requires !category2(a) && !category2(b) && !category2(c)
    ensures WordOp(DUP2_X1, Words(p + [a, b, c], category2)) == Some(Words(p + [b, c, a, b, c], category2))
  {
    var P := Words(p, category2);
    WordsCategory1(p, [a, b, c], category2);
    WordsCategory1(p, [b, c, a, b, c], category2);
    var w := P + [a, b, c];
    assert w[..|w| - 3] == P;
  }

  lemma Dup2X1Form2<V>(p: seq<V>, a: V, b: V, category2: V -> bool)
    requires !category2(a) && category2(b)
    ensures WordOp(DUP2_X1, Words(p + [a, b], category2)) == Some(Words(p + [b, a, b], category2))
  {
    var P := Words(p, category2);
    WordsSnoc2(p, a, b, category2);
    WordsSnoc3(p, b, a, b, category2);
    var w := Words(p + [a, b], category2);
    assert w == P + [a, b, b];
    assert w[..|w| - 3] == P;
    assert Words(p + [b, a, b], category2) == P + [b, b, a, b, b];
  }

  function Category2(v: VariableType): bool {
    v.IsCategory2()
  }

  /** Written out for an int under a long under a float, a stack `dup_x2`
      allows (its second form): the rule as written sees a category-1 value
      on top and inserts the copy below the int, one value too deep, so the
      slots no longer match the instruction's effect. */
  lemma DupX2AsWrittenMisplaces()
    ensures var s := [IntegerType, LongType, FloatType];
      Legal(DUP_X2, s, Category2) &&
      DupX2AsWritten(s, Category2) == Success([FloatType, IntegerType, LongType, FloatType]) &&
      Shuffle(DUP_X2, s, Category2) == Success([IntegerType, FloatType, LongType, FloatType]) &&
      WordOp(DUP_X2, Words(s, Category2)) == Some(Words([IntegerType, FloatType, LongType, FloatType], Category2)) &&
      Words([FloatType, IntegerType, LongType, FloatType], Category2) != Words([IntegerType, FloatType, LongType, FloatType], Category2)
  {
    var s := [IntegerType, LongType, FloatType];
    DupX2ValuesAsWritten();
    ShuffleMatchesWords(DUP_X2, s, Category2);
    DupX2SlotsDiffer(FloatType, IntegerType, LongType, Category2);
  }

  lemma DupX2ValuesAsWritten()
    ensures var s := [IntegerType, LongType, FloatType];
      Legal(DUP_X2, s, Category2) &&
      DupX2AsWritten(s, Category2) == Success([FloatType, IntegerType, LongType, FloatType]) &&
      Shuffle(DUP_X2, s, Category2) == Success([IntegerType, FloatType, LongType, FloatType])
  {
    var s := [IntegerType, LongType, FloatType];
    assert s[..1] == [IntegerType];
    assert s[..0] == [];
    assert Category2(s[1]) && !Category2(s[2]);
    assert s[..0] + [s[2], s[0], s[1], s[2]] == [FloatType, IntegerType, LongType, FloatType];
    assert s[..1] + [s[2], s[1], s[2]] == [IntegerType, FloatType, LongType, FloatType];
  }

  /** Below a category-1 value `f` on top of a category-2 value, the slot
      right above the bottom one tells where the copy of `f` went. */
  lemma DupX2SlotsDiffer<V>(f: V, i: V, l: V, category2: V -> bool)
    requires !category2(f) && !category2(i) && category2(l)
    ensures Words([f, i, l, f], category2) == [f, i, l, l, f]
    ensures Words([i, f, l, f], category2) == [i, f, l, l, f]
  {
    assert [f, i, l, f] == [f] + [i, l, f];
    WordsSnoc3([f], i, l, f, category2);
    assert [f] == [] + [f];
    WordsSnoc([], f, category2);
    assert [i, f, l, f] == [i, f] + [l, f];
    WordsSnoc2([i, f], l, f, category2);
    assert [i, f] == [] + [i, f];
    WordsSnoc2([], i, f, category2);
  }


}
