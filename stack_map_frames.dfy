/** The seven stack map frame variants of section 4.7.4 of the Java Virtual
    Machine Specification, as `StackMapFrame.kt` builds, measures, writes and
    reads them. A frame keeps its `frameType` byte as the Kotlin classes do; the
    offset delta of the two compact variants is encoded in that byte. */
module StackMapFrames {
  import opened Wrappers
  import opened Bytes
  import opened VT = VerificationTypes

  const SAME_FRAME_MAX_OFFSET: int := 63
  const SAME_LOCALS_ONE_STACK_ITEM_MAX_OFFSET: int := 63

  datatype StackMapFrame =
    | SameFrame(frameType: int)
    | ChopFrame(frameType: int, delta: int)
    | SameFrameExtended(frameType: int, delta: int)
    | AppendFrame(frameType: int, delta: int, locals: seq<VerificationType>)
    | SameLocalsOneStackItemFrame(frameType: int, stackItem: VerificationType)
    | SameLocalsOneStackItemFrameExtended(frameType: int, delta: int, stackItem: VerificationType)
    | FullFrame(frameType: int, delta: int, locals: seq<VerificationType>, stack: seq<VerificationType>)
  {
    function OffsetDelta(): int {
      match this
      case SameFrame(t) => t
      case SameLocalsOneStackItemFrame(t, _) => t - 64
      case ChopFrame(_, d) => d
      case SameFrameExtended(_, d) => d
      case AppendFrame(_, d, _) => d
      case SameLocalsOneStackItemFrameExtended(_, d, _) => d
      case FullFrame(_, d, _, _) => d
    }

    function ChoppedVariables(): int
      requires ChopFrame?
    {
      251 - frameType
    }

    function AppendedVariables(): int
      requires AppendFrame?
    {
      frameType - 251
    }

    function VerificationTypes(): seq<VerificationType> {
      match this
      case SameFrame(_) => []
      case ChopFrame(_, _) => []
      case SameFrameExtended(_, _) => []
      case AppendFrame(_, _, ls) => ls
      case SameLocalsOneStackItemFrame(_, s) => [s]
      case SameLocalsOneStackItemFrameExtended(_, _, s) => [s]
      case FullFrame(_, _, ls, st) => ls + st
    }

    /** Size in bytes including the frame_type byte. A list written with
        `writeContentList` takes a u2 count plus its entries. */
    function ContentSize(): nat {
      match this
      case SameFrame(_) => 1
      case ChopFrame(_, _) => 3
      case SameFrameExtended(_, _) => 3
      case AppendFrame(_, _, ls) => 3 + ContentSizes(ls)
      case SameLocalsOneStackItemFrame(_, s) => 1 + VT.ContentSize(s)
      case SameLocalsOneStackItemFrameExtended(_, _, s) => 3 + VT.ContentSize(s)
      case FullFrame(_, _, ls, st) => 3 + (2 + ContentSizes(ls)) + (2 + ContentSizes(st))
    }
  }

  /** The frame_type byte lies in the range of its variant, as every `create`
      and `of` in the source ensures. */
  predicate TypeInRange(f: StackMapFrame) {
    match f
    case SameFrame(t) => 0 <= t <= 63
    case SameLocalsOneStackItemFrame(t, _) => 64 <= t <= 127
    case SameLocalsOneStackItemFrameExtended(t, _, _) => t == 247
    case ChopFrame(t, _) => 248 <= t <= 250
    case SameFrameExtended(t, _) => t == 251
    case AppendFrame(t, _, _) => 252 <= t <= 254
    case FullFrame(t, _, _, _) => t == 255
  }

  /** A frame that can be written and read back: its type byte is in range, an
      append frame holds as many locals as its type says, and every u2 field
      (offset delta, class index, list length) fits in 16 bits. */
  predicate Valid(f: StackMapFrame) {
    TypeInRange(f) &&
    match f
    case SameFrame(_) => true
    case SameLocalsOneStackItemFrame(_, s) => VT.Valid(s)
    case SameLocalsOneStackItemFrameExtended(_, d, s) => IsU2(d) && VT.Valid(s)
    case ChopFrame(_, d) => IsU2(d)
    case SameFrameExtended(_, d) => IsU2(d)
    case AppendFrame(t, d, ls) => IsU2(d) && |ls| == t - 251 && AllValid(ls)
    case FullFrame(_, d, ls, st) =>
      IsU2(d) && IsU2(|ls|) && IsU2(|st|) && AllValid(ls) && AllValid(st)
  }

  // ---------------------------------------------------------------------------
  // The `of` validators.

  function SameFrameOf(offsetDelta: int): (r: Result<StackMapFrame>)
    ensures r.Success? <==> 0 <= offsetDelta <= SAME_FRAME_MAX_OFFSET
    ensures r.Success? ==> r.value.SameFrame? && TypeInRange(r.value) && r.value.OffsetDelta() == offsetDelta
  {
    if 0 <= offsetDelta <= SAME_FRAME_MAX_OFFSET then Success(SameFrame(offsetDelta))
    else Failure("IllegalArgumentException")
  }

  function ChopFrameOf(offsetDelta: int, choppedVariables: int): (r: Result<StackMapFrame>)
    ensures r.Success? <==> offsetDelta >= 0 && 1 <= choppedVariables <= 3
    ensures r.Success? ==>
      r.value.ChopFrame? && TypeInRange(r.value) &&
      r.value.OffsetDelta() == offsetDelta && r.value.ChoppedVariables() == choppedVariables
  {
    if offsetDelta >= 0 && 1 <= choppedVariables <= 3 then Success(ChopFrame(251 - choppedVariables, offsetDelta))
    else Failure("IllegalArgumentException")
  }

  function SameFrameExtendedOf(offsetDelta: int): (r: Result<StackMapFrame>)
    ensures r.Success? <==> offsetDelta >= 0
    ensures r.Success? ==>
      r.value.SameFrameExtended? && TypeInRange(r.value) && r.value.OffsetDelta() == offsetDelta
  {
    if offsetDelta >= 0 then Success(SameFrameExtended(251, offsetDelta))
    else Failure("IllegalArgumentException")
  }

  function AppendFrameOf(offsetDelta: int, localTypes: seq<VerificationType>): (r: Result<StackMapFrame>)
    ensures r.Success? <==> offsetDelta >= 0 && 1 <= |localTypes| <= 3
    ensures r.Success? ==>
      r.value.AppendFrame? && TypeInRange(r.value) && r.value.OffsetDelta() == offsetDelta &&
      r.value.AppendedVariables() == |localTypes| && r.value.VerificationTypes() == localTypes
  {
    if offsetDelta >= 0 && 1 <= |localTypes| <= 3 then Success(AppendFrame(251 + |localTypes|, offsetDelta, localTypes))
    else Failure("IllegalArgumentException")
  }

  function SameLocalsOneStackItemFrameOf(offsetDelta: int, stackItem: VerificationType): (r: Result<StackMapFrame>)
    ensures r.Success? <==> 0 <= offsetDelta <= SAME_LOCALS_ONE_STACK_ITEM_MAX_OFFSET
    ensures r.Success? ==>
      r.value.SameLocalsOneStackItemFrame? && TypeInRange(r.value) &&
      r.value.OffsetDelta() == offsetDelta && r.value.VerificationTypes() == [stackItem]
  {
    if 0 <= offsetDelta <= SAME_LOCALS_ONE_STACK_ITEM_MAX_OFFSET then Success(SameLocalsOneStackItemFrame(offsetDelta + 64, stackItem))
    else Failure("IllegalArgumentException")
  }

  function SameLocalsOneStackItemFrameExtendedOf(offsetDelta: int, stackItem: VerificationType): (r: Result<StackMapFrame>)
    ensures r.Success? <==> offsetDelta >= 0
    ensures r.Success? ==>
      r.value.SameLocalsOneStackItemFrameExtended? && TypeInRange(r.value) &&
      r.value.OffsetDelta() == offsetDelta && r.value.VerificationTypes() == [stackItem]
  {
    if offsetDelta >= 0 then Success(SameLocalsOneStackItemFrameExtended(247, offsetDelta, stackItem))
    else Failure("IllegalArgumentException")
  }

  function FullFrameOf(offsetDelta: int, locals: seq<VerificationType>, stack: seq<VerificationType>): (r: Result<StackMapFrame>)
    ensures r.Success? <==> offsetDelta >= 0
    ensures r.Success? ==>
      r.value.FullFrame? && TypeInRange(r.value) && r.value.OffsetDelta() == offsetDelta &&
      r.value.locals == locals && r.value.stack == stack &&
      r.value.VerificationTypes() == locals + stack
  {
    if offsetDelta >= 0 then Success(FullFrame(255, offsetDelta, locals, stack))
    else Failure("IllegalArgumentException")
  }

  // ---------------------------------------------------------------------------
  // The top-level factory functions.

  /** `sameFrame`: the compact form up to offset 63, the extended form above. */
  function SameFrameFor(offsetDelta: int): (r: Result<StackMapFrame>)
    ensures r.Success? <==> offsetDelta >= 0
    ensures r.Success? ==>
      TypeInRange(r.value) && r.value.OffsetDelta() == offsetDelta && r.value.VerificationTypes() == [] &&
      (r.value.SameFrameExtended? <==> offsetDelta > SAME_FRAME_MAX_OFFSET) &&
      (r.value.SameFrame? <==> offsetDelta <= SAME_FRAME_MAX_OFFSET)
  {
    if offsetDelta > SAME_FRAME_MAX_OFFSET then SameFrameExtendedOf(offsetDelta)
    else SameFrameOf(offsetDelta)
  }

  /** `sameFrameOneStack`: the compact form iff 0 <= offsetDelta <= 63. */
  function SameFrameOneStack(offsetDelta: int, stackItem: VerificationType): (r: Result<StackMapFrame>)
    ensures r.Success? <==> offsetDelta >= 0
    ensures r.Success? ==>
      TypeInRange(r.value) && r.value.OffsetDelta() == offsetDelta &&
      r.value.VerificationTypes() == [stackItem] &&
      (r.value.SameLocalsOneStackItemFrame? <==> offsetDelta <= SAME_LOCALS_ONE_STACK_ITEM_MAX_OFFSET) &&
      (r.value.SameLocalsOneStackItemFrameExtended? <==> offsetDelta > SAME_LOCALS_ONE_STACK_ITEM_MAX_OFFSET)
  {
    if 0 <= offsetDelta <= SAME_LOCALS_ONE_STACK_ITEM_MAX_OFFSET then SameLocalsOneStackItemFrameOf(offsetDelta, stackItem)
    else SameLocalsOneStackItemFrameExtendedOf(offsetDelta, stackItem)
  }

  /** `appendFrame`: the last `k` current locals when `k`, the difference in
      list lengths, is 1 to 3; otherwise a full frame with an empty stack. */
  function AppendFrameFor(offsetDelta: int, lastVariables: seq<VerificationType>, currentVariables: seq<VerificationType>): (r: Result<StackMapFrame>)
    ensures r.Success? <==> offsetDelta >= 0
    ensures r.Success? ==> TypeInRange(r.value) && r.value.OffsetDelta() == offsetDelta
    ensures r.Success? && 1 <= |currentVariables| - |lastVariables| <= 3 ==>
      r.value.AppendFrame? &&
      r.value.locals == currentVariables[|lastVariables|..]
    ensures r.Success? && !(1 <= |currentVariables| - |lastVariables| <= 3) ==>
      r.value == FullFrame(255, offsetDelta, currentVariables, [])
  {
    var appended := |currentVariables| - |lastVariables|;
    if 1 <= appended <= 3 then
      var size := |currentVariables|;
      AppendFrameOf(offsetDelta, currentVariables[size - appended..size])
    else FullFrameOf(offsetDelta, currentVariables, [])
  }

  /** `chopFrame`: a chop frame for 1 to 3 chopped variables, otherwise a full
      frame holding `variables` and an empty stack. */
  function ChopFrameFor(offsetDelta: int, choppedVariables: int, variables: seq<VerificationType>): (r: Result<StackMapFrame>)
    ensures r.Success? <==> offsetDelta >= 0
    ensures r.Success? ==> TypeInRange(r.value) && r.value.OffsetDelta() == offsetDelta
    ensures r.Success? && 1 <= choppedVariables <= 3 ==>
      r.value.ChopFrame? && r.value.ChoppedVariables() == choppedVariables
    ensures r.Success? && !(1 <= choppedVariables <= 3) ==>
      r.value == FullFrame(255, offsetDelta, variables, [])
  {
    if 1 <= choppedVariables <= 3 then ChopFrameOf(offsetDelta, choppedVariables)
    else FullFrameOf(offsetDelta, variables, [])
  }

  // ---------------------------------------------------------------------------
  // Reading: `StackMapFrameType.of`, the `create` validators and `readData`.

  datatype FrameKind =
    | SAME_FRAME
    | SAME_LOCALS_1_STACK_ITEM_FRAME
    | SAME_LOCALS_1_STACK_ITEM_FRAME_EXTENDED
    | CHOP_FRAME
    | SAME_FRAME_EXTENDED
    | APPEND_FRAME
    | FULL_FRAME

  function KindOf(frameType: int): Result<FrameKind> {
    if 0 <= frameType <= 63 then Success(SAME_FRAME)
    else if 64 <= frameType <= 127 then Success(SAME_LOCALS_1_STACK_ITEM_FRAME)
    else if frameType == 247 then Success(SAME_LOCALS_1_STACK_ITEM_FRAME_EXTENDED)
    else if 248 <= frameType <= 250 then Success(CHOP_FRAME)
    else if frameType == 251 then Success(SAME_FRAME_EXTENDED)
    else if 252 <= frameType <= 254 then Success(APPEND_FRAME)
    else if frameType == 255 then Success(FULL_FRAME)
    else Failure("IllegalStateException")
  }

  /** The variant a frame belongs to. */
  function KindOfFrame(f: StackMapFrame): FrameKind {
    match f
    case SameFrame(_) => SAME_FRAME
    case SameLocalsOneStackItemFrame(_, _) => SAME_LOCALS_1_STACK_ITEM_FRAME
    case SameLocalsOneStackItemFrameExtended(_, _, _) => SAME_LOCALS_1_STACK_ITEM_FRAME_EXTENDED
    case ChopFrame(_, _) => CHOP_FRAME
    case SameFrameExtended(_, _) => SAME_FRAME_EXTENDED
    case AppendFrame(_, _, _) => APPEND_FRAME
    case FullFrame(_, _, _, _) => FULL_FRAME
  }

  /** Each variant's `create`: an empty frame of the given type, after the
      variant's own range check. */
  function Supply(kind: FrameKind, frameType: int): Result<StackMapFrame> {
    match kind
    case SAME_FRAME =>
      :- Need(0 <= frameType <= 63, "IllegalArgumentException");
      Success(SameFrame(frameType))
    case SAME_LOCALS_1_STACK_ITEM_FRAME =>
      :- Need(64 <= frameType <= 127, "IllegalArgumentException");
      Success(SameLocalsOneStackItemFrame(frameType, TopVariable))
    case SAME_LOCALS_1_STACK_ITEM_FRAME_EXTENDED =>
      :- Need(frameType == 247, "IllegalArgumentException");
      Success(SameLocalsOneStackItemFrameExtended(frameType, 0, TopVariable))
    case CHOP_FRAME =>
      :- Need(248 <= frameType <= 250, "IllegalArgumentException");
      Success(ChopFrame(frameType, 0))
    case SAME_FRAME_EXTENDED =>
      :- Need(frameType == 251, "IllegalArgumentException");
      Success(SameFrameExtended(frameType, 0))
    case APPEND_FRAME =>
      :- Need(252 <= frameType <= 254, "IllegalArgumentException");
      Success(AppendFrame(frameType, 0, []))
    case FULL_FRAME =>
      :- Need(frameType == 255, "IllegalArgumentException");
      Success(FullFrame(frameType, 0, [], []))
  }

  /** `StackMapFrameType.of(frameType)` and the variant's `create`: the bytes
      128 to 246 (and anything that is not a byte) are rejected, and an
      accepted byte gives an empty frame of that type, in its variant's range. */
  function Create(frameType: int): (r: Result<StackMapFrame>)
    ensures r.Success? <==> 0 <= frameType <= 127 || 247 <= frameType <= 255
    ensures r.Success? ==> r.value.frameType == frameType && TypeInRange(r.value)
  {
    var kind :- KindOf(frameType);
    Supply(kind, frameType)
  }

  /** `readData` of the frame `create` made: the fields after the type byte. */
  function ReadData(f: StackMapFrame, s: seq<Byte>, p: nat): Result<(StackMapFrame, nat)>
    requires TypeInRange(f)
  {
    match f
    case SameFrame(_) => Success((f, p))
    case SameLocalsOneStackItemFrame(t, _) =>
      var (item, q) :- Decode(s, p);
      Success((SameLocalsOneStackItemFrame(t, item), q))
    case SameLocalsOneStackItemFrameExtended(t, _, _) =>
      var (d, q) :- ReadU2(s, p);
      var (item, q') :- Decode(s, q);
      Success((SameLocalsOneStackItemFrameExtended(t, d, item), q'))
    case ChopFrame(t, _) =>
      var (d, q) :- ReadU2(s, p);
      Success((ChopFrame(t, d), q))
    case SameFrameExtended(t, _) =>
      var (d, q) :- ReadU2(s, p);
      Success((SameFrameExtended(t, d), q))
    case AppendFrame(t, _, _) =>
      var (d, q) :- ReadU2(s, p);
      var (ls, q') :- DecodeN(s, q, t - 251);
      Success((AppendFrame(t, d, ls), q'))
    case FullFrame(t, _, _, _) =>
      var (d, q) :- ReadU2(s, p);
      var (ls, q') :- DecodeList(s, q);
      var (st, q'') :- DecodeList(s, q');
      Success((FullFrame(t, d, ls, st), q''))
  }

  /** `StackMapFrame.read`: the type byte, the matching empty frame, its data. */
  function Read(s: seq<Byte>, p: nat): (r: Result<(StackMapFrame, nat)>)
    ensures r.Success? ==> ReadU1(s, p).Success? && r.value.0.frameType == ReadU1(s, p).value.0 && TypeInRange(r.value.0)
    ensures ReadU1(s, p).Success? && 128 <= ReadU1(s, p).value.0 <= 246 ==> r.Failure?
  {
    var (frameType, q) :- ReadU1(s, p);
    var f :- Create(frameType);
    CreateInRange(frameType);
    ReadData(f, s, q)
  }

  /** `write`: the frame_type byte, then the variant's payload. */
  function Write(f: StackMapFrame): (r: seq<Byte>)
    ensures ReadU1(r, 0) == Success((f.frameType % TWO_8, 1))
    ensures TypeInRange(f) ==> KindOf(ReadU1(r, 0).value.0) == Success(KindOfFrame(f))
  {
    ReadU1At(U1(f.frameType) + Payload(f), 0, f.frameType);
    U1(f.frameType) + Payload(f)
  }

  /** What each variant's `writeData` emits after the type byte. */
  function Payload(f: StackMapFrame): seq<Byte> {
    match f
    case SameFrame(_) => []
    case SameLocalsOneStackItemFrame(_, s) => Encode(s)
    case SameLocalsOneStackItemFrameExtended(_, d, s) => U2(d) + Encode(s)
    case ChopFrame(_, d) => U2(d)
    case SameFrameExtended(_, d) => U2(d)
    case AppendFrame(_, d, ls) => U2(d) + EncodeAll(ls)
    case FullFrame(_, d, ls, st) => U2(d) + EncodeList(ls) + EncodeList(st)
  }

  // ---------------------------------------------------------------------------
  // Properties.

  /** The frame_type partition: exactly the bytes 128 to 246 are rejected, and
      each accepted byte selects the variant whose range holds it. */
  lemma KindPartition(frameType: int)
    requires IsU1(frameType)
    ensures KindOf(frameType).Failure? <==> 128 <= frameType <= 246
    ensures KindOf(frameType).Success? ==>
      (KindOf(frameType).value == SAME_FRAME <==> frameType <= 63) &&
      (KindOf(frameType).value == SAME_LOCALS_1_STACK_ITEM_FRAME <==> 64 <= frameType <= 127) &&
      (KindOf(frameType).value == CHOP_FRAME <==> 248 <= frameType <= 250) &&
      (KindOf(frameType).value == APPEND_FRAME <==> 252 <= frameType <= 254)
  {
  }

  /** The `require` inside each `create` never fires when `create` is reached
      through `StackMapFrameType.of`; the frame it makes has that type byte. */
  lemma CreateInRange(frameType: int)
    ensures KindOf(frameType).Success? ==>
      Create(frameType).Success? &&
      Create(frameType).value.frameType == frameType &&
      TypeInRange(Create(frameType).value) &&
      KindOfFrame(Create(frameType).value) == KindOf(frameType).value
  {
  }

  /** The size each variant reports is the number of bytes `write` emits. */
  lemma ContentSizeIsWrittenLength(f: StackMapFrame)
    ensures f.ContentSize() == |Write(f)|
  {
    match f
    case AppendFrame(_, _, ls) => ContentSizesIsLength(ls);
    case FullFrame(_, _, ls, st) => ContentSizesIsLength(ls); ContentSizesIsLength(st);
    case _ =>
  }

  /** Reading a written frame gives the frame back, for every valid frame,
      wherever in the attribute it was written. */
  lemma ReadWritten(pre: seq<Byte>, f: StackMapFrame, post: seq<Byte>)
    requires Valid(f)
    ensures Read(pre + Write(f) + post, |pre|).Success?
    ensures Read(pre + Write(f) + post, |pre|).value.0 == f
    ensures Read(pre + Write(f) + post, |pre|).value.1 == |pre| + |Write(f)|
  {
    AtMiddle(pre, Write(f), post);
    ReadAt(pre + Write(f) + post, |pre|, f);
  }

  lemma ReadAt(s: seq<Byte>, p: nat, f: StackMapFrame)
    requires Valid(f) && At(s, p, Write(f))
    ensures Read(s, p).Success?
    ensures Read(s, p).value.0 == f
    ensures Read(s, p).value.1 == p + |Write(f)|
  {
    AtSplit(s, p, U1(f.frameType), Payload(f));
    ReadU1At(s, p, f.frameType);
    ReadByType(s, p, f.frameType);
    match f
    case SameFrame(t) =>
      assert Create(t) == Success(SameFrame(t));
    case SameLocalsOneStackItemFrame(t, item) =>
      assert Create(t) == Success(SameLocalsOneStackItemFrame(t, TopVariable));
      ReadOneStackAt(s, p + 1, t, item);
    case SameLocalsOneStackItemFrameExtended(t, d, item) =>
      assert Create(t) == Success(SameLocalsOneStackItemFrameExtended(t, 0, TopVariable));
      ReadOneStackExtendedAt(s, p + 1, t, d, item);
    case ChopFrame(t, d) =>
      assert Create(t) == Success(ChopFrame(t, 0));
      ReadChopAt(s, p + 1, t, d);
    case SameFrameExtended(t, d) =>
      assert Create(t) == Success(SameFrameExtended(t, 0));
      ReadSameExtendedAt(s, p + 1, t, d);
    case AppendFrame(t, d, ls) =>
      assert Create(t) == Success(AppendFrame(t, 0, []));
      ReadAppendAt(s, p + 1, t, d, ls);
    case FullFrame(t, d, ls, st) =>
      assert Create(t) == Success(FullFrame(t, 0, [], []));
      ReadFullAt(s, p + 1, t, d, ls, st);
  }

  /** Once the type byte is read and accepted, `read` is `readData` of the
      frame `create` made for it. */
  lemma ReadByType(s: seq<Byte>, p: nat, t: int)
    requires IsU1(t) && KindOf(t).Success? && ReadU1(s, p) == Success((t % TWO_8, p + 1))
    ensures Create(t).Success? && TypeInRange(Create(t).value)
    ensures Read(s, p) == ReadData(Create(t).value, s, p + 1)
  {
    CreateInRange(t);
    assert t % TWO_8 == t;
  }

  // One lemma per variant: `readData` of the empty frame that `create` makes
  // reads the variant's payload back.

  lemma ReadOneStackAt(s: seq<Byte>, p: nat, t: int, item: VerificationType)
    requires 64 <= t <= 127 && VT.Valid(item) && At(s, p, Encode(item))
    ensures ReadData(SameLocalsOneStackItemFrame(t, TopVariable), s, p).Success?
    ensures ReadData(SameLocalsOneStackItemFrame(t, TopVariable), s, p).value.0 == SameLocalsOneStackItemFrame(t, item)
    ensures ReadData(SameLocalsOneStackItemFrame(t, TopVariable), s, p).value.1 == p + |Encode(item)|
  {
    DecodeAt(s, p, item);
  }

  lemma ReadOneStackExtendedAt(s: seq<Byte>, p: nat, t: int, d: int, item: VerificationType)
    requires t == 247 && IsU2(d) && VT.Valid(item) && At(s, p, U2(d) + Encode(item))
    ensures ReadData(SameLocalsOneStackItemFrameExtended(t, 0, TopVariable), s, p).Success?
    ensures ReadData(SameLocalsOneStackItemFrameExtended(t, 0, TopVariable), s, p).value.0 ==
      SameLocalsOneStackItemFrameExtended(t, d, item)
    ensures ReadData(SameLocalsOneStackItemFrameExtended(t, 0, TopVariable), s, p).value.1 ==
      p + 2 + |Encode(item)|
  {
    AtSplit(s, p, U2(d), Encode(item));
    ReadU2At(s, p, d);
    DecodeAt(s, p + 2, item);
  }

  lemma ReadChopAt(s: seq<Byte>, p: nat, t: int, d: int)
    requires 248 <= t <= 250 && IsU2(d) && At(s, p, U2(d))
    ensures ReadData(ChopFrame(t, 0), s, p).Success?
    ensures ReadData(ChopFrame(t, 0), s, p).value.0 == ChopFrame(t, d)
    ensures ReadData(ChopFrame(t, 0), s, p).value.1 == p + 2
  {
    ReadU2At(s, p, d);
  }

  lemma ReadSameExtendedAt(s: seq<Byte>, p: nat, t: int, d: int)
    requires t == 251 && IsU2(d) && At(s, p, U2(d))
    ensures ReadData(SameFrameExtended(t, 0), s, p).Success?
    ensures ReadData(SameFrameExtended(t, 0), s, p).value.0 == SameFrameExtended(t, d)
    ensures ReadData(SameFrameExtended(t, 0), s, p).value.1 == p + 2
  {
    ReadU2At(s, p, d);
  }

  lemma ReadAppendAt(s: seq<Byte>, p: nat, t: int, d: int, ls: seq<VerificationType>)
    requires 252 <= t <= 254 && |ls| == t - 251
    requires IsU2(d) && AllValid(ls) && At(s, p, U2(d) + EncodeAll(ls))
    ensures ReadData(AppendFrame(t, 0, []), s, p).Success?
    ensures ReadData(AppendFrame(t, 0, []), s, p).value.0 == AppendFrame(t, d, ls)
    ensures ReadData(AppendFrame(t, 0, []), s, p).value.1 == p + 2 + |EncodeAll(ls)|
  {
    AtSplit(s, p, U2(d), EncodeAll(ls));
    ReadU2At(s, p, d);
    DecodeNAt(s, p + 2, ls);
  }

  lemma ReadFullAt(s: seq<Byte>, p: nat, t: int, d: int, ls: seq<VerificationType>, st: seq<VerificationType>)
    requires t == 255 && IsU2(d) && IsU2(|ls|) && IsU2(|st|) && AllValid(ls) && AllValid(st)
    requires At(s, p, U2(d) + EncodeList(ls) + EncodeList(st))
    ensures ReadData(FullFrame(t, 0, [], []), s, p).Success?
    ensures ReadData(FullFrame(t, 0, [], []), s, p).value.0 == FullFrame(t, d, ls, st)
    ensures ReadData(FullFrame(t, 0, [], []), s, p).value.1 == p + |U2(d) + EncodeList(ls) + EncodeList(st)|
  {
    AtSplit(s, p, U2(d) + EncodeList(ls), EncodeList(st));
    ReadFullHeadAt(s, p, d, ls);
    DecodeListAt(s, p + 2 + |EncodeList(ls)|, st);
  }

  /** The offset delta and the locals of a full frame. */
  lemma ReadFullHeadAt(s: seq<Byte>, p: nat, d: int, ls: seq<VerificationType>)
    requires IsU2(d) && IsU2(|ls|) && AllValid(ls) && At(s, p, U2(d) + EncodeList(ls))
    ensures ReadU2(s, p) == Success((d, p + 2))
    ensures DecodeList(s, p + 2).Success?
    ensures DecodeList(s, p + 2).value.0 == ls
    ensures DecodeList(s, p + 2).value.1 == p + 2 + |EncodeList(ls)|
  {
    AtSplit(s, p, U2(d), EncodeList(ls));
    ReadU2At(s, p, d);
    DecodeListAt(s, p + 2, ls);
  }

  /** Every frame the `of` validators build is valid once its u2 fields fit. */
  lemma OfIsValid(offsetDelta: int, localTypes: seq<VerificationType>)
    requires IsU2(offsetDelta) && AllValid(localTypes)
    ensures AppendFrameOf(offsetDelta, localTypes).Success? ==> Valid(AppendFrameOf(offsetDelta, localTypes).value)
    ensures ChopFrameOf(offsetDelta, |localTypes|).Success? ==> Valid(ChopFrameOf(offsetDelta, |localTypes|).value)
    ensures IsU2(|localTypes|) ==> Valid(FullFrameOf(offsetDelta, localTypes, []).value)
  {
  }

  // ---------------------------------------------------------------------------
  // What a frame means (section 4.7.4): the locals and operand stack it
  // describes, given the locals of the frame before it.

  /** Only a chop of more locals than there are fails. A chop frame keeps a
      prefix one to three entries shorter, an append frame extends the locals
      by its own, a full frame replaces them and the other frames keep them;
      only the one-stack-item frames and a full frame describe a stack. */
  function Apply(previousLocals: seq<VerificationType>, f: StackMapFrame): (r: Result<(seq<VerificationType>, seq<VerificationType>)>)
    ensures r.Failure? <==> f.ChopFrame? && !(0 <= f.ChoppedVariables() <= |previousLocals|)
    ensures r.Success? && f.ChopFrame? ==>
      |r.value.0| == |previousLocals| - f.ChoppedVariables() && r.value.0 == previousLocals[..|r.value.0|]
    ensures r.Success? && f.AppendFrame? ==>
      |r.value.0| == |previousLocals| + |f.locals| && r.value.0[..|previousLocals|] == previousLocals
    ensures r.Success? && f.FullFrame? ==> r.value == (f.locals, f.stack)
    ensures r.Success? && !f.ChopFrame? && !f.AppendFrame? && !f.FullFrame? ==>
      r.value.0 == previousLocals && |r.value.1| == |f.VerificationTypes()|
  {
    match f
    case SameFrame(_) => Success((previousLocals, []))
    case SameFrameExtended(_, _) => Success((previousLocals, []))
    case SameLocalsOneStackItemFrame(_, s) => Success((previousLocals, [s]))
    case SameLocalsOneStackItemFrameExtended(_, _, s) => Success((previousLocals, [s]))
    case ChopFrame(t, _) =>
      var k := 251 - t;
      if 0 <= k <= |previousLocals| then Success((previousLocals[..|previousLocals| - k], []))
      else Failure("VerifyError")
    case AppendFrame(_, _, ls) => Success((previousLocals + ls, []))
    case FullFrame(_, _, ls, st) => Success((ls, st))
  }

  /** The two factories the table computer uses for locals that grew or shrank
      describe the current locals exactly when the old locals are a prefix of
      the new ones (or the new ones a prefix of the old), and the chop count is
      the number of entries removed. */
  lemma AppendFrameMeaning(offsetDelta: int, last: seq<VerificationType>, current: seq<VerificationType>)
    requires offsetDelta >= 0
    requires |last| <= |current| && current[..|last|] == last
    ensures Apply(last, AppendFrameFor(offsetDelta, last, current).value) == Success((current, []))
  {
    assert last + current[|last|..] == current[..|last|] + current[|last|..] == current;
  }

  lemma ChopFrameMeaning(offsetDelta: int, last: seq<VerificationType>, current: seq<VerificationType>)
    requires offsetDelta >= 0
    requires |current| <= |last| && last[..|current|] == current
    ensures Apply(last, ChopFrameFor(offsetDelta, |last| - |current|, current).value) == Success((current, []))
  {
  }

  /** Written out for one input: the append factory does not check the prefix,
      so an unrelated list of locals is described wrongly. */
  lemma AppendFrameWithoutPrefix()
    ensures var f := AppendFrameFor(0, [IntegerVariable], [FloatVariable, IntegerVariable]).value;
      f == AppendFrame(252, 0, [IntegerVariable]) &&
      Apply([IntegerVariable], f) == Success(([IntegerVariable, IntegerVariable], [])) &&
      Apply([IntegerVariable], f) != Success(([FloatVariable, IntegerVariable], []))
  {
    var current := [FloatVariable, IntegerVariable];
    assert current[1..] == [IntegerVariable];
    assert [IntegerVariable] + [IntegerVariable] == [IntegerVariable, IntegerVariable];
    assert [IntegerVariable, IntegerVariable][0] != current[0];
  }

  // ---------------------------------------------------------------------------
  // The imperative reader of an append frame's locals.

  /** `AppendFrame.readData`: the u2 offset delta, then one verification type
      per appended variable, read in a `for` loop. */
  method ReadAppendFrameData(frameType: int, s: seq<Byte>, p: nat) returns (r: Result<(StackMapFrame, nat)>)
    requires 252 <= frameType <= 254
    ensures r == ReadData(AppendFrame(frameType, 0, []), s, p)
  {
    var delta :- ReadU2(s, p);
    var locals := ReadEntries(s, delta.1, frameType - 251);
    if locals.Failure? {
      return Failure(locals.error);
    }
    return Success((AppendFrame(frameType, delta.0, locals.value.0), locals.value.1));
  }
}
