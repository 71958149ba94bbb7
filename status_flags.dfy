/** The status word the code analyzers keep per code offset: a bit mask of
    block-structure flags that is only ever OR-ed into. */
module StatusFlags {

  /** A Kotlin `Int` status word. */
  type Status = bv32

  const BLOCK_ENTRY: Status := 2
  const BLOCK_EXIT: Status := 4
  const EXCEPTION_HANDLER: Status := 8
  const BRANCH_TARGET: Status := 16

  /** `setStatusFlag`: the least status holding the bits of `s` and of
      `flag`. */
  function SetFlag(s: Status, flag: Status): Status {
    s | flag
  }

  /** Setting a flag keeps every bit already set and sets the flag's. */
  lemma SetFlagKeeps(s: Status, flag: Status)
    ensures Includes(SetFlag(s, flag), s)
    ensures Includes(SetFlag(s, flag), flag)
  {
  }

  /** `isFlagSet`: some bit of `flag` is set in `s`. */
  predicate IsFlagSet(s: Status, flag: Status) {
    s & flag != 0
  }

  /** Every bit of `t` is set in `s`. */
  predicate Includes(s: Status, t: Status) {
    s & t == t
  }

  /** Setting a flag adds no bit that neither `s` nor `flag` has. */
  lemma SetFlagLeast(s: Status, flag: Status, t: Status)
    requires Includes(t, s) && Includes(t, flag)
    ensures Includes(t, SetFlag(s, flag))
  {
  }

  /** A flag is set after setting it, unless it has no bits. */
  lemma SetFlagSets(s: Status, flag: Status)
    ensures IsFlagSet(SetFlag(s, flag), flag) <==> flag != 0
  {
  }

  /** Setting a flag that is already set changes nothing. */
  lemma SetFlagUnchanged(s: Status, flag: Status)
    requires Includes(s, flag)
    ensures SetFlag(s, flag) == s
  {
  }

  /** Setting a flag twice is setting it once. */
  lemma SetFlagIdempotent(s: Status, flag: Status)
    ensures SetFlag(SetFlag(s, flag), flag) == SetFlag(s, flag)
  {
  }

  lemma IncludesTransitive(a: Status, b: Status, c: Status)
    requires Includes(a, b) && Includes(b, c)
    ensures Includes(a, c)
  {
  }

  /** A set flag stays set once the status only grows. */
  lemma FlagStaysSet(s: Status, t: Status, flag: Status)
    requires Includes(t, s) && IsFlagSet(s, flag)
    ensures IsFlagSet(t, flag)
  {
  }

  /** Setting a flag other than `BLOCK_EXIT` leaves `BLOCK_EXIT` as it
      was. */
  lemma SetOtherFlag(s: Status, flag: Status)
    requires flag == BLOCK_ENTRY || flag == EXCEPTION_HANDLER || flag == BRANCH_TARGET
    ensures IsFlagSet(SetFlag(s, flag), BLOCK_EXIT) ==> IsFlagSet(s, BLOCK_EXIT)
  {
  }

  /** The four flags are distinct single bits. */
  lemma FlagsAreDistinctBits()
    ensures !IsFlagSet(BLOCK_ENTRY, BLOCK_EXIT) && !IsFlagSet(BLOCK_ENTRY, EXCEPTION_HANDLER) && !IsFlagSet(BLOCK_ENTRY, BRANCH_TARGET)
    ensures !IsFlagSet(BLOCK_EXIT, EXCEPTION_HANDLER) && !IsFlagSet(BLOCK_EXIT, BRANCH_TARGET)
    ensures !IsFlagSet(EXCEPTION_HANDLER, BRANCH_TARGET)
  {
  }
}
