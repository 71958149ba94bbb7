/** The mutually exclusive visibility flags of a class member. */
module Visibilities {
  import opened Wrappers

  const ACC_PUBLIC: int := 0x1
  const ACC_PRIVATE: int := 0x2
  const ACC_PROTECTED: int := 0x4

  datatype Visibility = PRIVATE | PACKAGE_PRIVATE | PROTECTED | PUBLIC

  /** The enum's declaration order, which `values()` iterates. */
  const VISIBILITIES: seq<Visibility> := [PRIVATE, PACKAGE_PRIVATE, PROTECTED, PUBLIC]

  function FlagValue(v: Visibility): int {
    match v
    case PRIVATE => ACC_PRIVATE
    case PACKAGE_PRIVATE => 0x0
    case PROTECTED => ACC_PROTECTED
    case PUBLIC => ACC_PUBLIC
  }

  /** `accessFlags and 0x7` on a 32-bit integer: the low three bits, which
      for a negative value in two's complement is the Euclidean remainder. */
  function Masked(accessFlags: int): int {
    accessFlags % 8
  }

  /** The first visibility in `vs` whose flag value is `masked`. */
  function FirstWithFlag(vs: seq<Visibility>, masked: int): (r: Result<Visibility>)
    ensures r.Success? <==> exists i :: 0 <= i < |vs| && FlagValue(vs[i]) == masked
    ensures r.Success? ==> FlagValue(r.value) == masked
    decreases |vs|
  {
    if vs == [] then Failure("IllegalArgumentException")
    else if FlagValue(vs[0]) == masked then Success(vs[0])
    else
      var r := FirstWithFlag(vs[1..], masked);
      assert forall i :: 1 <= i < |vs| ==> vs[i] == vs[1..][i - 1];
      r
  }

  /** `Visibility.of`: the search over `values()` with an early return. */
  method Of(accessFlags: int) returns (r: Result<Visibility>)
    ensures r == FirstWithFlag(VISIBILITIES, Masked(accessFlags))
  {
    var maskedValue := Masked(accessFlags);
    for i := 0 to |VISIBILITIES|
      invariant FirstWithFlag(VISIBILITIES, maskedValue) == FirstWithFlag(VISIBILITIES[i..], maskedValue)
    {
      assert VISIBILITIES[i..][1..] == VISIBILITIES[i + 1..];
      if maskedValue == FlagValue(VISIBILITIES[i]) {
        return Success(VISIBILITIES[i]);
      }
    }
    return Failure("IllegalArgumentException");
  }

  /** Every visibility is recovered from its own flag value, and from any
      access flags whose low three bits are that value. */
  lemma OfFlagValue(v: Visibility, accessFlags: int)
    requires Masked(accessFlags) == FlagValue(v)
    ensures FirstWithFlag(VISIBILITIES, Masked(accessFlags)) == Success(v)
  {
    var i := match v case PRIVATE => 0 case PACKAGE_PRIVATE => 1 case PROTECTED => 2 case PUBLIC => 3;
    assert VISIBILITIES[i] == v;
  }

  /** Exactly the low-bit patterns 0, 1, 2 and 4 are accepted; 3, 5, 6 and 7
      (two or three visibility bits at once) are rejected. */
  lemma OfAccepts(accessFlags: int)
    ensures FirstWithFlag(VISIBILITIES, Masked(accessFlags)).Success? <==> Masked(accessFlags) in {0, 1, 2, 4}
  {
    var m := Masked(accessFlags);
    if m in {0, 1, 2, 4} {
      var v := if m == 0 then PACKAGE_PRIVATE else if m == 1 then PUBLIC else if m == 2 then PRIVATE else PROTECTED;
      OfFlagValue(v, accessFlags);
    }
  }
}
