/** Entries of the Module attribute (section 4.7.25 of the Java Virtual
    Machine Specification): `exports` and `opens` entries, which share one
    layout, and `requires` entries. */
module ModuleEntries {
  import opened Wrappers
  import opened Bytes
  import opened Constants
  import opened ConstantPools
  import opened ConstantReferences

  /** An `exports` or `opens` entry: the package, its flags, and the modules
      it is exported or opened to. */
  datatype PackageEntry = PackageEntry(packageIndex: int, flags: int, toModules: seq<int>)

  type ExportsEntry = PackageEntry
  type OpensEntry = PackageEntry

  /** `contentSize`. */
  function PackageEntrySize(e: PackageEntry): int {
    6 + |e.toModules| * 2
  }

  /** `get`: an index outside the module array is an error. */
  function ToModule(e: PackageEntry, index: int): (r: Result<int>)
    ensures r.Success? <==> 0 <= index < |e.toModules|
    ensures r.Success? ==> r.value == e.toModules[index]
  {
    if 0 <= index < |e.toModules| then Success(e.toModules[index]) else Failure("ArrayIndexOutOfBoundsException")
  }

  function WritePackageEntry(e: PackageEntry): seq<Byte> {
    U2(e.packageIndex) + U2(e.flags) + U2Array(e.toModules)
  }

  function ReadPackageEntry(s: seq<Byte>, p: nat): Result<(PackageEntry, nat)> {
    var (packageIndex, q1) :- ReadU2(s, p);
    var (flags, q2) :- ReadU2(s, q1);
    var (toModules, q3) :- ReadU2Array(s, q2);
    Success((PackageEntry(packageIndex, flags, toModules), q3))
  }

  predicate PackageEntryFits(e: PackageEntry) {
    IsU2(e.packageIndex) && IsU2(e.flags) && IsU2s(e.toModules) && IsU2(|e.toModules|)
  }

  /** `contentSize` is the length that `write` writes. */
  lemma PackageEntrySizeIsWrittenLength(e: PackageEntry)
    ensures PackageEntrySize(e) == |WritePackageEntry(e)|
  {
    U2ArrayLength(e.toModules);
  }

  /** The round trip: `read` after `write` gives the entry back. */
  lemma ReadPackageEntryAt(e: PackageEntry, s: seq<Byte>, p: nat)
    requires PackageEntryFits(e) && At(s, p, WritePackageEntry(e))
    ensures ReadPackageEntry(s, p) == Success((e, p + PackageEntrySize(e)))
  {
    AtSplit(s, p, U2(e.packageIndex) + U2(e.flags), U2Array(e.toModules));
    AtSplit(s, p, U2(e.packageIndex), U2(e.flags));
    ReadU2At(s, p, e.packageIndex);
    DivModUnique(e.packageIndex, TWO_16, 0, e.packageIndex);
    ReadU2At(s, p + 2, e.flags);
    DivModUnique(e.flags, TWO_16, 0, e.flags);
    ReadU2ArrayAt(s, p + 4, e.toModules);
    PackageEntrySizeIsWrittenLength(e);
  }

  /** `getExportedPackageName` / `getOpenedPackageName`: the name of the
      package constant. */
  function PackageName(cs: seq<Option<Constant>>, e: PackageEntry): (r: Result<string>)
    ensures r.Success? ==> (0 <= e.packageIndex < |cs| && cs[e.packageIndex].Some? &&
      cs[e.packageIndex].value.PackageConstant? &&
      GetString(cs, cs[e.packageIndex].value.packageNameIndex) == r)
    ensures 0 <= e.packageIndex < |cs| && cs[e.packageIndex].Some? && cs[e.packageIndex].value.PackageConstant? ==>
      r == GetString(cs, cs[e.packageIndex].value.packageNameIndex)
    ensures !(0 <= e.packageIndex < |cs| && cs[e.packageIndex].Some? && cs[e.packageIndex].value.PackageConstant?) ==>
      r.Failure?
  {
    var c :- Lookup(cs, e.packageIndex);
    if c.PackageConstant? then GetString(cs, c.packageNameIndex) else Failure("ClassCastException")
  }

  /** `referencedConstantsAccept`: the package, then each module in order. */
  function PackageEntryReferences(e: PackageEntry): (r: seq<Visit>)
    ensures |r| == 1 + |e.toModules| && r[0] == VisitPackage(e.packageIndex)
    ensures forall i :: 0 <= i < |e.toModules| ==> r[i + 1] == VisitModule(e.toModules[i])
  {
    [VisitPackage(e.packageIndex)] +
    seq(|e.toModules|, i requires 0 <= i < |e.toModules| => VisitModule(e.toModules[i]))
  }

  // ---------------------------------------------------------------------------

  /** A `requires` entry: the module, its flags and the index of its version
      string (zero when there is none). */
  datatype RequiresEntry = RequiresEntry(requiredModuleIndex: int, flags: int, requiredVersionIndex: int)

  /** `contentSize`: three u2 fields. */
  const REQUIRES_ENTRY_SIZE: int := 6

  function WriteRequiresEntry(e: RequiresEntry): seq<Byte> {
    U2(e.requiredModuleIndex) + U2(e.flags) + U2(e.requiredVersionIndex)
  }

  function ReadRequiresEntry(s: seq<Byte>, p: nat): Result<(RequiresEntry, nat)> {
    var (moduleIndex, q1) :- ReadU2(s, p);
    var (flags, q2) :- ReadU2(s, q1);
    var (versionIndex, q3) :- ReadU2(s, q2);
    Success((RequiresEntry(moduleIndex, flags, versionIndex), q3))
  }

  /** The round trip, and `contentSize` is the written length. */
  lemma ReadRequiresEntryAt(e: RequiresEntry, s: seq<Byte>, p: nat)
    requires IsU2(e.requiredModuleIndex) && IsU2(e.flags) && IsU2(e.requiredVersionIndex)
    requires At(s, p, WriteRequiresEntry(e))
    ensures |WriteRequiresEntry(e)| == REQUIRES_ENTRY_SIZE
    ensures ReadRequiresEntry(s, p) == Success((e, p + REQUIRES_ENTRY_SIZE))
  {
    AtSplit(s, p, U2(e.requiredModuleIndex) + U2(e.flags), U2(e.requiredVersionIndex));
    AtSplit(s, p, U2(e.requiredModuleIndex), U2(e.flags));
    ReadU2At(s, p, e.requiredModuleIndex);
    DivModUnique(e.requiredModuleIndex, TWO_16, 0, e.requiredModuleIndex);
    ReadU2At(s, p + 2, e.flags);
    DivModUnique(e.flags, TWO_16, 0, e.flags);
    ReadU2At(s, p + 4, e.requiredVersionIndex);
    DivModUnique(e.requiredVersionIndex, TWO_16, 0, e.requiredVersionIndex);
  }

  /** `referencedConstantsAccept`: the module, then the version string only
      when its index is positive. */
  function RequiresEntryReferences(e: RequiresEntry): (r: seq<Visit>)
    ensures 1 <= |r| <= 2 && r[0] == VisitModule(e.requiredModuleIndex)
    ensures |r| == 2 <==> e.requiredVersionIndex > 0
    ensures |r| == 2 ==> r[1] == VisitUtf8(e.requiredVersionIndex)
  {
    [VisitModule(e.requiredModuleIndex)] + (if e.requiredVersionIndex > 0 then [VisitUtf8(e.requiredVersionIndex)] else [])
  }
}
