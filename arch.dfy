/** The architecture classifier: the closed set of known architectures, the
    table of `uname -m` name patterns, the compatibility table, and the
    resolution of a raw machine string to a known architecture. */
module Arch {
  import opened Glob

  /** The known architectures, in their declaration order. */
  datatype KnownArch = NONE | AMD64 | ARMV6 | ARMV7 | ARMV8

  /** The integer value each enumerator carries (assigned by position from
      zero), so NONE is also the zero value of the type. */
  function Ordinal(a: KnownArch): (n: nat)
    ensures n < 5 && [NONE, AMD64, ARMV6, ARMV7, ARMV8][n] == a
  {
    match a
    case NONE => 0
    case AMD64 => 1
    case ARMV6 => 2
    case ARMV7 => 3
    case ARMV8 => 4
  }

  /** The architecture most images are compatible with. */
  const DefaultArch: KnownArch := AMD64

  /** A name table: (glob pattern, architecture) entries. */
  type NameTable = seq<(string, KnownArch)>

  /** The pattern table, entries in the order the source writes them. */
  const KnownArchNames: NameTable := [
    ("arm", ARMV6),
    ("armv6l", ARMV6),
    ("armv7l", ARMV7),
    ("aarch64", ARMV8),
    ("armv8*", ARMV8),
    ("x86_64", AMD64),
    ("amd64", AMD64),
    ("i386", AMD64)
  ]

  /** The table's patterns are pairwise distinct, as the keys of a map are. */
  ghost predicate DistinctPatterns(names: NameTable) {
    forall i, j :: 0 <= i < j < |names| ==> names[i].0 != names[j].0
  }

  /** Index `i` is the first entry of `names` whose pattern matches `arch`. */
  ghost predicate FirstMatchAt(names: NameTable, arch: string, i: int) {
    && 0 <= i < |names|
    && GlobMatch(names[i].0, arch)
    && forall j :: 0 <= j < i ==> !GlobMatch(names[j].0, arch)
  }

  /** The search loop, visiting the entries of `names` in sequence order:
      skip every entry whose pattern does not match, return the architecture
      of the first one that does with `true`, and fall back to `(AMD64, false)`. */
  function ParseArchIn(names: NameTable, arch: string): (r: (KnownArch, bool))
    ensures r.1 <==> exists i :: 0 <= i < |names| && GlobMatch(names[i].0, arch)
    ensures r.1 ==> exists i :: FirstMatchAt(names, arch, i) && names[i].1 == r.0
    ensures !r.1 ==> r.0 == AMD64
  {
    if names == [] then (AMD64, false)
    else if GlobMatch(names[0].0, arch) then
      assert FirstMatchAt(names, arch, 0);
      (names[0].1, true)
    else
      var r := ParseArchIn(names[1..], arch);
      assert forall i :: 1 <= i < |names| ==> names[i] == names[1..][i - 1];
      assert r.1 ==> exists i :: FirstMatchAt(names, arch, i) && names[i].1 == r.0 by {
        if r.1 {
          var k :| FirstMatchAt(names[1..], arch, k) && names[1..][k].1 == r.0;
          assert FirstMatchAt(names, arch, k + 1);
        }
      }
      r
  }

  /** Resolves a raw `uname -m` string against the known pattern table. */
  function ParseArch(arch: string): (r: (KnownArch, bool))
    ensures r.0 != NONE
    ensures !r.1 ==> r == (DefaultArch, false)
    ensures r.1 <==> exists i :: 0 <= i < |KnownArchNames| && GlobMatch(KnownArchNames[i].0, arch)
    ensures r.1 ==> exists i :: 0 <= i < |KnownArchNames| && KnownArchNames[i].1 == r.0
                                && GlobMatch(KnownArchNames[i].0, arch)
  {
    assert forall i :: 0 <= i < |KnownArchNames| ==> KnownArchNames[i].1 != NONE;
    ParseArchIn(KnownArchNames, arch)
  }

  /** The compatibility table: the architectures whose images can run on the
      keyed architecture. */
  const KnownArchCompat: map<KnownArch, seq<KnownArch>> := map[
    ARMV8 := [ARMV6, ARMV7],
    ARMV7 := [ARMV6]
  ]

  /** The ARM generation of an architecture, or 0 for a non-ARM one. */
  function ArmVersion(a: KnownArch): nat {
    match a
    case ARMV6 => 6
    case ARMV7 => 7
    case ARMV8 => 8
    case _ => 0
  }

  /** Total lookup in the compatibility table: a missing key has no
      compatible architectures. The result lists exactly the strictly older ARM
      generations of an ARM target, oldest first, and never the target itself. */
  function CompatibleWith(target: KnownArch): (r: seq<KnownArch>)
    ensures forall x :: x in r <==> 0 < ArmVersion(x) < ArmVersion(target)
    ensures forall i, j :: 0 <= i < j < |r| ==> ArmVersion(r[i]) < ArmVersion(r[j])
    ensures target !in r
  {
    if target in KnownArchCompat then KnownArchCompat[target] else []
  }
}
