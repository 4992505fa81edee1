/** What the resolution and compatibility tables promise: a glob-free
    description of every accepted name, freedom from order dependence, and the
    concrete values the table's entries give. */
module ArchProperties {
  import opened Glob
  import opened Arch

  /** Reference classification written without globs: each literal name
      stands for itself, `armv8*` for every string starting with "armv8", and
      anything else falls back to the default with `false`. */
  function Classify(arch: string): (KnownArch, bool) {
    if arch == "arm" || arch == "armv6l" then (ARMV6, true)
    else if arch == "armv7l" then (ARMV7, true)
    else if arch == "aarch64" || "armv8" <= arch then (ARMV8, true)
    else if arch == "x86_64" || arch == "amd64" || arch == "i386" then (AMD64, true)
    else (AMD64, false)
  }

  /** Every table entry is either a literal name or "armv8" followed by a
      single trailing `*`. */
  lemma EntryShapes(i: int)
    requires 0 <= i < |KnownArchNames|
    ensures i != 4 <==> IsLiteral(KnownArchNames[i].0)
    ensures i == 4 ==> KnownArchNames[i].0 == "armv8" + "*" && IsLiteral("armv8")
  {
    assert KnownArchNames[4].0[5] == '*';
  }

  /** A subject matched by an entry is classified as that entry's architecture. */
  lemma EntryClassifies(i: int, arch: string)
    requires 0 <= i < |KnownArchNames|
    requires GlobMatch(KnownArchNames[i].0, arch)
    ensures Classify(arch) == (KnownArchNames[i].1, true)
  {
    EntryShapes(i);
    if i == 4 {
      LiteralThenStarMatchesPrefixes("armv8", arch);
      assert arch[4] == '8';
      assert arch != "armv6l" && arch != "armv7l" && arch != "arm";
    } else {
      LiteralMatchesOnlyItself(KnownArchNames[i].0, arch);
    }
  }

  /** Every subject the reference accepts is matched by some entry. */
  lemma ClassifiedIsMatched(arch: string)
    requires Classify(arch).1
    ensures exists i :: 0 <= i < |KnownArchNames| && GlobMatch(KnownArchNames[i].0, arch)
  {
    var i :=
      if arch == "arm" then 0
      else if arch == "armv6l" then 1
      else if arch == "armv7l" then 2
      else if arch == "aarch64" then 3
      else if arch == "x86_64" then 5
      else if arch == "amd64" then 6
      else if arch == "i386" then 7
      else 4;
    EntryShapes(i);
    if i == 4 {
      LiteralThenStarMatchesPrefixes("armv8", arch);
    } else {
      LiteralMatchesOnlyItself(KnownArchNames[i].0, arch);
    }
  }

  /** Resolution through the glob table agrees with the glob-free reference
      on every input. */
  lemma ParseArchMatchesClassify(arch: string)
    ensures ParseArch(arch) == Classify(arch)
  {
    var r := ParseArch(arch);
    if r.1 {
      var k :| 0 <= k < |KnownArchNames| && KnownArchNames[k].1 == r.0 && GlobMatch(KnownArchNames[k].0, arch);
      EntryClassifies(k, arch);
    } else if Classify(arch).1 {
      ClassifiedIsMatched(arch);
      assert false;
    }
  }

  /** No subject matches two entries of `names` that give different architectures. */
  ghost predicate Unambiguous(names: NameTable) {
    forall i, j, arch ::
      0 <= i < |names| && 0 <= j < |names| && GlobMatch(names[i].0, arch) && GlobMatch(names[j].0, arch)
      ==> names[i].1 == names[j].1
  }

  /** The known table is unambiguous. */
  lemma KnownArchNamesUnambiguous()
    ensures Unambiguous(KnownArchNames)
  {
    forall i, j, arch |
      0 <= i < |KnownArchNames| && 0 <= j < |KnownArchNames|
      && GlobMatch(KnownArchNames[i].0, arch) && GlobMatch(KnownArchNames[j].0, arch)
      ensures KnownArchNames[i].1 == KnownArchNames[j].1
    {
      EntryClassifies(i, arch);
      EntryClassifies(j, arch);
    }
  }

  /** Two tables holding the same entries, one of them unambiguous, resolve
      every subject to the same result whatever order they list the entries in. */
  lemma SameEntriesSameResult(t: NameTable, u: NameTable, arch: string)
    requires forall e :: e in t <==> e in u
    requires Unambiguous(t)
    ensures ParseArchIn(t, arch) == ParseArchIn(u, arch)
  {
    var rt, ru := ParseArchIn(t, arch), ParseArchIn(u, arch);
    assert rt.1 <==> ru.1 by {
      if rt.1 {
        var i :| 0 <= i < |t| && GlobMatch(t[i].0, arch);
        assert t[i] in u;
        var k :| 0 <= k < |u| && u[k] == t[i];
        assert GlobMatch(u[k].0, arch);
      }
      if ru.1 {
        var m :| 0 <= m < |u| && GlobMatch(u[m].0, arch);
        assert u[m] in t;
        var n :| 0 <= n < |t| && t[n] == u[m];
        assert GlobMatch(t[n].0, arch);
      }
    }
    if rt.1 {
      var i :| FirstMatchAt(t, arch, i) && t[i].1 == rt.0;
      var m :| FirstMatchAt(u, arch, m) && u[m].1 == ru.0;
      assert u[m] in t;
      var n :| 0 <= n < |t| && t[n] == u[m];
      assert GlobMatch(t[n].0, arch);
    }
  }

  /** The source iterates over a map, in no fixed order: visiting the known
      entries in any order gives the same result as the order written. */
  lemma ParseArchOrderIndependent(visited: NameTable, arch: string)
    requires forall e :: e in visited <==> e in KnownArchNames
    ensures ParseArchIn(visited, arch) == ParseArch(arch)
  {
    KnownArchNamesUnambiguous();
    SameEntriesSameResult(KnownArchNames, visited, arch);
  }

  /** The patterns of the known table are pairwise distinct. */
  lemma KnownArchNamesDistinct()
    ensures DistinctPatterns(KnownArchNames)
  {
  }

  /** Every literal entry of the table resolves to its own architecture, with `true`. */
  lemma LiteralEntriesResolve(i: int)
    requires 0 <= i < |KnownArchNames| && IsLiteral(KnownArchNames[i].0)
    ensures ParseArch(KnownArchNames[i].0) == (KnownArchNames[i].1, true)
  {
    var name := KnownArchNames[i].0;
    LiteralMatchesOnlyItself(name, name);
    EntryClassifies(i, name);
    ParseArchMatchesClassify(name);
  }

  /** The literal names, one by one. */
  lemma LiteralNamesResolve()
    ensures ParseArch("arm") == (ARMV6, true)
    ensures ParseArch("armv6l") == (ARMV6, true)
    ensures ParseArch("armv7l") == (ARMV7, true)
    ensures ParseArch("aarch64") == (ARMV8, true)
    ensures ParseArch("x86_64") == (AMD64, true)
    ensures ParseArch("amd64") == (AMD64, true)
    ensures ParseArch("i386") == (AMD64, true)
  {
    EntryShapes(0);
    LiteralEntriesResolve(0);
    EntryShapes(1);
    LiteralEntriesResolve(1);
    EntryShapes(2);
    LiteralEntriesResolve(2);
    EntryShapes(3);
    LiteralEntriesResolve(3);
    EntryShapes(5);
    LiteralEntriesResolve(5);
    EntryShapes(6);
    LiteralEntriesResolve(6);
    EntryShapes(7);
    LiteralEntriesResolve(7);
  }

  /** Every string starting with "armv8", "armv8" itself included, is ARMv8. */
  lemma Armv8PrefixResolves(suffix: string)
    ensures ParseArch("armv8" + suffix) == (ARMV8, true)
  {
    var s := "armv8" + suffix;
    assert s[0] == 'a' && s[1] == 'r' && s[4] == '8';
    ParseArchMatchesClassify(s);
  }

  /** No name shorter than three characters, the length of the shortest
      pattern, is recognised. */
  lemma ShortNamesUnmatched(arch: string)
    requires |arch| < 3
    ensures ParseArch(arch) == (DefaultArch, false)
  {
    ParseArchMatchesClassify(arch);
  }

  /** The empty string matches no pattern and falls back to the default. */
  lemma EmptyNameUnmatched()
    ensures ParseArch("") == (DefaultArch, false)
  {
    ShortNamesUnmatched("");
  }

  /** Exactly the listed names and the `armv8` prefix are recognised. */
  lemma RecognisedNames(arch: string)
    ensures ParseArch(arch).1 <==>
      || arch == "arm" || arch == "armv6l" || arch == "armv7l" || arch == "aarch64"
      || arch == "x86_64" || arch == "amd64" || arch == "i386"
      || "armv8" <= arch
  {
    ParseArchMatchesClassify(arch);
  }

  /** The declared compatibility lists. */
  lemma CompatibilityValues()
    ensures CompatibleWith(ARMV8) == [ARMV6, ARMV7]
    ensures CompatibleWith(ARMV7) == [ARMV6]
    ensures CompatibleWith(ARMV6) == []
    ensures CompatibleWith(AMD64) == []
    ensures CompatibleWith(NONE) == []
  {
  }
}
