/** Shell-style glob matching restricted to the one wildcard the architecture
    table uses: `*` matches any run of characters (including the empty run) and
    every other character matches only itself. Matching is case-sensitive and
    anchored at both ends of the subject. */
module Glob {

  /** The number of non-wildcard characters of `pattern`. */
  function LiteralCount(pattern: string): nat {
    if pattern == [] then 0
    else (if pattern[0] == '*' then 0 else 1) + LiteralCount(pattern[1..])
  }

  /** True when the subject `s` matches the whole of `pattern`. Each literal
      character of the pattern consumes one character of the subject. */
  predicate GlobMatch(pattern: string, s: string)
    ensures GlobMatch(pattern, s) ==> LiteralCount(pattern) <= |s|
    decreases |pattern| + |s|
  {
    if pattern == [] then s == []
    else if pattern[0] == '*' then
      // the star either matches nothing, or swallows one more character
      GlobMatch(pattern[1..], s) || (s != [] && GlobMatch(pattern, s[1..]))
    else
      s != [] && s[0] == pattern[0] && GlobMatch(pattern[1..], s[1..])
  }

  /** A pattern without wildcards. */
  predicate IsLiteral(pattern: string) {
    '*' !in pattern
  }

  /** A literal pattern matches exactly one subject: itself. */
  lemma {:induction false} LiteralMatchesOnlyItself(pattern: string, s: string)
    requires IsLiteral(pattern)
    ensures GlobMatch(pattern, s) <==> s == pattern
    decreases |pattern|
  {
    if pattern != [] && s != [] {
      assert pattern[0] in pattern;
      assert IsLiteral(pattern[1..]) by {
        forall k | 0 <= k < |pattern[1..]| ensures pattern[1..][k] != '*' {
          assert pattern[1..][k] == pattern[k + 1];
        }
      }
      LiteralMatchesOnlyItself(pattern[1..], s[1..]);
      assert s == [s[0]] + s[1..];
      assert pattern == [pattern[0]] + pattern[1..];
    }
  }

  /** The lone pattern `*` matches every subject. */
  lemma {:induction false} StarMatchesAll(s: string)
    ensures GlobMatch("*", s)
    decreases |s|
  {
    if s != [] {
      StarMatchesAll(s[1..]);
    }
  }

  /** A literal followed by one trailing `*` matches exactly the subjects
      that begin with that literal. */
  lemma {:induction false} LiteralThenStarMatchesPrefixes(prefix: string, s: string)
    requires IsLiteral(prefix)
    ensures GlobMatch(prefix + "*", s) <==> prefix <= s
    decreases |prefix|
  {
    var p := prefix + "*";
    if prefix == [] {
      assert p == "*";
      StarMatchesAll(s);
    } else {
      assert prefix[0] in prefix;
      assert p[0] == prefix[0] && p[1..] == prefix[1..] + "*";
      assert IsLiteral(prefix[1..]) by {
        forall k | 0 <= k < |prefix[1..]| ensures prefix[1..][k] != '*' {
          assert prefix[1..][k] == prefix[k + 1];
        }
      }
      if s != [] {
        LiteralThenStarMatchesPrefixes(prefix[1..], s[1..]);
        if prefix <= s {
          assert prefix[1..] <= s[1..];
        }
      }
    }
  }
}
