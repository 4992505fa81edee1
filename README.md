# Architecture classifier

A model of the `arch` package of scratchbuild: the closed set of
known CPU architectures (`NONE`, `AMD64`, `ARMV6`, `ARMV7`, `ARMV8`), the
default architecture `AMD64`, the table that maps glob patterns on the output
of `uname -m` to architectures, the table of which architectures' images run on
which others, and `ParseArch`, which resolves a raw machine string against the
pattern table and falls back to `(AMD64, false)`.

Three modules:

- `Glob` (`glob.dfy`): `GlobMatch`, a `*`-only glob matcher standing in for the
  external glob library, with the two facts the table relies on: a literal
  pattern matches only itself, and a literal followed by `*` matches exactly the
  strings with that prefix.
- `Arch` (`arch.dfy`): the enumeration, `DefaultArch`, the pattern table
  `KnownArchNames` as a sequence in the order the source writes it, the search
  loop `ParseArchIn` over any visiting order, `ParseArch` over the written order,
  the compatibility table `KnownArchCompat` and its total lookup `CompatibleWith`.
- `ArchProperties` (`arch_properties.dfy`): a glob-free reference
  classification `Classify` and the proof that `ParseArch` agrees with it on
  every input; that the table is unambiguous, so that visiting its entries in any
  order gives the same result; and the concrete values the source's entries give.

Three places where the code is not what a reader of a classifier might
assume; the model follows the code:

- An ordered table would let the first declared match win. In the code the
  table is a Go map, iterated in no fixed order. The
  model searches a sequence in the source's written order and proves
  (`ParseArchOrderIndependent`) that every other order gives the same answer.
- Full shell globs would include `?` as a one-character wildcard. The code calls an
  external glob library, and the table uses only `*`. The model supports only
  `*` and claims nothing about `?`.
- There is no compatibility lookup operation in the code. It has
  only the table `KnownArchCompat`. The model exposes it as the total lookup
  `CompatibleWith`, which gives `[]` for a missing key, as indexing a Go map
  does (a nil slice, which has length zero).

## Model

| member | source | states |
|---|---|---|
| `Arch.Ordinal` | arch/arch.go:10-20 | each enumerator carries its position in declaration order, 0 to 4, so the five values are distinct and `NONE` carries 0, the zero value of the type |
| `Arch.ParseArchIn` | arch/arch.go:47-55 | the search finds a match exactly when some entry's pattern matches; the result is then the architecture of the first matching entry in visiting order; with no match it is `AMD64` with `false` |
| `Arch.ParseArch` | arch/arch.go:46-55 | never `NONE`; unmatched gives `(DefaultArch, false)`; `true` exactly when some table pattern matches, and then the result is the architecture of a matching entry |
| `Arch.CompatibleWith` | arch/arch.go:38-44 | the architectures listed for a target are exactly the strictly older ARM generations, oldest first with no repeats, and never the target itself; `AMD64` and `NONE` get none |
| `Glob.GlobMatch` | arch/arch.go:49 | its own contract only says that each literal pattern character consumes one subject character, so a subject shorter than the pattern's literal characters never matches; what it means for the table's two pattern shapes is stated by `LiteralMatchesOnlyItself` and `LiteralThenStarMatchesPrefixes` |
| `Glob.LiteralMatchesOnlyItself` | arch/arch.go:49 | a pattern without `*` matches a string if and only if the string equals the pattern |
| `Glob.StarMatchesAll` | arch/arch.go:49 | the pattern `*` matches every string, the empty one included |
| `Glob.LiteralThenStarMatchesPrefixes` | arch/arch.go:31 | a literal followed by a trailing `*` matches a string if and only if the string starts with the literal |
| `ArchProperties.EntryShapes` | arch/arch.go:26-36 | every entry of the table is a literal name, except `armv8*`, which is the literal `armv8` and one trailing `*` |
| `ArchProperties.EntryClassifies` | arch/arch.go:26-36 | a string matched by an entry's pattern is classified by the glob-free reference as that entry's architecture, with `true` |
| `ArchProperties.ClassifiedIsMatched` | arch/arch.go:26-36 | every string the reference accepts is matched by some pattern of the table |
| `ArchProperties.ParseArchMatchesClassify` | arch/arch.go:26-55 | on every input, resolution through the glob table equals the reference: the seven literal names, any string starting with `armv8`, and otherwise `(AMD64, false)` |
| `ArchProperties.KnownArchNamesUnambiguous` | arch/arch.go:26-36 | no string matches two patterns of the table that give different architectures |
| `ArchProperties.SameEntriesSameResult` | arch/arch.go:48-53 | two tables with the same entries, one of them unambiguous, resolve every string alike, whatever order each lists its entries in |
| `ArchProperties.ParseArchOrderIndependent` | arch/arch.go:48-54 | visiting the known entries in any order, as map iteration may, gives the same result as `ParseArch` |
| `ArchProperties.KnownArchNamesDistinct` | arch/arch.go:26-36 | the table's patterns are pairwise distinct, as a map's keys are |
| `ArchProperties.LiteralEntriesResolve` | arch/arch.go:27-35 | every literal pattern, given as input, resolves to its own entry's architecture with `true` |
| `ArchProperties.LiteralNamesResolve` | arch/arch.go:27-35 | `arm` and `armv6l` give ARMv6, `armv7l` ARMv7, `aarch64` ARMv8, `x86_64`, `amd64` and `i386` AMD64, all with `true` |
| `ArchProperties.Armv8PrefixResolves` | arch/arch.go:31 | every string starting with `armv8`, `armv8` itself included, gives `(ARMV8, true)` |
| `ArchProperties.ShortNamesUnmatched` | arch/arch.go:26-36 | every string shorter than the shortest pattern (`arm`) gives `(DefaultArch, false)` |
| `ArchProperties.EmptyNameUnmatched` | arch/arch.go:26-36 | the empty string matches no pattern and gives `(DefaultArch, false)` |
| `ArchProperties.RecognisedNames` | arch/arch.go:26-54 | the match flag is `true` exactly for the seven literal names and the strings starting with `armv8` |
| `ArchProperties.CompatibilityValues` | arch/arch.go:39-44 | ARMv8 lists `[ARMV6, ARMV7]`, ARMv7 lists `[ARMV6]`, and ARMv6, AMD64 and NONE list nothing |

## Left out

- The external glob library behind `glob.Glob` is not part of this model; `GlobMatch` is an explicit matcher for `*` and literal characters only, which is all the table uses.
- Go's randomised map iteration is not modelled as nondeterminism; the search runs over a sequence, and `ParseArchOrderIndependent` covers every visiting order instead.
- The package-level variables `DefaultArch`, `KnownArchNames` and `KnownArchCompat` are constants here; no code in the package assigns them.
- `KnownArch` is an `int` in Go, so a caller could convert other integers to it; the model keeps the five declared values only.
- Obtaining the raw string from the host (`uname -m`) is the caller's job and is not modelled.
- Choosing an image from the compatibility lists happens outside this package and is not modelled.
- Go distinguishes a nil slice from an empty one; for a missing key the model returns `[]`, which has the same length and contents.
- Go strings are byte strings, while the model's `string` is a sequence of Unicode characters: input that is not valid UTF-8 is outside the model. For every other input the result is the same, because every pattern is ASCII and matching is equality or an ASCII prefix test. The bound `|arch| < 3` of `ShortNamesUnmatched` counts characters, not Go's bytes.
