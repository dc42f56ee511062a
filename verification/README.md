# Flagger flag view model, in Dafny

This project models the view model behind Flagger's flag screen
(`Flagger/Modules/Flag/View/Flag.swift`). `FlagViewModel.init(flag:)` takes
one decoded `Flag` record and turns it into the fields the screen binds to:

- the country key, continent, zone and the nine integer counts, copied as they are;
- the colour list, turned into a set;
- the image name, lower-cased;
- the two booleans `text` and `symbol`, turned into the tri-state
  `SelectionValue` (`yes`/`no`, never `maybe`);
- a `Country` resolved from the key by `getCountry`.

`getCountry` splits the key on `.` and drops empty pieces. It lower-cases the
last piece and looks it up by `alpha2` in the English translation table. The
ISO code is that piece upper-cased. Only a key that is empty or made only of
dots has no piece. Such a key is used as name, key and ISO code alike.

Modules:

- `Options`: the optional value (`T?`).
- `Ascii`: `lowercased()` / `uppercased()` on ASCII letters.
- `Segments`: `split(separator: ".")` and its `last` piece. It also gives an
  independent definition of "the last segment" (`LastRunAt`), lemmas linking
  the two in both directions, and a right-to-left scan that finds the segment.
- `FlagViewModel`: the `Flag`, `Translation`, `Country`, `SelectionValue` and
  published-state (`ViewRecord`) types; `getCountry`, `parseValue`,
  `Set(colors)`, and `init` as the pure function `Normalize`.
- `FlagExamples`: worked cases ("europe.fr", "europe.xx", "fr", "europe.fr.",
  all-dot keys, an upper-case table entry, the first match winning).

The translation table comes from `FlagData().translationsEn`, which is not
part of this model. It is passed in as a `seq<Translation>`.

Two edges of the code are worth stating plainly:

- A key with no `.` is looked up whole: `"fr".split(separator: ".")` is
  `["fr"]`, so `"fr"` gets ISO code `"FR"`. Only an empty or all-dot key
  falls back to the raw key (`PlainKeyIsLookedUp`,
  `FlagExamples.PlainKeyResolves`).
- The record has nine integer counts (`bars`, `stripes`, `circles`,
  `crosses`, `saltires`, `quarters`, `sunstars`, `crescent`, `triangle`),
  and all nine are copied.

## Model

| member | source | states |
|---|---|---|
| `Ascii.Lower` | Flagger/Modules/Flag/View/Flag.swift:75 | `lowercased()` keeps the length, maps each character in place (upper-case ASCII letters to lower, others unchanged), and leaves no upper-case letter |
| `Ascii.Upper` | Flagger/Modules/Flag/View/Flag.swift:97 | `uppercased()` keeps the length, maps each character in place, and leaves no lower-case letter |
| `Ascii.LowerOfLowerCase` | Flagger/Modules/Flag/View/Flag.swift:75 | a string with no upper-case letter is unchanged by lower-casing |
| `Ascii.LowerIdempotent` | Flagger/Modules/Flag/View/Flag.swift:75 | lower-casing the image name a second time changes nothing |
| `Ascii.UpperOfLower` | Flagger/Modules/Flag/View/Flag.swift:90-97 | upper-casing the lower-cased code gives the same ISO code as upper-casing the raw segment |
| `Ascii.NoUpperInLower` | Flagger/Modules/Flag/View/Flag.swift:94 | a string holding an upper-case letter never equals a lower-cased string |
| `Segments.Split` | Flagger/Modules/Flag/View/Flag.swift:90 | `split(separator: ".")` yields only non-empty, dot-free pieces, and yields none exactly when the key is empty or all dots |
| `Segments.LastSegment` | Flagger/Modules/Flag/View/Flag.swift:90-91 | `.last` of the split is absent exactly when the key is empty or all dots, and otherwise a non-empty dot-free piece |
| `Segments.SplitAtSeparator` | Flagger/Modules/Flag/View/Flag.swift:90 | a `.` cuts the key into two halves that split independently |
| `Segments.SplitOfPiece` | Flagger/Modules/Flag/View/Flag.swift:90 | a non-empty key with no `.` splits into itself alone |
| `Segments.SplitOfDots` | Flagger/Modules/Flag/View/Flag.swift:90-91 | a key made only of dots splits into nothing |
| `Segments.SplitJoin` | Flagger/Modules/Flag/View/Flag.swift:90 | round trip: splitting non-empty dot-free pieces joined with `.` returns exactly those pieces |
| `Segments.TrailingSeparatorIgnored` | Flagger/Modules/Flag/View/Flag.swift:90 | a trailing `.` does not change the last segment |
| `Segments.LastSegmentOfRun` | Flagger/Modules/Flag/View/Flag.swift:90 | completeness: the dot-free run that starts the key or follows a dot, with only dots after it, is the last piece of the split |
| `Segments.LastSegmentIsRun` | Flagger/Modules/Flag/View/Flag.swift:90 | soundness: whenever the split has a last piece, it is such a run of the key |
| `Segments.LastRunUnique` | Flagger/Modules/Flag/View/Flag.swift:90 | every run that meets that definition is the same string |
| `Segments.LastSegmentOfPlainKey` | Flagger/Modules/Flag/View/Flag.swift:90 | a non-empty key with no `.` is its own last segment, so it does not take the fallback |
| `Segments.FindLastSegment` | Flagger/Modules/Flag/View/Flag.swift:90-91 | an alternative algorithm, not the source's: scanning from the right past trailing dots, then back to the previous dot, finds the same segment as the split, and finds none exactly when the key is empty or all dots |
| `FlagViewModel.ToSet` | Flagger/Modules/Flag/View/Flag.swift:67 | `Set(flag.colors)` contains a string exactly when the list does, and is no larger than the list |
| `FlagViewModel.ToSetSize` | Flagger/Modules/Flag/View/Flag.swift:67 | the set is as large as the list if and only if no colour is listed twice |
| `FlagViewModel.ToSetIgnoresOrder` | Flagger/Modules/Flag/View/Flag.swift:67 | two lists with the same elements, in any order and with any repeats, give the same set |
| `FlagViewModel.ParseValue` | Flagger/Modules/Flag/View/Flag.swift:100-102 | `true` gives `yes`, `false` gives `no`, and `maybe` is never returned |
| `FlagViewModel.FirstMatch` | Flagger/Modules/Flag/View/Flag.swift:94 | `first(where:)` returns the lowest index whose `alpha2` equals the code verbatim, and returns nothing exactly when no entry matches |
| `FlagViewModel.NameFor` | Flagger/Modules/Flag/View/Flag.swift:94 | the name is that of the first entry whose `alpha2` matches, or the fallback key when none matches |
| `FlagViewModel.GetCountry` | Flagger/Modules/Flag/View/Flag.swift:88-98 | the country keeps the key on every path. An empty or all-dot key gives `Country(key, key, key)`. Otherwise the key has a last segment, the ISO code is the last segment upper-cased and the name is the first table match for the lower-cased segment, or the key |
| `FlagViewModel.Normalize` | Flagger/Modules/Flag/View/Flag.swift:61-86 | after `init`, the key, continent, zone and nine counts equal the record's. The colour set holds exactly the listed colours. `text` and `symbol` are `yes` or `no` as the booleans say, never `maybe`. The image name is the lower-cased original: lower case, as long as the original, equal to it ignoring case, and unchanged by lower-casing again. The country is `getCountry` of the key |
| `FlagViewModel.SelectionValue.Description` | Flagger/Modules/Flag/View/Flag.swift:111-120 | `description` gives "Yes" exactly for `yes`, "No" exactly for `no`, and "Maybe" exactly for `maybe` |
| `FlagViewModel.DescriptionInjective` | Flagger/Modules/Flag/View/Flag.swift:111-120 | `description` labels `yes`, `no` and `maybe` as "Yes", "No" and "Maybe", and no two cases share a label |
| `FlagViewModel.PlainKeyIsLookedUp` | Flagger/Modules/Flag/View/Flag.swift:90-97 | a non-empty key with no `.` is looked up whole: its ISO code is the key upper-cased |
| `FlagViewModel.TrailingDotsIgnored` | Flagger/Modules/Flag/View/Flag.swift:90-97 | appending `.` to a key that has a segment keeps the ISO code. The name changes only when both names fall back to their raw keys |
| `FlagViewModel.UpperCaseEntryNeverMatches` | Flagger/Modules/Flag/View/Flag.swift:94 | the table is compared verbatim against the lower-cased code, so an entry whose `alpha2` holds an upper-case letter is never the match |
| `FlagExamples.DottedKeyFound` | Flagger/Modules/Flag/View/Flag.swift:88-98 | "europe.fr" with a French entry resolves to ("France", "europe.fr", "FR") |
| `FlagExamples.DottedKeyMissing` | Flagger/Modules/Flag/View/Flag.swift:88-98 | "europe.xx" with no entry resolves to ("europe.xx", "europe.xx", "XX") |
| `FlagExamples.PlainKeyResolves` | Flagger/Modules/Flag/View/Flag.swift:88-98 | "fr" resolves to ("France", "fr", "FR") and does not fall back |
| `FlagExamples.TrailingDotKey` | Flagger/Modules/Flag/View/Flag.swift:88-98 | "europe.fr." resolves like "europe.fr" |
| `FlagExamples.DotsOnlyKey` | Flagger/Modules/Flag/View/Flag.swift:89-91 | ".." and "" fall back to the raw key for name and ISO code |
| `FlagExamples.UpperCaseTableEntry` | Flagger/Modules/Flag/View/Flag.swift:94 | with only an "FR" entry, "europe.fr" keeps its raw key as the name |
| `FlagExamples.FirstEntryWins` | Flagger/Modules/Flag/View/Flag.swift:94 | with two "fr" entries, the first entry's name is used |
| `FlagExamples.ImageNameLowered` | Flagger/Modules/Flag/View/Flag.swift:75 | "FRANCE.PNG" becomes "france.png" |
| `FlagExamples.RepeatedColourCollapses` | Flagger/Modules/Flag/View/Flag.swift:67 | a colour listed twice appears once in the set |
| `FlagExamples.NormalizeRecord` | Flagger/Modules/Flag/View/Flag.swift:61-86 | a whole record: "europe.fr" resolves to France, the repeated colour collapses, `false`/`true` become `no`/`yes` |

## Left out

- SwiftUI plumbing (`ObservableObject`, `@Published`, change publication): UI binding with no logic. The model returns the final state as an immutable `ViewRecord`.
- The placeholder state during `init` (`maybe` selections, a `Country` with empty name and ISO code) and the `defer` ordering: outside code never observes them. Only the state after `init` returns is modelled.
- `Decodable` conformance and JSON decoding of `Flag` and `Translation`: this is I/O through a library outside the model.
- `FlagData().translationsEn`: its definition is not part of this model. The table is a parameter.
- Full Unicode case mapping: `lowercased()` and `uppercased()` are modelled on ASCII letters only. Every other character is unchanged, and no string changes length.
- Swift strings are sequences of `Character`s (grapheme clusters); the model's strings are sequences of Unicode scalars. So `split` here cuts at every `.` scalar, even one followed by a combining mark, which Swift would treat as part of a single non-separator `Character`.
- Swift `String` equality (Unicode canonical equivalence), as used by `Set` and by the `alpha2` comparison: modelled as equality of character sequences.
- `Identifiable` (`id`), `CaseIterable` and `Hashable` conformances: the compiler derives them, and they have no behaviour to model.
- Swift `Int` width: the counts are only copied, never computed with, so they are unbounded `int`s.
