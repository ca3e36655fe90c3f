# Morse resolver: a verified model

The program resolves a partially heard Morse signal to the letters it may
stand for. A query is a string over `.` (dot), `-` (dash) and `?` (a signal
that was not heard). The answer is a list of letters, most likely first:

- A query that is exactly a letter's code resolves to that letter alone.
- A query made only of `?` resolves to every letter whose code has the
  query's length.
- Any other query resolves to every letter whose code carries each known
  dot or dash at the same position. The code must also have the query's
  length, except for a query of length 3 (the constant `maxSignalsLength`),
  where code length is not checked at all.
- Letters are ranked by a fixed weight, from 100 for `E` down to 75 for `Q`.

The model has six modules:

- `MorseTable` (`table.dfy`): the 26-entry dictionary and its invariants.
  The dictionary is a sequence of `Entry(code, letter, weight)` rows in the
  order the source writes them. Each row is given by `Row(i)`, and `RowAt` is
  the case split that proofs about every entry go through.
- `Ranking` (`ranking.dfy`): `getOrderedPossibilities`. The library sort
  becomes an insertion sort by decreasing weight. The module proves that the
  sort yields a permutation, and that with distinct weights there is only
  one strictly ranked result.
- `Resolver` (`resolver.dfy`): `Possibilities` and its helpers, one Dafny
  function per source function. `Selected` is an independent reference
  definition: which dictionary entries a query admits, stated over the
  query itself rather than over the helper's map. `Possibilities` is proved
  to return exactly the admitted letters, strictly ranked.
- `ResolverProperties` (`properties.dfy`): all-queries properties. These
  cover the exact-match short cut, pure-wildcard queries, positional
  soundness, the length policy, uniqueness of the result, and independence
  from map iteration order.
- `QuerySelections` (`selections.dfy`): which entries some concrete queries
  admit, and the bridge from "exactly these entries" to the ranked result.
- `ResolverExamples` (`examples.dfy`): concrete results. These include the
  three calls of the demonstration entry point.

`????` has no known symbol, so it takes the length-only branch (main.go:63-64
and 88-96) and returns every four-signal letter, most likely first:
`["H", "V", "F", "L", "P", "J", "B", "X", "C", "Y", "Z", "Q"]`
(`ResolverExamples.FourWildcardsExample`).

## Model

| member | source | states |
|---|---|---|
| MorseTable.TableIsValid | main.go:44-54 | The dictionary has 26 entries. Every code is one to four dots and dashes. Codes, letters and weights are pairwise distinct. The entry at index i weighs 100 - i, so every weight lies in 75..100. Every letter is one character. |
| MorseTable.KeysAscending | main.go:44-54 | Proof helper behind `CodesDistinct`: listed in the order this model keeps them, the codes are strictly increasing in shortlex order (length first, then dot before dash), so no two are equal. The order of a Go map literal carries no meaning of its own. |
| MorseTable.CodesDistinct | main.go:11-36 | The 26 code constants are pairwise distinct, as Go requires of constant keys in a map literal, so the map has 26 entries. |
| MorseTable.LettersDistinct | main.go:44-54 | Each letter is a single character, and no letter appears in two entries. |
| MorseTable.WeightsByIndex | main.go:44-54 | The weights fall by one per entry, from 100 for the first entry. |
| MorseTable.Lookup | main.go:57 | A found entry is in the dictionary and has the looked-up code. Nothing is found exactly when no entry has that code. With distinct codes, the entry found is the one holding the code. |
| MorseTable.WeightOfEntry | main.go:39-42 | A dictionary letter's weight, looked up by letter, is its entry's weight. |
| Resolver.KnownSignalsPositions | main.go:70-86 | The map holds exactly the positions of non-wildcard symbols, each mapped to its symbol. The flag is true exactly when some symbol is not a wildcard. |
| Resolver.KnownPositionsAgree | main.go:111-119 | Checking a code against the known-positions map is the same as checking that the code carries every known query symbol at the same index. A known position past the end of the code fails the check. |
| Resolver.SignalsWithInputLength | main.go:88-97 | The result lists exactly the letters whose code has the given length, strictly ranked by weight. |
| Resolver.SignalsFromKnownSignalPositions | main.go:99-109 | The result lists exactly the letters whose code holds every known position and passes the length policy, strictly ranked by weight. |
| Resolver.Filter | main.go:89-94 | The kept entries are exactly the accepted entries of the input, each as often as in the input. Distinct weights survive filtering. |
| Resolver.FilterOrderIrrelevant | main.go:100-108 | Filtering two orderings of the same entries with distinct weights, then ranking, gives the same letters in the same order. |
| Resolver.Possibilities | main.go:56-68 | The result lists exactly the letters the query admits under the reference definition `Selected`, and is strictly ranked by weight (so it has no duplicates). |
| Resolver.ExactBranch | main.go:57-59 | When the query is some entry's code, that entry's letter is the only letter the query admits. |
| Resolver.WildcardBranch | main.go:61-65 | A query that is no code and has no known symbol admits exactly the letters whose code has the query's length. |
| Resolver.KnownBranch | main.go:99-106 | For a query that is no code and has a known symbol, the letters it admits are exactly the letters the positional filter with the length policy keeps. |
| Resolver.CodeDeterminesEntry | main.go:44-54 | Two dictionary entries with the same code are the same entry. |
| Ranking.Insert | main.go:130-132 | Inserting into a descending sequence keeps it descending and adds exactly the inserted entry. Strictly descending stays strict when the new weight is fresh. |
| Ranking.SortByWeight | main.go:130-132 | The result is ordered by decreasing weight and is a permutation of the input. With distinct weights the order is strict. |
| Ranking.Letters | main.go:134-137 | The result has one letter per entry, position by position. |
| Ranking.OrderedPossibilities | main.go:129-140 | The letters are a permutation of the letters of the nodes. A letter occurs exactly when some node has it. For dictionary nodes with distinct weights, the letters are strictly ranked. |
| Ranking.StrictlyDescendingUnique | main.go:130-132 | Two strictly descending arrangements of the same entries are equal, so an unstable sort cannot change the outcome. |
| Ranking.SortIgnoresInputOrder | main.go:129-132 | Two orderings of the same entries with distinct weights sort to the same sequence. |
| Ranking.RankedUnique | main.go:129-140 | Two strictly ranked letter lists with the same letters are equal. |
| Ranking.PermutationKeepsUniqueWeights | main.go:130-132 | Reordering entries keeps their weights pairwise distinct. |
| ResolverProperties.ExactMatch | main.go:57-59 | Each letter's own code resolves to exactly that letter. |
| ResolverProperties.WildcardsNeverExact | main.go:57 | A query that is empty or holds a wildcard anywhere is no letter's code: every code is one to four dots and dashes. |
| ResolverProperties.PureWildcard | main.go:61-65 | A query of wildcards only resolves to exactly the letters whose code has the query's length. |
| ResolverProperties.PositionalSoundness | main.go:111-119 | Every returned letter, on any branch, has a code carrying each known query symbol at the same index. |
| ResolverProperties.TooShortRejected | main.go:113 | A letter whose code is too short to reach some known position of the query is never returned. |
| ResolverProperties.LengthMatchesQuery | main.go:121-127 | Unless the query has length 3, every returned letter has a code of the query's length. |
| ResolverProperties.LengthThreeIgnoresLength | main.go:122-124 | A length-3 query with a known symbol that is no code returns every letter whose code holds its known symbols, whatever that code's length. |
| ResolverProperties.EmptyExactlyWhenNothingSelected | main.go:56-68 | The result is empty exactly when the query admits no dictionary entry. |
| ResolverProperties.PossibilitiesIsUnique | main.go:129-140 | Any strictly ranked list of exactly the admitted letters is the result. |
| ResolverProperties.IterationOrderIrrelevant | main.go:88-109 | Visiting the dictionary in any order, with any filter, gives the same ranked letters. |
| QuerySelections.ResolvesToIndices | main.go:56-68 | A query that admits exactly the entries at increasing indices resolves to their letters in index order. |
| QuerySelections.AllWildcardSelects | main.go:61-65 | A wildcard-only query admits exactly the entries whose code has its length. |
| QuerySelections.DotDotWildcardSelects | main.go:121-124 | `..?` admits exactly the codes that start with two dots, whatever their length. |
| ResolverExamples.DotWildcardExample | main.go:143 | `.?` resolves to `["I", "A"]`. |
| ResolverExamples.WildcardDotExample | main.go:144 | `?.` resolves to `["I", "N"]`. |
| ResolverExamples.SingleWildcardExample | main.go:145 | `?` resolves to `["E", "T"]`. |
| ResolverExamples.EmptyQueryExample | main.go:81-83 | The empty query has no known symbol, and no code is empty, so it resolves to nothing. |
| ResolverExamples.FourWildcardsExample | main.go:88-97 | `????` resolves to all twelve four-signal letters, most likely first. |
| ResolverExamples.DotDotWildcardExample | main.go:121-124 | `..?` resolves to `["I", "S", "U", "H", "V", "F"]`. The length is not checked for a length-3 query, so the result includes the two-signal I and the four-signal H, V and F. |

## Left out

- `main` and its printing to standard output: output only. Its three queries are stated as lemmas in `ResolverExamples`.
- Byte and rune counting: Go measures query and code lengths in bytes but indexes known positions by rune. The model counts characters throughout. The two counts agree on every code and on every query over `.`, `-` and `?`, and they differ only for multi-byte characters.
- The unspecified iteration order of Go maps: the dictionary is a sequence in source order. `ResolverProperties.IterationOrderIrrelevant` shows that any other visiting order gives the same result.
- `sort.Slice` internals: replaced by an insertion sort. `Ranking.StrictlyDescendingUnique` shows that, because the weights are distinct, any correct sort gives the same order.
- `nil` versus an empty map in `getKnownSignalsPositions`: the model returns an empty map together with the `false` flag.
- Resolver.HasAllSignalsInPlace: no contract of its own; `Resolver.KnownPositionsAgree` relates it to the query's known symbols.
- Resolver.SatisfyInputLength: no contract of its own; `Resolver.KnownBranch` and `ResolverProperties.LengthMatchesQuery` state the length policy it implements.
