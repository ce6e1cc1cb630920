# Root index and root combinations of standstill

standstill searches an English word list for four "roots" that share many
one-, two- or three-letter prefixes, as material for a word puzzle. Its core,
`index.ts`, does this in two parts:

- **Root index** (`getSplitWords`, `getWordsByRoot`). Every word longer than
  k characters, for k = 1, 2, 3, is cut into a prefix of k characters and the
  root that remains. The cut pairs are grouped by root. Each root gets an
  entry: the root, its prefixes sorted, and how many there are. The index
  keeps the entries with at least 6 prefixes and a root of at least 2
  characters. It ranks them by prefix count, most first. Ties come out in
  the reverse of the order in which their roots were first met.
- **Combination search** (`filterRoots`, `getWordsWithPrefixesInCommon`,
  `applyRootConditions`, `findRootCombinations`). Four nested loops pick
  root1 to root4 from the index. At each stage `applyRootConditions` filters
  the index against the roots already picked. When a stage yields nothing,
  the loop around it stops (`break`). Every picked tuple is pushed onto the
  result.

The modules follow that structure:

- `Collections` holds the array operations the code relies on, as functions
  on sequences: `filter`, `map`, `toReversed`, and lodash's `uniq` and
  `intersection`.
- `StringOrder` holds the default string order of `sort()`.
- `RootIndex` models `getSplitWords` and `getWordsByRoot`.
- `Overlap` models `filterRoots`, `getWordsWithPrefixesInCommon` and
  `applyRootConditions`.
- `Search` models `findRootCombinations`.

Each loop of the source is a method with a `for` loop:
- `RootIndex.GetWordsByRoot` is proved equal to the function `RootIndex.RootIndex`.
- `Search.FindRootCombinations` is proved equal to `Search.Combinations`.
- Each nested loop of `findRootCombinations` is its own method, pushing onto the
  same accumulator.

The properties are lemmas about those functions. Every arrow passed to
`filter` or `map` is a named function, so that the method and its specification
apply the same function.

`applyRootConditions` is modelled as written. The test inside its second
`filter` (index.ts:158-166) never looks at the candidate. It only asks
whether, for every condition, more than `prefixCount` entries share a prefix
with the whole group. The contract of `Overlap.ApplyRootConditions` states the
consequence: the call returns either every entry whose root was not picked
before, or nothing.

Three more points where the code does something other than its comments or
its neighbours suggest. The model follows the code each time:
- The count is compared with `>` (index.ts:164): a condition with
  `prefixCount` 4 needs at least five matching entries. `filterRoots`
  compares with `>=` (index.ts:122), and the comment at index.ts:195 speaks
  of "4+".
- The comment above the fourth stage (index.ts:227-233) lists six
  conditions, one of them on root1 alone. The code passes five
  (index.ts:238-244), with none on root1 alone.
- An empty stage ends the loop around it (`break` at index.ts:206, 225 and
  251); it does not move on to the next candidate. `Search.SearchRoot1Break`,
  `Search.SearchRoot2Break` and `Search.SearchRoot3Break` state this.

## Model

| member | source | states |
|---|---|---|
| Collections.Filter | index.ts:24-26 | `filter` keeps exactly the elements that pass the test, in their original order (a subsequence) |
| Collections.FilterMultiplicity | index.ts:69-70 | `filter` keeps every occurrence of a passing element and none of a failing one |
| Collections.Map | index.ts:27-31 | `map` returns one element per input element, element i being the function applied to input element i |
| Collections.Reverse | index.ts:84 | `toReversed` has the same length and multiset, and element i is element n-1-i of the input |
| Collections.FilterReverse | index.ts:84 | filtering the reversed sequence equals reversing the filtered one |
| Collections.Uniq | index.ts:67 | `uniq` keeps the same set of elements and has no duplicates |
| Collections.UniqFirstOccurrenceOrder | index.ts:67 | `uniq` lists elements in the order of their first occurrences |
| Collections.Intersection | index.ts:113 | `intersection(a, b)` holds exactly the elements in both, without duplicates, in the order of their first occurrence in `a`; its length is the size of the set intersection |
| StringOrder.LexLeqTotal | index.ts:72 | any two strings are comparable in the order `sort()` uses |
| StringOrder.LexLeqAntisymmetric | index.ts:72 | strings that sort no later than each other are equal |
| StringOrder.LexLeqTransitive | index.ts:72 | the order is transitive |
| StringOrder.SortStrings | index.ts:72 | `sort()` returns a sorted permutation of its input |
| RootIndex.LongerThan | index.ts:26 | the words that are cut are exactly the words longer than the prefix length, in input order |
| RootIndex.GetSplitWords | index.ts:22-33 | pair i has a prefix of exactly the prefix length and a non-empty root, and the two join back into the i-th word longer than the prefix |
| RootIndex.GetSplitWordsCount | index.ts:22-33 | the pair (p, r) occurs once per occurrence of the word p+r when p has the prefix length and r is non-empty, and never otherwise |
| RootIndex.AllSplitsCount | index.ts:62-66 | after the loop over prefix lengths 1..3, the pair (p, r) occurs once per occurrence of p+r when 1 <= \|p\| <= 3 and r is non-empty |
| RootIndex.RootPrefixesCount | index.ts:69-71 | the prefixes gathered for a root hold p once per pair (p, root) |
| RootIndex.SortByPrefixCount | index.ts:84 | `sortBy(…, "prefixCount")` returns a permutation sorted ascending by count |
| RootIndex.SortByPrefixCountStable | index.ts:84 | the sort is stable: the entries with any one count keep their input order |
| RootIndex.SortByPrefixCountDistinct | index.ts:84 | sorting keeps roots distinct |
| RootIndex.RankedNonIncreasing | index.ts:84 | sorting ascending and then reversing ranks entries from most prefixes to fewest |
| RootIndex.RankedDistinct | index.ts:84 | sorting and reversing keep roots distinct |
| RootIndex.RetainedDistinct | index.ts:79-83 | the two threshold filters keep roots distinct |
| RootIndex.RootIndex | index.ts:67-85 | every entry of the index counts its own prefixes, has at least 6 and a root of at least 2 characters, and keeps its prefixes sorted; counts never increase along the index; no root appears twice |
| RootIndex.GetWordsByRoot | index.ts:61-86 | the method returns the root index, with the same guarantees on its entries, their ranking and their roots |
| RootIndex.RootIndexOfMember | index.ts:68-84 | every ranked entry is the entry built for its own root and passed both filters |
| RootIndex.RootIndexPrefixMultiplicity | index.ts:61-78 | prefix p occurs in the entry of root r once per occurrence of the word p+r when 1 <= \|p\| <= 3, and never otherwise |
| RootIndex.RootIndexTiesReversed | index.ts:84 | entries with equal counts appear in the reverse of their order before ranking |
| RootIndex.RootIndexOfIncludes | index.ts:67-84 | a root of at least 2 characters with at least 6 prefixes gets its entry in the index |
| RootIndex.RootIndexComplete | index.ts:61-85 | a root has an entry if and only if it has at least 2 characters and at least 6 cut pairs produce it |
| Overlap.RootNamesMember | index.ts:105 | a name is among `roots.map(w => w.root)` if and only if some root entry has it |
| Overlap.Allowed | index.ts:105-109 | the exclusion filter keeps exactly the entries whose root is not among the excluded roots, in order |
| Overlap.FilterRoots | index.ts:96-124 | every entry `filterRoots` returns is an input entry outside the group, annotated with one intersection per group root and its length; each length is the number of distinct shared prefixes and reaches `prefixCount` |
| Overlap.FilterRootsEntries | index.ts:106-123 | the entries `filterRoots` returns are, in order, the input entries it accepts |
| Overlap.AnnotateMeaning | index.ts:111-120 | the annotation holds one intersection per group root and its length, which is the number of distinct shared prefixes; every count reaches the threshold if and only if the candidate shares that many prefixes with each group root |
| Overlap.FilterRootsSpec | index.ts:96-124 | `filterRoots` keeps, in order, exactly the entries outside the group that share at least `prefixCount` distinct prefixes with every group root |
| Overlap.SharesPrefixWithAllMeaning | index.ts:185-187 | a non-empty intersection with every group root means a shared prefix with every group root |
| Overlap.GetWordsWithPrefixesInCommon | index.ts:176-189 | the result holds, in order, exactly the entries outside the group that share at least one prefix with every group root |
| Overlap.ApplyRootConditions | index.ts:131-173 | the result is either every entry whose root is not among the previous roots, or nothing, depending only on whether each condition's group is shared by more than `prefixCount` entries; no previous root is returned |
| Search.Emit | index.ts:253-255 | every pushed tuple is the three roots picked so far and a root from the last stage |
| Search.SearchRoot3Sound | index.ts:234-255 | every tuple found below root1 and root2 has a third root from the list and a fourth root valid for it |
| Search.SearchRoot2Sound | index.ts:211-256 | every tuple found below root1 has its second, third and fourth roots valid at their stages |
| Search.SearchRoot1Sound | index.ts:194-257 | every tuple found has each of its roots valid at its stage |
| Search.Combinations | index.ts:191-258 | every combination is four index entries with pairwise different roots, picked while the conditions of each of the three stages held |
| Search.FindRootCombinations | index.ts:191-261 | the method returns the combinations the nested search finds over the root index; each is four index entries with pairwise different roots |
| Search.ExtendWithFirstRoots | index.ts:194-258 | the loop over first roots collects exactly the combinations of the search |
| Search.ExtendWithSecondRoots | index.ts:211-257 | the loop over second roots appends exactly what the search finds below root1 |
| Search.ExtendWithThirdRoots | index.ts:234-256 | the loop over third roots appends exactly what the search finds below root1 and root2 |
| Search.ExtendWithFourthRoots | index.ts:253-255 | the innermost loop appends one tuple per fourth root, in order |
| Search.Stage2Picks | index.ts:201-205 | a second root is an index entry with a root different from root1, and it is picked only when the stage-2 condition holds |
| Search.Stage3Picks | index.ts:212-219 | a third root differs from root1 and root2 and is picked only when both stage-3 conditions hold |
| Search.Stage4Picks | index.ts:235-245 | a fourth root differs from the three before it and is picked only when all five stage-4 conditions hold |
| Search.EmitComplete | index.ts:253-255 | every root of the last stage produces its tuple |
| Search.SearchRoot3Complete | index.ts:234-256 | when no third root has an empty fourth stage, every valid (root3, root4) pair below root1 and root2 is found |
| Search.SearchRoot2Complete | index.ts:211-257 | when no stage below root1 is empty, every valid chain below root1 is found |
| Search.SearchRoot1Complete | index.ts:194-258 | when no stage is empty, every valid chain of picks is found |
| Search.CombinationsComplete | index.ts:191-258 | when no stage of the search comes up empty, every four-tuple picked validly stage by stage is among the combinations |
| Search.SearchRoot1Break | index.ts:206 | a first root whose second stage is empty ends the search: later first roots are never tried |
| Search.SearchRoot2Break | index.ts:225 | a second root whose third stage is empty ends the loop over second roots |
| Search.SearchRoot3Break | index.ts:251 | a third root whose fourth stage is empty ends the loop over third roots |

`Search.SearchRoot1`, `Search.SearchRoot2` and `Search.SearchRoot3` are the
recursive definitions of the three outer loops (index.ts:194-257). What every
tuple they return satisfies is stated by `Search.SearchRoot1Sound`,
`Search.SearchRoot2Sound` and `Search.SearchRoot3Sound`; what they are sure to
find, by the `Complete` lemmas.

## Left out

- Loading the corpus is not modelled. The word list is a parameter. That covers the `fs`/`word-list` read, the `popular-english-words` import and `TOP_POPULAR_WORDS` (index.ts:5-15).
- All `console.log` output is left out (index.ts:171, 259-260, 273-274). `findRootCombinations` only logs its result; the model returns it instead.
- The top-level driver calls are not modelled (index.ts:272-276).
- `getCombinations` (index.ts:263-270) is not modelled. Nothing calls it and it returns nothing.
- Commented-out code is not modelled (index.ts:35-53, 147-154, 167-169, 196-200, 220-224, 246-250).
- The `ValidCombination` type (index.ts:88-93) is not modelled because nothing uses it.
- Strings are sequences of `char`, one `char` per character, while JavaScript strings are sequences of UTF-16 code units. The two agree on text in the Basic Multilingual Plane. Above it, one character is two code units in JavaScript, and four places then differ: `sort()` (index.ts:72) compares code units; the length filter `w.length > prefixLength` (index.ts:26) counts code units; `substring` (index.ts:28-29) cuts between code units and can split a character in half; and `w.root.length >= MINIMUM_ROOT_LENGTH` (index.ts:83) counts code units. For example, "a😀b" cut at 2 gives ("a\uD83D", "\uDE00b") in JavaScript but ("a😀", "b") in the model.
- RootIndex.GetSplitWords: the prefix length is a `nat`. Only 1, 2 and 3 are ever passed; negative or fractional lengths, which `substring` would coerce, are not modelled.
- JavaScript numbers are modelled as unbounded integers. Counts in a word list never come near 2^53.
