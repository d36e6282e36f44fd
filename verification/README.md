# MoreCollectors as verified Dafny

This project models the reduction combinators of StreamEx's `MoreCollectors`
(`com.landawn.streamex.MoreCollectors`). It covers the collectors themselves,
the combinators that wrap a downstream collector, and the map helpers behind
`toMap` and `groupingBy`.

A collector is an immutable record in module `Collectors` with five parts:
- `create`: a fresh state;
- `fold`: adds one element to a state;
- `merge`: joins the states of two adjacent partitions, left then right;
- `finish`: turns a state into the result;
- `finished`: an optional short-circuit predicate, `None` for a collector that cannot stop early.

It also carries a set of characteristics (`UNORDERED`, `CONCURRENT`,
`IDENTITY_FINISH`). Java exceptions become `Failure` values of a `Result`
(module `Wrappers`).

The protocol is stated once and reused by every collector:
- `FoldAll`/`Collect` are the sequential reduction.
- `MergeSound` says that merging the states of `xs` and `ys` gives the state of `xs + ys`. This is what parallel evaluation relies on.
- `MergeSoundResult` is the weaker form where only the finished results agree.
- `FoldKeepsFinished`, `MergeKeepsFinished` and `FinishedIsFinal` say that a finished state stays finished and final. Under these, `Collectors.CancelFoldAgrees` shows that an engine which stops at the first finished state computes the same result as one that reads everything.

Each collector gets:
- a reference definition of what it computes, such as the first least element, the ties of the greatest element, the longest common prefix, the subsequence kept by a dominance relation, or the map of reduced values per key;
- a lemma that the sequential reduction equals that reference;
- a lemma that its merge is sound (or, where it is not, the weaker property that holds);
- where it can short-circuit, that its finished predicate is monotone and final.

Comparators are functions `(T, T) -> int` constrained by `IsComparator`, which requires reflexivity, antisymmetry of sign and transitivity. Text is a sequence of UTF-16 code units. The surrogate ranges follow section 2.1 of RFC 2781.

Where the code and its documentation disagree, the model follows the code:
- `commonPrefix` pulls the match length back over a surrogate pair only when two inputs disagree at that position. When the length is clamped because a shorter input arrived, a high surrogate can be the last unit of the result. `Affixes.CommonPrefixPairExamples` exhibits both cases, and `Affixes.CommonPrefixCollect` allows for the second (the result is the common prefix or one unit shorter). A plain mismatch right after a high surrogate is not pulled back either, unless a low surrogate takes part in it. This makes the result depend on the order of the inputs, although the collector is declared `UNORDERED`; `Affixes.CommonPrefixOrderDependent` shows such a pair of orders. The suffix collector is symmetric.
- `ifAllMatch` declares a short-circuit predicate that fires as soon as the downstream is finished, even though a later element could still fail the predicate. `AllMatch.IfAllMatchStopsEarly` shows an input where stopping early and reading everything give different results.

## Model

All source paths are `src/main/java/com/landawn/streamex/MoreCollectors.java`.

| member | source | states |
|---|---|---|
| Collectors.CancelFoldAgrees | src/main/java/com/landawn/streamex/MoreCollectors.java:1254-1265 | when finished states stay finished and final, stopping at the first finished state (as `mapping` and the other cancellable wrappers do) gives the result of folding the whole input |
| Collectors.ToListFoldAll | src/main/java/com/landawn/streamex/MoreCollectors.java:828 | the `Collectors.toList()` that the large-`n` branch of `least` sorts returns its input in encounter order |
| Folds.EmptyCollect | src/main/java/com/landawn/streamex/MoreCollectors.java:89-98 | `empty()` is `UNORDERED` and `CONCURRENT`, is finished from its initial state, yields the empty list whatever the input, merges soundly, and its finished state is final |
| SetCollectors.ToEnumSet | src/main/java/com/landawn/streamex/MoreCollectors.java:154-161 | `toEnumSet` is `UNORDERED` with identity finish and is finished exactly when it holds as many constants as the enum has |
| SetCollectors.ToEnumSetCollect | src/main/java/com/landawn/streamex/MoreCollectors.java:154-161 | the result is the set of distinct input values, merges are sound, and for input from the enum it is finished exactly when every constant has been seen |
| SetCollectors.ToEnumSetFinal | src/main/java/com/landawn/streamex/MoreCollectors.java:157-160 | once every constant has been seen, further input leaves the set unchanged |
| Distinct.PutIfAbsent | src/main/java/com/landawn/streamex/MoreCollectors.java:203-207 | `putIfAbsent` adds exactly the new key and keeps the rest |
| Distinct.DistinctByCollect | src/main/java/com/landawn/streamex/MoreCollectors.java:202-211 | `distinctBy` returns, in encounter order, exactly the elements that are first for their key, so no two results share a key |
| Distinct.DistinctByMergeSound | src/main/java/com/landawn/streamex/MoreCollectors.java:204-209 | the `putIfAbsent` loop over the right map merges two partitions into the state of their concatenation |
| Distinct.PutAllAbsentKeys | src/main/java/com/landawn/streamex/MoreCollectors.java:204-209 | after the merge loop the keys are those of either map |
| Combinators.Pairing | src/main/java/com/landawn/streamex/MoreCollectors.java:250-286 | `pairing` keeps the characteristics common to both components minus `IDENTITY_FINISH`, and is cancellable only if both are, finished exactly when both are |
| Combinators.PairingCollect | src/main/java/com/landawn/streamex/MoreCollectors.java:250-286 | each element goes to both components and the result is the finisher applied to the two component results |
| Combinators.PairingMergeSound | src/main/java/com/landawn/streamex/MoreCollectors.java:269-273 | componentwise merge is sound when both components' merges are |
| Combinators.PairingKeepsFinished | src/main/java/com/landawn/streamex/MoreCollectors.java:279-284 | the conjunction of two monotone finished predicates is monotone |
| Extremes.MinMaxCollect | src/main/java/com/landawn/streamex/MoreCollectors.java:311-315 | `minMax` is empty for an empty input, and otherwise the finisher applied to the first least and the first greatest element |
| Extremes.MinMaxMergeSound | src/main/java/com/landawn/streamex/MoreCollectors.java:311-315 | `minMax` may be evaluated in parallel |
| Extremes.MinMaxExample | src/main/java/com/landawn/streamex/MoreCollectors.java:311-315 | the spread of `[4, 2, 9, 1]` is 8 |
| Extremes.MinByFoldAll | src/main/java/com/landawn/streamex/MoreCollectors.java:311-315 | the minimum reduction keeps the first least element |
| Extremes.MaxByFoldAll | src/main/java/com/landawn/streamex/MoreCollectors.java:311-315 | the maximum reduction keeps the first greatest element |
| MaxAll.MaxAllWithCollect | src/main/java/com/landawn/streamex/MoreCollectors.java:334-373 | `maxAll(comparator, downstream)` is the downstream result over the elements tied with the greatest one, in input order |
| MaxAll.MaxAllWithFoldAll | src/main/java/com/landawn/streamex/MoreCollectors.java:340-353 | a strictly greater element restarts the downstream, a tie is folded into it, a lesser element is dropped |
| MaxAll.MaxAllWithMergeSound | src/main/java/com/landawn/streamex/MoreCollectors.java:354-370 | the merge (empty side is identity, strictly greater side wins, ties merge the downstreams) is sound when the downstream's merge is |
| MaxAll.MaxAllBounded | src/main/java/com/landawn/streamex/MoreCollectors.java:398-400 | `maxAll(comparator, atMostSize)` rejects a negative size with `IllegalArgumentException` and nothing else |
| MaxAll.MaxAllBoundedListIsMaxAllWith | src/main/java/com/landawn/streamex/MoreCollectors.java:398-452 | the bounded list accumulation and merge are the downstream variant with a list that drops additions beyond `atMostSize` |
| MaxAll.MaxAllBoundedCollect | src/main/java/com/landawn/streamex/MoreCollectors.java:398-452 | the result is the first `atMostSize` ties of the greatest element, in input order, and merges are sound |
| MaxAll.MaxAllAreGreatest | src/main/java/com/landawn/streamex/MoreCollectors.java:398-421 | every returned element is an input element no smaller than any other, there are at most `atMostSize` of them, and a non-empty input with room for one gives a non-empty list |
| MaxAll.MaxAllListCollect | src/main/java/com/landawn/streamex/MoreCollectors.java:388-390 | `maxAll(comparator)` returns every element tied with the greatest one |
| MaxAll.MaxAllExampleSingle | src/main/java/com/landawn/streamex/MoreCollectors.java:388-390 | the maximum of `[1, 5, 3, 4, 2, 7]` is `[7]` |
| MaxAll.MaxAllExampleTie | src/main/java/com/landawn/streamex/MoreCollectors.java:388-390 | both fives of `[1, 5, 5, 3]` are kept |
| MaxAll.MinAllWithCollect | src/main/java/com/landawn/streamex/MoreCollectors.java:506-508 | `minAll(comparator, downstream)` is the downstream result over the ties of the first least element |
| MaxAll.MinAllListCollect | src/main/java/com/landawn/streamex/MoreCollectors.java:523-525 | `minAll(comparator)` returns every element tied with the least one |
| MaxAll.MinAllBounded | src/main/java/com/landawn/streamex/MoreCollectors.java:533-535 | `minAll(comparator, atMostSize)` rejects exactly a negative size |
| MaxAll.MinAllBoundedCollect | src/main/java/com/landawn/streamex/MoreCollectors.java:533-535 | the result is the first `atMostSize` ties of the least element, and merges are sound |
| Folds.OnlyOneCollect | src/main/java/com/landawn/streamex/MoreCollectors.java:587-592 | `onlyOne()` is `UNORDERED` and finished exactly once a second element has been seen; the result is the element of a one-element input and empty otherwise; merges are sound and the finished state is final |
| Folds.OnlyOneMatchingCollect | src/main/java/com/landawn/streamex/MoreCollectors.java:611-613 | `onlyOne(predicate)` yields the matching element exactly when one element matches |
| Folds.FirstCollect | src/main/java/com/landawn/streamex/MoreCollectors.java:634-642 | `first()` is finished exactly when it holds an element; the result is the first element, or empty for no input; the left partition wins a merge; the finished state is final |
| Folds.HeadCollect | src/main/java/com/landawn/streamex/MoreCollectors.java:680-690 | `head(n)` is `empty()` exactly when `n <= 0`, and otherwise has identity finish and is finished once it holds `n` elements; it returns the first `n` elements, merges are sound, and the finished state is final |
| Folds.TailMergeLoopIsTakeLast | src/main/java/com/landawn/streamex/MoreCollectors.java:717-722 | the merge loop puts as many of the left deque's last elements in front of the right deque as still fit |
| Folds.TailCollect | src/main/java/com/landawn/streamex/MoreCollectors.java:710-723 | `tail(n)` is `empty()` exactly when `n <= 0`, and otherwise never short-circuits; it returns the last `n` elements, and merges are sound |
| Extremes.Greatest | src/main/java/com/landawn/streamex/MoreCollectors.java:753-755 | `greatest` picks the same branch as `least` for the same `n` |
| Extremes.GreatestIsSortedPrefix | src/main/java/com/landawn/streamex/MoreCollectors.java:753-755 | the modelled branches of `greatest` return the first `n` elements of the input stably sorted in descending order |
| Extremes.Least | src/main/java/com/landawn/streamex/MoreCollectors.java:816-839 | `least` is `empty()` exactly when `n <= 0`, and uses the bounded heap exactly for `1 < n < Integer.MAX_VALUE / 2` |
| Extremes.LeastOneCollect | src/main/java/com/landawn/streamex/MoreCollectors.java:819-826 | the `n == 1` branch returns the first least element, and its merge (left wins ties) is sound |
| Extremes.LeastOneIsMinBy | src/main/java/com/landawn/streamex/MoreCollectors.java:819-826 | the `n == 1` box accumulates and merges as the minimum reduction does |
| Extremes.LeastSortedCollect | src/main/java/com/landawn/streamex/MoreCollectors.java:827-833 | the large-`n` branch returns the first `n` elements of the stably sorted input |
| Extremes.LeastIsSortedPrefix | src/main/java/com/landawn/streamex/MoreCollectors.java:816-839 | every modelled branch of `least` returns the first `n` elements of the stably sorted input |
| Extremes.LeastMergeSound | src/main/java/com/landawn/streamex/MoreCollectors.java:816-839 | every modelled branch of `least` merges soundly, and the `n <= 0` branch is finished from the start |
| Extremes.SortSorted | src/main/java/com/landawn/streamex/MoreCollectors.java:827-833 | the reference sort that stands in for `List.sort` yields a sorted list |
| Extremes.SortPermutes | src/main/java/com/landawn/streamex/MoreCollectors.java:827-833 | the reference sort is a permutation of its input |
| Extremes.SortStable | src/main/java/com/landawn/streamex/MoreCollectors.java:827-833 | the reference sort keeps equal elements in input order, as `List.sort` does |
| Extremes.MinIndexFoldAll | src/main/java/com/landawn/streamex/MoreCollectors.java:889-894 | the container counts the input, and holds the first least element and its position, or index -1 for no input |
| Extremes.MinIndexCollect | src/main/java/com/landawn/streamex/MoreCollectors.java:883-904 | `minIndex` is empty exactly for no input, and otherwise the position of the first least element |
| Extremes.MinIndexMergeSound | src/main/java/com/landawn/streamex/MoreCollectors.java:895-902 | the merge, which takes the right container with its index and count offset by the left count when the left is empty or strictly greater, and otherwise keeps the left index and adds the counts, is sound |
| Extremes.MinIndexExample | src/main/java/com/landawn/streamex/MoreCollectors.java:883-904 | for `[5, 1, 1, 3]` the result is 1 wherever the input is split into two partitions |
| Extremes.MaxIndexCollect | src/main/java/com/landawn/streamex/MoreCollectors.java:931-933 | `maxIndex` is empty exactly for no input, otherwise the position of the first greatest element, and merges are sound |
| Grouping.GroupingBy | src/main/java/com/landawn/streamex/MoreCollectors.java:1082-1119 | `groupingBy(domain, ...)` is cancellable exactly when the downstream is, and finished when it holds at least `domain.size()` keys and every container is finished |
| Grouping.GroupingCollect | src/main/java/com/landawn/streamex/MoreCollectors.java:1087-1118 | fails at the first element whose key is null or outside the domain, with that exception; otherwise maps exactly the domain's keys, each to the downstream result of its own elements |
| Grouping.GroupingFoldAll | src/main/java/com/landawn/streamex/MoreCollectors.java:1087-1097 | the state after any input fails at the first element without a domain key, or holds for each key produced the downstream state of its elements |
| Grouping.GroupingMergeSound | src/main/java/com/landawn/streamex/MoreCollectors.java:1082-1119 | with a sound downstream merge, key-wise merging of two partitions gives the state of their concatenation, failures included |
| Grouping.GroupingFinished | src/main/java/com/landawn/streamex/MoreCollectors.java:1100-1110 | on a reached state, "at least `domain.size()` keys" means every domain key is present, so it is finished exactly when every domain key has a finished container |
| Grouping.GroupingKeepsFinished | src/main/java/com/landawn/streamex/MoreCollectors.java:1100-1110 | a finished state stays finished under folding, given a downstream whose finished states do |
| SetCollectors.IntersectingShortCircuit | src/main/java/com/landawn/streamex/MoreCollectors.java:1145-1160 | `intersecting()` is `UNORDERED`, is finished exactly when its intersection is empty, and an empty intersection stays empty |
| SetCollectors.IntersectingCollect | src/main/java/com/landawn/streamex/MoreCollectors.java:1145-1160 | an element is in the result exactly when the input is non-empty and every input collection holds it |
| SetCollectors.IntersectingMergeSound | src/main/java/com/landawn/streamex/MoreCollectors.java:1152-1157 | merging two partitions' intersections gives the intersection of their concatenation |
| Combinators.CollectingAndThen | src/main/java/com/landawn/streamex/MoreCollectors.java:1184-1193 | `collectingAndThen` keeps the downstream's finished predicate, and keeps only `UNORDERED` when cancellable, otherwise drops `IDENTITY_FINISH` |
| Combinators.CollectingAndThenFoldAll | src/main/java/com/landawn/streamex/MoreCollectors.java:1184-1193 | the accumulation is the downstream's, and the result is the function applied to the downstream result |
| Combinators.CollectingAndThenMergeSound | src/main/java/com/landawn/streamex/MoreCollectors.java:1184-1193 | post-processing keeps a sound merge sound |
| Combinators.PartitioningBy | src/main/java/com/landawn/streamex/MoreCollectors.java:1219-1229 | `partitioningBy` is cancellable when the downstream is, and finished when both halves are; the JDK fallback reports identity finish exactly when the downstream does |
| Combinators.PartitioningCollect | src/main/java/com/landawn/streamex/MoreCollectors.java:1219-1229 | the result maps `true` and `false` to the downstream results of the matching and the non-matching elements |
| Combinators.PartitioningMergeSound | src/main/java/com/landawn/streamex/MoreCollectors.java:1219-1229 | halfwise merge is sound when the downstream's is |
| Combinators.Mapping | src/main/java/com/landawn/streamex/MoreCollectors.java:1254-1265 | `mapping` keeps the downstream's characteristics and finished predicate |
| Combinators.MappingFoldFrom | src/main/java/com/landawn/streamex/MoreCollectors.java:1257-1262 | mapping folds the mapped elements and skips them once the downstream is finished |
| Combinators.MappingCollect | src/main/java/com/landawn/streamex/MoreCollectors.java:1254-1265 | under the short-circuit contract, the result is the downstream result of the mapped input |
| Combinators.FlatMapping | src/main/java/com/landawn/streamex/MoreCollectors.java:1320-1348 | `flatMapping` keeps the downstream's characteristics and finished predicate |
| Combinators.FlatMappingFoldFrom | src/main/java/com/landawn/streamex/MoreCollectors.java:1325-1339 | the expansions are folded in order, a null stream is empty, and an expansion is abandoned once the downstream is finished |
| Combinators.FlatMappingCollect | src/main/java/com/landawn/streamex/MoreCollectors.java:1320-1348 | under the short-circuit contract, the result is the downstream result of the concatenated expansions |
| Combinators.Filtering | src/main/java/com/landawn/streamex/MoreCollectors.java:1411-1425 | `filtering` keeps the downstream's characteristics and finished predicate |
| Combinators.FilteringFoldFrom | src/main/java/com/landawn/streamex/MoreCollectors.java:1411-1425 | filtering folds exactly the elements that satisfy the predicate, in order |
| Combinators.FilteringMergeSound | src/main/java/com/landawn/streamex/MoreCollectors.java:1411-1425 | filtering keeps a sound merge sound |
| Bitwise.AndingInt | src/main/java/com/landawn/streamex/MoreCollectors.java:1467-1483 | `andingInt` is `UNORDERED` and finished exactly when a value has been seen and the and is zero |
| Bitwise.AndingIntCollect | src/main/java/com/landawn/streamex/MoreCollectors.java:1467-1483 | the result is empty for no input and otherwise the bitwise and of all mapped values; merges are sound; a zero is final |
| Bitwise.And32IsMeet | src/main/java/com/landawn/streamex/MoreCollectors.java:1467-1483 | the 32-bit and has its bits set in every value, and is the greatest such value |
| Bitwise.AndingLong | src/main/java/com/landawn/streamex/MoreCollectors.java:1501-1517 | `andingLong` is `UNORDERED` and finished exactly when a value has been seen and the and is zero |
| Bitwise.AndingLongCollect | src/main/java/com/landawn/streamex/MoreCollectors.java:1501-1517 | the result is empty for no input and otherwise the bitwise and of all mapped 64-bit values; merges are sound; a zero is final |
| Bitwise.And64IsMeet | src/main/java/com/landawn/streamex/MoreCollectors.java:1501-1517 | the 64-bit and has its bits set in every value, and is the greatest such value |
| Affixes.Lcp | src/main/java/com/landawn/streamex/MoreCollectors.java:1525-1531 | the two sequences agree up to the returned length and then differ, or one ends |
| Affixes.CommonLenIsLongest | src/main/java/com/landawn/streamex/MoreCollectors.java:1525-1531 | every input starts with the first `CommonLen` units of the first input, and at that length some input ends or parts |
| Affixes.PrefixStepNeverGrows | src/main/java/com/landawn/streamex/MoreCollectors.java:1544-1558 | after the first input a step never lengthens the match, and the first input stays the reference text |
| Affixes.ScanIsLcp | src/main/java/com/landawn/streamex/MoreCollectors.java:1550-1558 | the comparison loop stops at the longest common prefix, or one unit earlier when that splits a surrogate pair |
| Affixes.CommonPrefix | src/main/java/com/landawn/streamex/MoreCollectors.java:1542-1569 | `commonPrefix` is `UNORDERED` and finished exactly when the match length is zero |
| Affixes.CommonPrefixCollect | src/main/java/com/landawn/streamex/MoreCollectors.java:1543-1568 | the result is empty for no input, and otherwise a prefix of every input that is the longest common one or one unit shorter, the dropped unit being a high surrogate |
| Affixes.CommonPrefixPairExamples | src/main/java/com/landawn/streamex/MoreCollectors.java:1548-1558 | a pair differing in the low surrogate loses the whole pair, but an input ending after the high surrogate leaves it in the result |
| Affixes.CommonPrefixOrderDependent | src/main/java/com/landawn/streamex/MoreCollectors.java:1548-1558 | the same three inputs give a lone high surrogate in one order and the empty prefix in another |
| Affixes.CommonPrefixMerged | src/main/java/com/landawn/streamex/MoreCollectors.java:1561-1566 | merging two partitions' states by feeding the right prefix to the left keeps the same promise for the concatenated input |
| Affixes.PrefixShortCircuit | src/main/java/com/landawn/streamex/MoreCollectors.java:1567-1568 | a zero match length stays zero under folding and merging, and the result no longer changes |
| Affixes.SuffixScanIsReversed | src/main/java/com/landawn/streamex/MoreCollectors.java:1604-1613 | comparing from the ends is the prefix loop on reversed sequences with the surrogate roles swapped |
| Affixes.SuffixStepNeverGrows | src/main/java/com/landawn/streamex/MoreCollectors.java:1596-1613 | after the first input a suffix step never lengthens the match, and the first input stays the reference text |
| Affixes.CommonSuffix | src/main/java/com/landawn/streamex/MoreCollectors.java:1594-1623 | `commonSuffix` is `UNORDERED` and finished exactly when the match length is zero |
| Affixes.CommonSuffixCollect | src/main/java/com/landawn/streamex/MoreCollectors.java:1594-1623 | the result is empty for no input, and otherwise a suffix of every input that is the longest common one or one unit shorter, the dropped unit being a low surrogate |
| Affixes.CommonSuffixMerged | src/main/java/com/landawn/streamex/MoreCollectors.java:1615-1620 | merged partitions keep the suffix promise for the concatenated input |
| Affixes.SuffixShortCircuit | src/main/java/com/landawn/streamex/MoreCollectors.java:1621-1622 | a zero suffix length is final |
| Dominators.DominatedCount | src/main/java/com/landawn/streamex/MoreCollectors.java:1670-1673 | the merge loop finds the longest run at the head of the right list that the left list's last element dominates |
| Dominators.DominatorsCollect | src/main/java/com/landawn/streamex/MoreCollectors.java:1663-1678 | the result is a subsequence of the input that keeps the first element and keeps a later element exactly when the last kept element does not dominate it |
| Dominators.ContinuesFold | src/main/java/com/landawn/streamex/MoreCollectors.java:1664-1667 | folding more elements into a list adds what those elements give on their own, minus the head the list's last element dominates |
| Dominators.DominatorsMergeSound | src/main/java/com/landawn/streamex/MoreCollectors.java:1667-1677 | for a transitive relation, dropping the dominated head of the right list and appending the rest is sound |
| Dominators.DominatorsExample | src/main/java/com/landawn/streamex/MoreCollectors.java:1663-1678 | with `a >= b`, `[1, 5, 3, 4, 2, 7]` gives `[1, 5, 7]` |
| AllMatch.IfAllMatch | src/main/java/com/landawn/streamex/MoreCollectors.java:1714-1736 | `ifAllMatch` is `UNORDERED` only if the downstream is, and finished once an element failed or the downstream is finished |
| AllMatch.IfAllMatchFoldAll | src/main/java/com/landawn/streamex/MoreCollectors.java:1720-1725 | the flag is set exactly when every element matched, and the downstream has folded exactly the elements before the first miss |
| AllMatch.IfAllMatchCollect | src/main/java/com/landawn/streamex/MoreCollectors.java:1714-1736 | the result is the downstream result when every element matches, and empty otherwise |
| AllMatch.IfAllMatchMergeSound | src/main/java/com/landawn/streamex/MoreCollectors.java:1726-1732 | with a sound downstream merge, merged partitions give the sequential result |
| AllMatch.IfAllMatchStopsEarly | src/main/java/com/landawn/streamex/MoreCollectors.java:1733-1735 | with `head(1)` downstream and `x > 0` on `[1, -1]`, stopping early yields `[1]` where reading everything yields nothing |
| Grouping.ApplyMerge | src/main/java/com/landawn/streamex/MoreCollectors.java:1752-1756 | `throwingMerger()` always fails with the duplicate-key `IllegalStateException`, and a merge function never fails |
| Grouping.MapMergerIsLoop | src/main/java/com/landawn/streamex/MoreCollectors.java:1770-1785 | in any iteration order, `mapMerger` fails exactly when a throwing merger meets a shared key, and otherwise keeps every key with the merged value where both maps have it |
| Grouping.AddToMap | src/main/java/com/landawn/streamex/MoreCollectors.java:1787-1793 | `addToMap` fails exactly when a throwing merger meets a present key, and otherwise adds the key and leaves the other entries unchanged |
| Grouping.ToMap | src/main/java/com/landawn/streamex/MoreCollectors.java:2017-2022 | `toMap` has exactly identity finish and never short-circuits |
| Grouping.ToConcurrentMap | src/main/java/com/landawn/streamex/MoreCollectors.java:2169-2175 | `toConcurrentMap` is `CONCURRENT`, `UNORDERED` and identity finish |
| Grouping.ToMapCollect | src/main/java/com/landawn/streamex/MoreCollectors.java:2017-2022 | a throwing merger fails exactly on a repeated key; otherwise every key maps to its values reduced in encounter order |
| Grouping.ToMapMergeSound | src/main/java/com/landawn/streamex/MoreCollectors.java:1770-1785 | for an associative merge function, or a throwing one, the map merge is sound |
| Combinators.Combine2 | src/main/java/com/landawn/streamex/MoreCollectors.java:2177-2221 | `combine(c1, c2)` keeps exactly the characteristics both components have and never short-circuits |
| Combinators.Combine2FoldAll | src/main/java/com/landawn/streamex/MoreCollectors.java:2177-2221 | each element is fed to both components, and the result is both component results |
| Combinators.Combine2MergeSound | src/main/java/com/landawn/streamex/MoreCollectors.java:2177-2221 | componentwise merge is sound |
| Combinators.Combine3 | src/main/java/com/landawn/streamex/MoreCollectors.java:2223-2274 | `combine(c1, c2, c3)` keeps exactly the characteristics all three have |
| Combinators.Combine3FoldAll | src/main/java/com/landawn/streamex/MoreCollectors.java:2223-2274 | the result is the three component results |
| Combinators.Combine4 | src/main/java/com/landawn/streamex/MoreCollectors.java:2276-2291 | `combine(c1, …, c4)` over collectors of four independent state and result types keeps the characteristics all four share minus `IDENTITY_FINISH`, and never short-circuits |
| Combinators.Combine4FoldAll | src/main/java/com/landawn/streamex/MoreCollectors.java:2276-2291 | each element is fed to all four components: the state is the four component states |
| Combinators.Combine4Collect | src/main/java/com/landawn/streamex/MoreCollectors.java:2276-2291 | the four-way combination always yields the four component results |
| Combinators.Combine4MergeSound | src/main/java/com/landawn/streamex/MoreCollectors.java:2276-2291 | componentwise merge is sound when the four components' merges are |
| Combinators.Combine4IsListRoute | src/main/java/com/landawn/streamex/MoreCollectors.java:2284-2290 | for components of one type, the list combiner followed by `collectingAndThen(…, Tuple4::from)` has the same characteristics and delivers the same tuple |
| Combinators.Combine5 | src/main/java/com/landawn/streamex/MoreCollectors.java:2293-2310 | `combine(c1, …, c5)` over five independent types keeps the shared characteristics minus `IDENTITY_FINISH`, and never short-circuits |
| Combinators.Combine5FoldAll | src/main/java/com/landawn/streamex/MoreCollectors.java:2293-2310 | the state is the five component states |
| Combinators.Combine5Collect | src/main/java/com/landawn/streamex/MoreCollectors.java:2293-2310 | the five-way combination always yields the five component results |
| Combinators.Combine5MergeSound | src/main/java/com/landawn/streamex/MoreCollectors.java:2293-2310 | componentwise merge is sound when the five components' merges are |
| Combinators.Combine5IsListRoute | src/main/java/com/landawn/streamex/MoreCollectors.java:2301-2309 | for components of one type, the list route through `Tuple5::from` has the same characteristics and delivers the same tuple |
| Combinators.CombineList | src/main/java/com/landawn/streamex/MoreCollectors.java:2319-2322 | `combine(collection)` rejects exactly an empty collection, with `IllegalArgumentException` |
| Combinators.ListCombine | src/main/java/com/landawn/streamex/MoreCollectors.java:2319-2383 | the list combiner keeps exactly the characteristics every component has and never short-circuits |
| Combinators.ListCombineCollect | src/main/java/com/landawn/streamex/MoreCollectors.java:2319-2383 | result `i` is the result of collector `i` |
| Combinators.ListCombineMergeSound | src/main/java/com/landawn/streamex/MoreCollectors.java:2319-2383 | slotwise merge is sound when every component's merge is |
| Combinators.Intersection | src/main/java/com/landawn/streamex/MoreCollectors.java:2385-2393 | the helper returns exactly the common elements |

## Left out

- `least(comparator, n)` for `1 < n < Integer.MAX_VALUE / 2` delegates to `Limiter`, which is not part of this model. `Extremes.Least` names that branch `BoundedHeap` and proves nothing about it.
- Extremes.MinIndexCollect: the index is an unbounded integer. The source's `long` index and count would overflow only past 2^63 elements.
- MaxAll.MaxAllBounded: fails when the collector is built. In Java the collector is built for any size, and the `IllegalArgumentException` comes from the supplier's `new ArrayList<>(Math.min(16, atMostSize))`, so only when a reduction starts. `MaxAll.MinAllBounded` inherits the same difference.
- States that Java mutates in place are values here: `tail`'s merge moving elements into the right deque, the overwriting of list slots by `combine(collection)`'s merge and finisher, and `groupingBy`'s finisher filling absent keys with `computeIfAbsent`. The results agree because each finisher runs once per reduction and no state is shared between partitions.
- Extremes.LeastMergeSound: says nothing about the `Limiter` branch, for the reason above.
- Folds.TailCollect: states merge soundness only for `n > 0`. For `n <= 0` the collector is `empty()`, covered by `Folds.EmptyCollect`.
- AllMatch.IfAllMatchMergeSound: states only that merged partitions give the sequential result, not the sequential state. A failed left partition keeps its own downstream state, so the states themselves can differ.
- `ifAllMatch`'s short-circuit predicate is not final. `AllMatch.IfAllMatchStopsEarly` shows this, so no `FinishedIsFinal` lemma is stated for it.
- Grouping.GroupingMergeSound: the merge of `groupingBy(domain, ...)` comes from `PartialCollector.grouping`, which is not part of this model. It is modelled as a key-wise downstream merge, and the characteristics as empty.
- A failed `groupingBy` or `toMap` state counts as finished, and the failure passes through later folds and merges. In Java the exception ends the reduction at once.
- Exception messages are simplified. The duplicate key is not formatted into its message, the out-of-domain message omits the key, and the `requireNonNull` message is empty.
- Map iteration order is not modelled, as Dafny `map` and `set` have none. `Grouping.MapMergerIsLoop` shows that `mapMerger`'s result does not depend on it.
- `intersecting()` takes each input collection as the set of its elements. Its duplicates and order do not affect the result.
- `toEnumSet` takes the enum's constants as a set, in place of the enum class and `EnumSet` internals.
- `PrimitiveBox`, `OptionalInt` and `OptionalLong` are modelled as a small record and `Option`. `int` and `long` values are modelled as `bv32` and `bv64`, where `&` needs no wrap-around.
- `CH_ID` and `CH_CONCURRENT_ID` are modelled as sets of characteristics. `UNORDERED_CHARACTERISTICS`, `ID_CHARACTERISTICS`, `NO_CHARACTERISTICS` and the like are defined in a file that is not part of this model, and are modelled by what their names say.
- Null elements are not modelled, except a null key in `groupingBy` (an `Option` classifier) and a null stream in `flatMapping` (an `Option` expansion).
- `flatMapping` closes each expansion stream and uses an exception to stop early. Only the effect is modelled: the expansion is abandoned once the downstream is finished.
- Concurrency: `CONCURRENT` is only a flag. `toConcurrentMap` differs from `toMap` only in its characteristics.
- `toArray`, `distinctCount`, `last`, `mapping(mapper)`, the domain-less `groupingBy` and `groupingByConcurrent` hand over to the JDK's `Collectors`. They are thin pass-throughs and are not modelled. `ToList` stands in for `Collectors.toList()`. The non-cancellable fallbacks of `collectingAndThen`, `mapping` and `partitioningBy` also hand over to the JDK, and those are modelled: `Combinators.CollectingAndThen`, `Combinators.Mapping` and `Combinators.PartitioningBy` give the JDK collectors' accumulation and characteristics when the downstream has no finished predicate.
- Combinators.PartitioningBy: for a cancellable downstream, the characteristics are empty. That branch builds its collector through `BooleanMap.partialCollector(...).asCancellable`, which is not part of this model.
- `toBooleanArray`, `countingInt`, `groupingByEnum` and the cancellable branch of `partitioningBy` keep their state in `PartialCollector` or `BooleanMap`, which are not part of this model. `partitioningBy` is modelled by its two downstream states.
- Comparators are pure functions, and their laws are hypotheses (`IsComparator`). A comparator that breaks them is outside the model.
