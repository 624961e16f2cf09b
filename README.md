# mergic, modelled in Dafny

mergic builds and edits *partitions*. A partition is a JSON dict that maps a
group key to the list of items in that group. It is valid when no item is
listed twice, neither inside one group nor across two groups. This project
models two parts of mergic.

**The partition algebra:**
- `_check`, the validation that counts the items;
- the boundary closure shared by `diff` and `apply_diff`. Its script copies
  are partition_diff.py and apply_diff.py, and the checkers unom.py and
  verify_partition.py repeat the validation.

**Threshold clustering:**
- `_link_items`, the union step;
- `Blender.make`. It buckets every pair of lines by distance and steps
  through the sorted distances, printing a table of the groups. Given a
  cutoff, it replays the buckets up to that cutoff and writes the groups out,
  largest first, under the key its key method gives them.
- The draft script groups.py runs only the bucketing and the cutoff loop,
  recording a size histogram per cutoff. The draft script partition_make.py
  does the whole clustering with a size histogram, a fixed cutoff of 2 and a
  first-longest key.

Python dicts iterate in an order the program does not choose. Every
operation therefore takes that order as a parameter, a sequence listing each
key once (`IsOrder`). The contracts say which results depend on it:
- the validation's verdict does not;
- for valid partitions the closure's result does not;
- the table and the clustered output are stated for the order given.

Modules:
- `Partitions` (partitions.dfy): items, keys, partitions and validity; `Check` (`_check`) and `Summary` (the report of verify_partition.py and `check`).
- `Closure` (closure.dfy): the sweep and the closure loop of `diff` and `apply_diff`, proved against the specification functions `Changed`, `Moved`, `Pulled`, `Closes` and `Remaining`.
- `Patching` (patching.dfy): `Diff`, `Apply`, their script forms, and the diff/apply round trip.
- `DiffExamples` (examples_diff.dfy): the cases of mergic/test.py, stated on the specification functions.
- `Linking` (linking.dfy): `_link_items` as the class `Belongings`, whose `groupOf` map is updated in place, and the specification `LinkOne`/`LinkAll`.
- `Buckets` (buckets.dfy): pairs, `links_at` and the sorted cutoffs.
- `KeyMethods` (keys.dfy): the key methods.
- `Blending` (blending.dfy): the cutoff loop, `unique_sets`, the table rows, the histogram and the replay.
- `Ordering` (ordering.dfy): the final sort and the `OrderedDict`.
- `Clustering` (clustering.dfy): `Blender.make` as a whole.

Python's `is` between two group tuples is modelled as value equality. The
model keeps the invariant `GroupMap`: every item's group contains the item,
and every member of a group maps to that same group. Under it, two equal
groups are the same group, because they share a member. That is what `is`
decides for the dicts the clustering builds.

Linking joins linked items and nothing else. From singletons, two items
share a group exactly when a chain of the applied links leads from one to
the other (`Linking.GroupedIffConnected`). For the replay, two lines share a
group exactly when a chain of pairs, each at most the cutoff apart, joins
them (`Clustering.ReplayedIffConnected`).

The code, not its tests, decides behaviour where the two disagree:
- **List order.** The unchanged-entry test in `diff` compares lists, so the
  same group listed in another order is reported as a change.
  `DiffExamples.ListOrderExample` states this. It contradicts
  mergic/test.py:44-45, which calls an in-memory API that mergic.py does
  not have.
- **Dropped source groups.** A source group is not reported when the target
  drops its key and no change takes its items. `DiffExamples.DroppedGroupExample`
  states this. The round trip therefore needs both partitions to hold the
  same items.
- **Key reuse in `apply_diff`.** `apply_diff` ends with `update`. A patch key
  that equals the key of a group which survives the sweep therefore
  overwrites that group, and that group's items are lost. Validity of the
  two dicts does not prevent this: `DiffExamples.KeyReuseExample` gives a
  valid partition and a valid patch that close and still lose an item. The
  round trip (`Patching.RoundTrip`) excludes it by its own precondition:
  both partitions are valid and hold the same items.

## Model

| member | source | states |
|---|---|---|
| Partitions.Check | mergic/mergic.py:14-30 | succeeds exactly when no group repeats an item and no two groups share one; the count returned is the number of distinct items and equals the sum of the group lengths; a `RepeatedInGroup` error names a group with a repeat, a `SharedWithEarlier` error names a group that shares an item with another group |
| Partitions.NoDupIffCard | mergic/mergic.py:25 | `len(values) == len(set(values))` holds exactly when the list has no repeated item |
| Partitions.ValidOverOrder | unom.py:16-23 | validating the groups one by one in dict order accepts exactly the valid partitions, whatever the order |
| Partitions.UnionOfOrder | verify_partition.py:13-20 | the running set `total` ends as the set of all items listed in the partition |
| Partitions.CheckStep | unom.py:17-23 | a group that passes both assertions keeps the groups seen so far valid, adds exactly its items to the running set, and keeps that set's size equal to the sum of the lengths seen |
| Partitions.Summary | verify_partition.py:13-23 | on a valid partition, reports the number of distinct items (the sum of group lengths) and the number of groups; fails exactly on an invalid one |
| Closure.Sweep | mergic/mergic.py:66-71 | the working copy loses exactly the groups that meet the items still to find, and `mixed_from` gains exactly their items |
| Closure.Explore | partition_diff.py:19-33 | processing the target entries in order either stops with the unexplained items, which for valid partitions are changed items that no source group holds, or reaches the end with frontiers that are exactly the specification's |
| Closure.CloseOver | mergic/mergic.py:57-77 | for any input, a success reports only target entries and keeps only source groups, every unreported target entry equals the source entry, and the dropped groups hold exactly the reported items; for valid partitions it succeeds exactly when the frontiers close, then returns the changed entries and the remaining groups, and each error carries the not-found or the not-assigned items |
| Closure.ExactFinish | mergic/mergic.py:75-77 | at the end of the loop `changes`, `mixed_to`, `mixed_from` and the working copy are the specification's, and `mixed_from != mixed_to` holds exactly when the frontiers do not close |
| Patching.Diff | mergic/mergic.py:51-77 | succeeds exactly when both partitions are valid and the frontiers close; the patch is the set of target entries that differ from the source entry under the same key; each error is a failed validation, changed items no source group holds, or pulled items no change reassigns |
| Patching.PartitionDiff | partition_diff.py:16-36 | with no validation: a patch holds only target entries, every omitted target entry equals the source's, errors carry a non-empty item set, and on valid partitions the result is that of `Diff` |
| Patching.Apply | mergic/mergic.py:86-113 | validates the partition; on success every patch entry is in the result, every other result entry is the original one, and every original group that is gone had all its items reassigned by the patch; for a valid patch the result is the untouched groups plus the patch |
| Patching.ApplyDiff | apply_diff.py:14-36 | the same as `Apply` without the validation: patch entries are written, other entries are the original ones, and removed groups are reassigned |
| Patching.RoundTrip | mergic/mergic.py:51-113 | for valid partitions over the same items (with no empty group under a key the target drops) the frontiers close, the patch is valid and re-diffs to itself, and applying it to the source gives the target |
| Patching.DiffThenApply | mergic/mergic.py:51-113 | running `diff` and then `apply_diff` on such partitions returns the target, for any dict orders |
| Patching.DiffSelf | mergic/mergic.py:60-62 | a partition diffed against itself gives the empty patch |
| Patching.ApplyValid | mergic/mergic.py:113 | applying a closing patch to a valid partition gives a valid partition and adds no new item |
| Patching.ChangedOfChanged | mergic/mergic.py:60-65 | the patch diffed against the source again is the same patch, with the same moved items |
| Patching.UnchangedAvoidMoved | mergic/mergic.py:60-62 | in a valid target, an entry that is restated unchanged shares no item with the reported changes |
| Patching.SameItemsClose | mergic/mergic.py:72-77 | valid partitions over the same items never raise either closure error |
| DiffExamples.RenameExample | mergic/test.py:55-56 | a renamed group is reported under its new key and applying the patch gives the target |
| DiffExamples.SplitExample | mergic/test.py:58-61 | a split reports both parts and not the untouched group |
| DiffExamples.NotFoundExample | mergic/test.py:47-49 | an item the source lacks makes the closure fail with that item |
| DiffExamples.NotAssignedExample | mergic/test.py:51-53 | an item the target drops makes the closure fail with that item |
| DiffExamples.ListOrderExample | mergic/mergic.py:61 | the same group in another list order is reported as a change |
| DiffExamples.DroppedGroupExample | mergic/mergic.py:60-77 | a source group whose key the target drops and whose items nothing takes goes unreported |
| DiffExamples.KeyReuseExample | mergic/mergic.py:93-113 | a valid patch that reuses the key of a kept source group closes, yet `update` overwrites that group and one of its items is lost |
| Linking.Belongings.LinkItems | mergic/mergic.py:33-40 | the new `groupOf` is the specification `LinkAll` of the old one over the links, and keeps the group-map invariant and the item set |
| Linking.Belongings.RepointAll | mergic/mergic.py:39-40 | every member of the union now maps to the union, and every other entry is unchanged |
| Linking.LinkEffect | mergic/mergic.py:34-40 | after a link both items share a group whose members are exactly those of the two old groups; a link inside one group changes nothing; items outside both groups keep their group; items that shared a group still do |
| Linking.LinkValid | partition_make.py:13-20 | a link keeps the group-map invariant and the set of items |
| Linking.LinkGroupCount | groups.py:33-39 | a link removes exactly one group when the two items were apart, and none otherwise |
| Linking.GroupsAfterJoin | mergic/mergic.py:38-40 | joining replaces the two old groups by their concatenation and leaves every other group |
| Linking.LinkGrows | mergic/mergic.py:38-40 | no item's group loses a member or gets shorter |
| Linking.LinkAllValid | mergic/mergic.py:33-40 | a list of links keeps the invariant and the item set |
| Linking.LinkAllLinked | mergic/mergic.py:33-40 | after the links, the two ends of every link are in one group |
| Linking.LinkAllMonotone | mergic/mergic.py:33-40 | items that shared a group still do, and groups only grow |
| Linking.LinkAllCount | mergic/mergic.py:33-40 | the number of groups never rises |
| Linking.LinkAllConcat | mergic/mergic.py:161-165 | linking two lists of links one after the other is linking their concatenation |
| Linking.GroupedIffConnected | mergic/mergic.py:33-40 | starting from singletons, two items end in one group exactly when a chain of the applied links, each taken either way, leads from one to the other |
| Linking.LinkExplained | mergic/mergic.py:33-40 | one link along an edge keeps every member of every group chained to it by the edges |
| Linking.LinkAllExplained | mergic/mergic.py:33-40 | after linking from singletons, every member of an item's group is chained to it by the links applied |
| Linking.WalkSameGroup | mergic/mergic.py:33-40 | a chain along links whose ends already share a group stays inside one group |
| Linking.WalkToIsolated | mergic/mergic.py:33-40 | no chain of links reaches an item that no link touches, except from that item |
| Buckets.PairsMember | mergic/mergic.py:151 | `combinations(sets, 2)` yields exactly the pairs `(s[i], s[j])` with `i < j` |
| Buckets.PairsNoDup | mergic/mergic.py:151 | each pair is yielded once, and its ends are two different lines |
| Buckets.AtDistanceMember | mergic/mergic.py:152 | the links filed at a distance are exactly the pairs at that distance |
| Buckets.BucketContents | groups.py:22-24 | every pair's distance is a key of `links_at`, and every bucket is the non-empty list of the pairs at its distance, in the order filed |
| Buckets.BucketedOnce | mergic/mergic.py:150-152 | every pair of lines is in exactly one bucket, the one of its distance, and is filed there once |
| Buckets.BucketPairs | mergic/mergic.py:150-152 | the `setdefault`/`append` loop builds the specification `Bucket` |
| Buckets.SortedSet | groups.py:26 | `sorted(links_at)` is strictly ascending and lists exactly the distances |
| Buckets.IncreasingUnique | mergic/mergic.py:154 | only one strictly ascending list has a given set of members |
| Buckets.SortedKeys | mergic/mergic.py:154 | the selection loop returns the sorted distances |
| Buckets.UpTo | mergic/mergic.py:183 | the chosen cutoffs are exactly those not above the requested one |
| Buckets.FlattenMember | mergic/mergic.py:161-165 | every link of a processed bucket is among the links applied |
| KeyMethods.LongestOfSpec | mergic/mergic.py:140 | the `'longest'` key is a member, no member is longer, and it comes first in string order among the longest members |
| KeyMethods.LongestOfUnique | mergic/mergic.py:140 | exactly one member fits that description, so the key does not depend on the order of the group |
| KeyMethods.FirstLongestOfSpec | partition_make.py:63 | `max(item, key=len)` is a member of greatest length, and every member before it is shorter |
| KeyMethods.JoinSplit | mergic/mergic.py:142 | when no line contains a bar, splitting the `'append'` key at bars gives the group back |
| KeyMethods.KeyIsMember | mergic/mergic.py:139-142 | the length-based key methods name a group by one of its own members |
| KeyMethods.LexTotal | mergic/mergic.py:140 | string order ranks any two different strings |
| Blending.DedupSpec | mergic/mergic.py:166-169 | `unique_sets` has no repeats and lists exactly the groups of `sets.values()` |
| Blending.UniqueGroups | mergic/mergic.py:166-169 | the collection loop builds the specification `Dedup` of the dict's values |
| Blending.UniqueCount | mergic/mergic.py:172 | the number of distinct groups is the number of groups of the dict |
| Blending.UniquePartition | mergic/mergic.py:185-188 | the distinct groups are non-empty, repeat no line, share no line, and together hold every line |
| Blending.SizesAddUp | mergic/mergic.py:170-172 | the sizes of the distinct groups add up to the number of lines |
| Blending.HistogramAddsUp | groups.py:40-44 | summed over the histogram `Counter(len(x) for x in unique_sets)`, size times count is the number of lines |
| Blending.HistogramSizes | partition_make.py:47 | the histogram total over every size present is the sum of the group sizes |
| Blending.MaxLenBound | mergic/mergic.py:173 | `max(c.keys())` is at least every group's size and is the size of one of them |
| Blending.SingletonsRow | partition_make.py:36 | the header row describes the singletons: one group per line, the largest of size one, no pair inside a group, at `cutoffs[0] - 1` |
| Blending.GroupsShrink | mergic/mergic.py:165-172 | linking a cutoff's bucket never adds a group |
| Blending.LargestGrows | mergic/mergic.py:165-173 | linking a cutoff's bucket never shrinks the largest group |
| Blending.GrownStep | mergic/mergic.py:161-165 | the groups after `k + 1` cutoffs are those after `k` cutoffs linked by bucket `k` |
| Blending.GrowAll | mergic/mergic.py:161-175 | the cutoff loop, on a `Belongings` object, yields per cutoff the row of the groups grown so far (the cutoff rows), and ends with the groups grown over every cutoff |
| Blending.CutoffRowAt | mergic/mergic.py:166-175 | cutoff row `k` describes the groups once cutoffs `0..k` were linked, at cutoff `k` |
| Blending.TableRowAt | mergic/mergic.py:158-175 | row `k` of the table describes the groups after the first `k` cutoffs: the header row the singletons, each later row its cutoff's groups |
| Blending.TableHead | mergic/mergic.py:158-160 | the header row is the row of the singletons, before any cutoff |
| Blending.TableStep | mergic/mergic.py:161-175 | from one row to the next the cutoff rises, the group count does not, and the largest group does not shrink |
| Blending.RowStep | mergic/mergic.py:165-175 | linking one more bucket gives a row with no more groups and no smaller largest group |
| Blending.UsableUpTo | mergic/mergic.py:182-184 | the cutoffs up to the chosen one still name buckets of links between the lines |
| Blending.Replay | mergic/mergic.py:182-184 | the replay from fresh singletons gives the groups grown over the chosen cutoffs |
| Ordering.Index | mergic/mergic.py:189 | `ordered_items.index(x)` is the first position holding `x` |
| Ordering.SortSpec | mergic/mergic.py:189 | the sort keeps every group (a permutation) and leaves no group before one with a smaller `(0 - len, index of first item)` key |
| Ordering.InsertSorted | partition_make.py:60 | the insertion step keeps a sorted list sorted |
| Ordering.StrictlySorted | mergic/mergic.py:189 | groups with different first items never tie, so each sorted group strictly precedes the next |
| Ordering.AssignSpec | mergic/mergic.py:192 | `result[k] = v` on an `OrderedDict` maps `k` to `v`, keeps every other entry, and keeps keys distinct |
| Ordering.AssignFresh | mergic/mergic.py:192 | a new key is appended at the end |
| Ordering.KeyedDistinct | mergic/mergic.py:190-192 | when no two groups get the same key, the result is one entry per group, in sorted order |
| Ordering.BuildResult | partition_make.py:61-63 | the loop fills the `OrderedDict` as the specification `Keyed` |
| Clustering.Cutoffs | mergic/mergic.py:154 | the cutoffs ascend strictly, are exactly the distances of `links_at`, and each names a bucket of links between the lines |
| Clustering.BucketsUsable | mergic/mergic.py:150-152 | every bucket links two of the input lines |
| Clustering.CutoffsExist | mergic/mergic.py:154-160 | there is a cutoff exactly when there are at least two lines |
| Clustering.PairJoined | mergic/mergic.py:161-165 | a pair whose distance is among the linked cutoffs ends up in one group |
| Clustering.AllJoined | mergic/mergic.py:161-165 | after the cutoff loop every line is in the group of the first |
| Clustering.OrderedItemsAll | partition_make.py:49 | `ordered_items` lists every line once |
| Clustering.UniqueRanked | mergic/mergic.py:189 | every replayed group has a first item that `ordered_items.index` finds |
| Clustering.ReplayJoins | partition_make.py:54-55 | after the replay up to the cutoff, two lines at most that far apart are in one group |
| Clustering.ReplayLinks | mergic/mergic.py:182-184 | the links the replay applies are exactly the pairs of `combinations` at most `cutoff` apart |
| Clustering.ReplayedIffConnected | mergic/mergic.py:182-184 | two lines share a replayed group exactly when a chain of pairs, each at most `cutoff` apart, leads from one to the other |
| Clustering.ReplayedApart | mergic/mergic.py:182-184 | a line that no pair at most `cutoff` apart touches stays out of every other line's group |
| Clustering.FinalGroupsConnected | mergic/mergic.py:182-192 | two lines written in one group are chained by pairs at most `cutoff` apart |
| Clustering.CatsAndDogPairs | mergic/mergic.py:150-152 | `combinations` of "cat", "cats", "dog" gives the three pairs in order |
| Clustering.CatsAndDogAtOne | mergic/mergic.py:179-192 | with edit distances 1, 3 and 4, at cutoff 1 "cat" and "cats" share a group and "dog" stays apart |
| Clustering.DogFarAtOne | mergic/mergic.py:150-152 | with those distances, no pair at most 1 apart involves "dog" |
| Clustering.CatsAndDogAtZero | mergic/mergic.py:179-192 | with the same distances, at cutoff 0 all three lines are apart |
| Clustering.PermutedPartition | mergic/mergic.py:189 | sorting distinct, non-empty, disjoint groups keeps them so and covers the same lines |
| Clustering.FinalGroupsPartition | mergic/mergic.py:182-189 | the written groups have no repeats, are non-empty, share no line, and together hold every line |
| Clustering.FinalGroupsJoin | mergic/mergic.py:183-192 | two lines at most `cutoff` apart are written in the same group |
| Clustering.FinalGroupsOrdered | mergic/mergic.py:189 | the groups are written largest first, and equally large groups by where their first line sits in `ordered_items` |
| Clustering.ClusteredEntries | mergic/mergic.py:190-192 | with the length-based keys, or `'append'` over lines without a bar, each written group is one entry under its own key, in sorted order |
| Clustering.TableLast | mergic/mergic.py:161-175 | the last row has one group |
| Clustering.SingleGroup | mergic/mergic.py:166-172 | when every line shares the first line's group, there is one distinct group |
| Clustering.TableShape | mergic/mergic.py:155-175 | the table has a header row of singletons and one row per cutoff; cutoffs rise, group counts never rise, the largest group never shrinks, and it ends at one group |
| Clustering.FinalOneGroup | mergic/mergic.py:161-179 | for at least one line, the groups after every cutoff collapse to a single distinct group |
| Clustering.KeysDiffer | mergic/mergic.py:190-192 | distinct, non-empty, disjoint groups get distinct keys from the length-based key methods, and from `'append'` over lines without a bar |
| Clustering.Cluster | mergic/mergic.py:179-192 | with a cutoff: take `ordered_items` from the final groups, replay up to the cutoff, collect the distinct groups, sort them and key them; the result is the clustered dict |
| Clustering.Make | mergic/mergic.py:146-192 | with no cutoff, the table for two or more lines and the `cutoffs[0]` failure otherwise; with a cutoff, the keyed, sorted replayed groups for at least one line and the `sets.values()[0]` failure for none |

## Left out

- Reading and writing are left out: argparse, the JSON reading and printing, the CSV writer, the printed report lines and the formatting of the stats table. The table is modelled as a list of `Row` values.
- `table` and set_to_table.py are left out: they only write (value, key) rows.
- uno.py, both tennis_blender.py scripts and setup.py are left out. The first two wrap terminal input and foreign libraries; the last is packaging.
- The API of mergic/test.py is not in mergic.py (`equal`, in-memory `check`/`diff`/`table`, `ValueError` for the validation). Only the tests that agree with the code appear, as `DiffExamples`.
- The concrete distances are not modelled: `SequenceMatcher`'s floating-point ratio and `Levenshtein.distance` are foreign. A `Blender` carries any integer-valued function of two lines; it need not be symmetric, and the clustering only uses it on pairs in `combinations` order.
- `Blender.__init__`'s string dispatch is represented by choosing a `KeyMethod` constructor. The `'stock'` default distance is not represented.
- Dict iteration order is a parameter. The rebuilt `sets` of the replay is assumed to iterate in the same order as the first one.
- Input lines are taken as distinct (`NoDup(order)`): duplicate lines collapse into one dict key before anything else happens, so the model starts from the dict's keys. The `strip` of each line is not modelled.
- Python 2 string comparison is modelled as code-point order on `seq<char>`; byte strings and Unicode normalisation are not modelled.
- AssertionError and ValueError are not distinguished beyond the error constructors.
- Clustering.ClusteredEntries: the one-entry-per-group result is proved only for key methods that cannot collide. A caller-supplied key method may give two groups the same key, and then the later group overwrites the earlier entry, as `Ordering.AssignSpec` states.
- Linking.Belongings.LinkItems: requires the group-map invariant, under which `is` and `==` agree; arbitrary aliasing of tuples in a caller's dict is not modelled.
