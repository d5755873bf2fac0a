# Git's core algorithms, modelled and proved in Dafny

This project models the algorithms of ten parts of Git's C library and proves what they
promise, for all inputs. Worklists, flag bits, caches, cut-offs and in-place surgery are kept
as the code has them; the specifications are plain: a set of reachable commits, a sequence of
lines, a hash of a slice of the index, an ordered set of keys.

* **Commit reachability** (`CommitGraph`, `Marks`, `Painting`, `Redundancy`, `MergeBasesQuery`,
  `Queries`, `ContainsCache`, `CanAllReach`, `AheadBehind`, `BranchBase`). Everything is stated
  against `Reach`, the existence of a path of parent links. Painting is proved for every finite
  acyclic graph and every order in which the queue may hand out commits, so for any dates and
  any clock skew: the early exit on stale commits loses no merge base. Both redundancy filters
  return exactly the inputs no other input reaches. The queries agree with `Reach`, and so with
  each other.
* **Bisection** (`Bisect`, `FindBisection`). The cheap rule for single strands refines the exact counts;
  the commit chosen, or the ranking of all, is right by them.
* **Fuzzy blame matching** (`FuzzyMatch`, `FuzzyMemo`, `FuzzyMeaning`). `Naive` recomputes everything;
  the matcher, which remembers similarities and certainties and discards only a window of them, is
  shown to give the same result, because the window rests on an exact integer-division bound. What
  the result means is stated of the lines and their byte pairs alone.
* **Passing blame** (`BlameLines`, `BlameOrder`, `BlamePass`). Every suspected line is followed to
  its destination; none is lost or doubled, and the condition for the lists to stay in order is exact.
* **Cache-tree** (`Bytes`, `CacheTree`, `IndexGroups`, `CacheTreeUpdate`, `CacheTreeFile`). The
  incremental update equals a build from scratch; the file format reads back.
* **Combined diff** (`CombineLines`, `CombineDiff`). From the coalesced state every parent can be
  rebuilt, up to the number of parents the bit masks allow, and coalescing is as short as it can be.
* **Patch application** (`ApplyImage`, `ApplyReverse`, `ApplyPatch`). The nearest match is found,
  and a patch that applied where it said is undone by its reverse.
* **Crit-bit tree** (`CritBit`, `CritBitTree`, `CbTreeInPlace`). The tree in place, one node being a
  leaf and an inner node at once, refines an ordered set of byte strings.
* **Binary patches** (`Base85`, `BinaryBody`). Data of any length survives its armour, and what is
  accepted is told apart from what is written.
* **Hunk splitting** (`HunkSplit`).

`Options` holds the `Option` type the others share.

`dafny verify dfyconfig.toml` checks the whole project.

## Results worth knowing

* `remove_redundant_no_gen` is exact under any clock skew because PARENT2 on `one` is exact at the
  end of the painting (`Painting.OnePainted`).
* `coalesce_lines` marks a matching line with `1<<parent`, an `int`, where parent maps are
  `unsigned long`. `CombineLines.MaskRight`: the mask is the parent's own bit only up to parent 30,
  and harms no earlier parent only up to parent 31. Hence `CombineDiff.CombineAll` rebuilds every
  parent if there are at most 32 of them, and `CombineDiff.TooManyParents` gives for every count
  from 33 to 64 a merge, different from all its parents, where it does not.
* `do_find_bisection` counts merges that do not change the tree, while `nr` does not, so its last
  loop may end with weights still unknown. With parents first in the list, `Bisect.DoFindBisection`
  knows every weight it needs exactly if no tree-changing commit has a single interesting parent, or
  the tree-changing roots and the merges are together fewer than `nr`. `Bisect.BisectTwins` is an
  input where the commit in the middle is missed.
* A commit that passes for half-way is as good as any, or falls short by less than `nr / 2048`
  (`Bisect.DoFindBisection`).
* Closeness is meant to break ties between parent lines that share as many byte pairs. It does so up
  to 98 shared pairs; a hundred pairs ten lines away only draw level with 99 (`FuzzyMeaning.MoreSharedWins`
  has the exact bound, `FuzzyMeaning.DrawExample` an input).
* `decode_85` accepts exactly the output of `encode_85` for whole groups; in a last group that is not
  full it also accepts filler that is not zero (`Base85.DecodedIsEncoding`, `Base85.FillerIgnored`).
* `get_branch_base_for_tip` breaks ties by the earliest base, as documented, exactly if the tip is
  not itself a base that an earlier base has in its first-parent history (`BranchBase.GetBranchBaseForTip`);
  `BranchBase.TiePassedOver` is an input where it does not.
* `merge_hunks` does not merge back the parts of a hunk that begins with a deletion alone:
  `HunkSplit.SplitAndMerge` proves that parts are merged back exactly if the hunk begins with
  context or its first change group adds a line, and `HunkSplit.DeletionFirst` gives a hunk where
  neither holds.
* When a commit is ignored, `ignore_blame_entry` carves entries one after the other.
  `BlameOrder.OrderExact`: the list the target keeps is in order whatever the guesses are exactly
  if inside a hunk no suspect reaches more than two lines past where a later suspect starts;
  `BlameOrder.OverlapUnsorted` is an input where one does. The parent's list is sorted afterwards and
  always in order, and conservation holds always (`BlamePass.PassBlameToParent`).
* `split_hunk` counts a line about a missing newline as another line of the kind before it. That no
  change group starts after such a line is enough for this to do no harm, and `HunkSplit.SplitHunk`
  requires it.

## Model

| member | source | states |
|---|---|---|
| `Painting.PaintDownToCommon` | src/git/commit-reach.c:53-132 | the loop ends for every graph and every dequeue order; flags and found commits satisfy the painting invariant with nothing but stale commits left, and the "bad generation skip" bug cannot be reached |
| `Painting.StepKeepsInvariant` | src/git/commit-reach.c:94-126 | one pop hands its flags to the parents without breaking soundness or propagation |
| `Painting.MergeBasesFound` | src/git/commit-reach.c:42-51 | leaving the loop once only stale commits are queued loses no merge base and leaves none stale |
| `Painting.OnePainted` | src/git/commit-reach.c:530-566 | at the end PARENT2 is on `one` exactly if some of `twos` reaches it |
| `MergeBasesQuery.MergeBasesMany` | src/git/commit-reach.c:134-177 | what is left holds every merge base and only common ancestors; equal inputs short-cut to `one` |
| `MergeBasesQuery.GetMergeBasesMany` | src/git/commit-reach.c:421-467 | the result is exactly the set of maximal common ancestors, each once |
| `MergeBasesQuery.SiftedAreMergeBases` | src/git/commit-reach.c:449-463 | dropping redundant candidates leaves exactly the merge bases |
| `Redundancy.RemoveRedundantNoGen` | src/git/commit-reach.c:213-275 | keeps, in order, exactly the inputs no other input reaches, and leaves no flag behind |
| `Redundancy.RemoveRedundantWithGen` | src/git/commit-reach.c:277-395 | the same by the generation-limited walk |
| `Redundancy.RemoveRedundant` | src/git/commit-reach.c:397-419 | either filter gives the same answer |
| `Redundancy.OneSurvivor` | src/git/commit-reach.c:331-347 | a single input left unmarked reaches all others, so stopping there is right |
| `Redundancy.StandingSuffice` | src/git/commit-reach.c:228-263 | skipping inputs already found redundant loses no redundancy |
| `Redundancy.StaleExactly` | src/git/commit-reach.c:331-387 | after the walk exactly the redundant inputs are marked, in spite of the moving minimum generation |
| `Marks.ClearCommitMarks` | src/git/commit.c:758-795 | marks that hang together from the starting commits are all cleared |
| `Queries.InMergeBasesMany` | src/git/commit-reach.c:530-566 | true exactly if some reference commit reaches the commit |
| `Queries.IsDescendantOf` | src/git/commit-reach.c:498-528 | both branches: true exactly if the commit reaches one of the given ones, or none is given; no flag stays behind |
| `Queries.GetReachableSubset` | src/git/commit-reach.c:946-1017 | exactly the targets that some start reaches, each once |
| `Queries.TipsReachableFromBases` | src/git/commit-reach.c:1143-1237 | exactly the tips that some base reaches are marked |
| `ContainsCache.ContainsTagAlgo` | src/git/commit-reach.c:725-776 | the answer is right and the cache only ever holds true answers, whatever true answers it held before |
| `CanAllReach.CanAllFromReach` | src/git/commit-reach.c:786-944 | true exactly if every start reaches some target; the flags PARENT1, PARENT2 and RESULT are left clean, after an early exit too |
| `AheadBehind.PoppedComplete` | src/git/commit-reach.c:1022-1123 | a popped commit carries the bits of all tips that reach it |
| `AheadBehind.DifferenceDone` | src/git/commit-reach.c:1082-1113 | when only stale commits are queued, all commits that tell two tips apart have been popped |
| `AheadBehind.AheadBehind` | src/git/commit-reach.c:1047-1123 | ahead and behind are the sizes of the two set differences of what tip and base reach |
| `BranchBase.SharedBelowPoint` | src/git/commit-reach.c:1308-1350 | every shared first-parent ancestor lies below the branch point, so stopping there is optimal |
| `BranchBase.GetBranchBaseForTip` | src/git/commit-reach.c:1248-1363 | -1 exactly if no base shares first-parent history with the tip, otherwise a base whose history misses the fewest commits of the tip's; it is the earliest such base exactly if the tip is not a base that an earlier base has in its history |
| `BranchBase.TiePassedOver` | src/git/commit-reach.c:1289-1300 | with the tip as second base and a child of it as first, the second is returned although the first does as well |
| `CommitGraph.GenerationDescends` | src/git/commit-reach.c:23-40 | generation numbers never increase along a path |
| `CommitGraph.GenerationStrictlyDescends` | src/git/commit-graph.h:209-214 | with valid generations they strictly decrease |
| `Bisect.CountDistance` | src/git/bisect.c:45-70 | newly counted commits are closed under interesting parents and counted once each, tree-same ones not at all |
| `Bisect.DistanceOf` | src/git/bisect.c:333-348 | from clear flags it is the number of tree-changing commits reached |
| `Bisect.CountInterestingParents` | src/git/bisect.c:96-108 | the interesting parents, only the first one in first-parent mode |
| `Bisect.ExactStrand` | src/git/bisect.c:318-331 | with one interesting parent the weight is that of the parent plus the commit itself |
| `Bisect.PassProgress` | src/git/bisect.c:352-391 | a pass over the list that starts with a weight missing fills one in |
| `Bisect.BestBisection` | src/git/bisect.c:187-209 | no tree-changing commit is farther from both ends going by the weights |
| `Bisect.BestBisectionSorted` | src/git/bisect.c:227-267 | exactly the tree-changing commits, which fill the array of `nr`, from the farthest to the nearest, ties by object id; the first of the list if there are none |
| `Bisect.RankUnique` | src/git/bisect.c:215-225 | the comparison leaves only one way to sort |
| `Bisect.FirstIsFarthest` | src/git/bisect.c:187-267 | the first of the ranking is a best commit in the sense of `best_bisection` |
| `Bisect.DoFindBisection` | src/git/bisect.c:281-398 | it ends; every weight that is not negative is exact; a commit found half-way is as good as any or nearly so, and is a merge or was found with work left for the last loop; otherwise the best commit or the ranking of all goes by the weights, and is right by the exact counts if all tree-changing commits have a weight; they do without tree-same merges, and, with parents first in the list, exactly if roots and merges leave room in the count or there are no strands |
| `Bisect.HalfwayExamples` | src/git/bisect.c:110-140 | the documented weights that pass for half-way, and no others, of five, six and ten thousand commits |
| `Bisect.DistanceMeans` | src/git/bisect.c:201-203 | the distance is the smaller of the commits reached and not reached |
| `Bisect.CountedFirst` | src/git/bisect.c:295-348 | what is counted before the last loop are the tree-changing roots and all merges, those that do not change the tree included |
| `Bisect.MiddleMissed` | src/git/bisect.c:350-398 | with the strand of the example unweighed, the commit chosen is at distance one while one at distance two exists |
| `Bisect.BisectTwins` | src/git/bisect.c:281-398 | two roots, a strand of two commits and two tree-same merges, with the short-cut on: nothing passes for half-way, the strand gets no weight and the best commit is missed |
| `FindBisection.TurnedParentsFirst` | src/git/bisect.c:411-428 | turning round a list with children first puts parents first |
| `FindBisection.FindBisection` | src/git/bisect.c:400-450 | counts and turns the list; `reaches` is the exact count for the commit found; with children first in the list and room for the strands, the answer is right in every mode |
| `FuzzyMatch.MapCentred` | src/git/blame.c:551-558 | a target line maps to the parent line that holds its centre when both ranges are stretched to one length, so into the range, and to the line in its place if they are as long |
| `FuzzyMatch.MapExamples` | src/git/blame.c:546-558 | both documented examples, two lines against ten and ten against two |
| `FuzzyMatch.GapBound` | src/git/blame.c:961-965 | the integer-division bound behind the invalidation window |
| `FuzzyMatch.WindowIsWide` | src/git/blame.c:551-558 | target lines farther apart than the window are compared with disjoint parent ranges |
| `FuzzyMatch.NaiveOrdered` | src/git/blame.c:732-763 | recomputing everything gives matches in the parent range and in order |
| `FuzzyMemo.FindBestLineMatches` | src/git/blame.c:635-730 | with current similarities remembered it finds certainty, best and second best match as a fresh ranking does |
| `FuzzyMemo.RankingSurvives` | src/git/blame.c:848-875 | a ranking whose two best lines are untouched is the same after a match elsewhere |
| `FuzzyMemo.KnownSurvives` | src/git/blame.c:848-875 | certainties that are not invalidated stay right for their half |
| `FuzzyMemo.RowSurvives` | src/git/blame.c:828-846 | similarities that are not invalidated stay current |
| `FuzzyMemo.Recurse` | src/git/blame.c:764-913 | with its memory the recursion gives what recomputing everything gives |
| `FuzzyMeaning.FuzzyFindMatchingLines` | src/git/blame.c:924-1001 | none for an empty parent side; otherwise matches ascend, share a byte pair and lie at most ten lines from the line's place; what is left of a parent line is what its matches did not take; a line without a match shares nothing with what is left of the near lines between the matches around it; an unchanged chunk of lines that share nothing is matched line by line; and it is what recomputing everything gives |
| `FuzzyMeaning.MostCertainMatched` | src/git/blame.c:764-826 | the line with the largest twice best less second best score, the first one if there are several, is matched with the first of its best lines, unless no line shares anything with a near one |
| `FuzzyMeaning.CloserWins` | src/git/blame.c:672-688 | of two parent lines that share as many byte pairs the closer one scores more |
| `FuzzyMeaning.MoreSharedWins` | src/git/blame.c:672-688 | one more shared byte pair wins at every distance up to d exactly if n d < 1000 - d |
| `FuzzyMeaning.SharedAgainstClose` | src/git/blame.c:672-688 | for distances up to ten it wins up to 98 pairs, and 99 against a hundred can be a draw |
| `FuzzyMeaning.DrawExample` | src/git/blame.c:672-688 | a line with a hundred byte pairs draws with itself ten lines on and a line in its place that has 99 of them |
| `BlameLines.SplitConserves` | src/git/blame.c:1635-1649 | splitting an entry keeps every line once |
| `BlamePass.PassBefore` | src/git/blame.c:1811-1838 | lines before the chunk go to their line of the parent; what reaches into it is split off; order is kept |
| `BlamePass.IgnoreBlameEntry` | src/git/blame.c:1735-1784 | every line goes where the guess says, in stretches of adjacent lines, and the kept pieces start where the guesses say; both closing assertions are proved |
| `BlamePass.KeepInside` | src/git/blame.c:1864-1898 | lines inside the chunk stay or go to their guess, the rest is left for later chunks in order |
| `BlamePass.BlameChunk` | src/git/blame.c:1801-1911 | no line is lost or doubled, and each ends where the diff says |
| `BlamePass.BlameChunkCb` | src/git/blame.c:1922-1933 | the offset check always holds; all hunks so far are accounted for |
| `BlamePass.PassBlameToParent` | src/git/blame.c:1940-1983 | over all hunks every suspected line ends in exactly one list at its destination; the parent's list is in order always, the kept one if nothing is ignored or inside a hunk no suspect reaches more than two lines past where a later suspect starts; where kept pieces start is told exactly |
| `BlamePass.DestinationMeans` | src/git/blame.c:1801-1911 | with a correct diff a line outside the hunks goes to a parent line of the same text, one inside stays or goes where its guess says |
| `BlameOrder.OrderExact` | src/git/blame.c:1735-1898 | the kept pieces are in order for all guesses exactly if inside a hunk no suspect reaches more than two lines past where a later suspect starts |
| `BlameOrder.KeptSorted` | src/git/blame.c:1864-1898 | under that condition on the suspects, or without guesses, the kept pieces are in order after every hunk |
| `BlameOrder.OverlapUnsorted` | src/git/blame.c:1735-1784 | two suspects from the same source line and three guesses leave pieces at lines 0, 2 and 0 |
| `BlameOrder.SortBlameEntries` | src/git/mergesort.h:4-74 | the bottom-up merge sort gives an ordered list of the same entries |
| `BlameOrder.CountPermuted` | src/git/blame.c:1971-1972 | sorting moves no line to another destination |
| `BlamePass.SplitsOnOverlap` | src/git/blame.c:1507-1553 | there is a part for the parent exactly if stretch and entry overlap |
| `BlamePass.SplitBlameConserves` | src/git/blame.c:1561-1592 | the parts hold every line once: those of the stretch on the parent's lines, the others unchanged |
| `CacheTree.CacheTreeSubtreePos` | src/git/cache-tree.c:59-78 | binary search finds the name or the place that keeps the order |
| `CacheTree.FindSubtree` | src/git/cache-tree.c:80-105 | finds or inserts, keeping the sub-trees strictly ordered |
| `CacheTree.NameOrder` | src/git/cache-tree.c:49-57 | shorter names come first, then byte order |
| `CacheTree.InvalidatePath` | src/git/cache-tree.c:113-163 | the tree with the nodes on the path invalid and a sub-tree of that name gone, still in order at every level |
| `CacheTree.InvalidatedCoherent` | src/git/cache-tree.c:113-163 | after changing the entries at one path, invalidating it keeps every remaining valid node right |
| `CacheTree.CompleteUnique` | src/git/cache-tree.c:257-473 | there is only one complete cache for an index |
| `IndexGroups.GroupAtFront` | src/git/cache-tree.c:308-346 | in a sorted index what is below a directory is contiguous |
| `IndexGroups.LinesIdentify` | src/git/cache-tree.c:352-445 | with a hash free of collisions, equal tree ids mean equal indexes |
| `CacheTreeUpdate.DiscardUnusedSubtrees` | src/git/cache-tree.c:219-234 | keeps exactly the used sub-trees, in order |
| `CacheTreeUpdate.UpdateSubtrees` | src/git/cache-tree.c:308-346 | every directory of the level has an up-to-date sub-tree, or an entry's object is missing |
| `CacheTreeUpdate.TreeLines` | src/git/cache-tree.c:355-445 | on success the lines are those of a build from scratch and the object of every file of the level is there; on failure some file's is not; the test never fails for a sub-tree |
| `CacheTreeUpdate.MissingMeans` | src/git/cache-tree.c:399-409 | a null id, or an absent object of anything but a sub-module unless that is allowed |
| `CacheTreeUpdate.UpdateOne` | src/git/cache-tree.c:257-473 | count and id are those of a build from scratch for every node; it succeeds only if every entry that no valid node with its object stands for has its object, and fails only if one of those has not; the cache stays coherent |
| `CacheTreeUpdate.NothingCovered` | src/git/cache-tree.c:295-298 | without a valid node every entry is looked at |
| `CacheTreeUpdate.InvalidatedUncovered` | src/git/cache-tree.c:113-157 | no valid node is left above an invalidated path, so its entry is looked at |
| `CacheTreeUpdate.ChangeAndUpdate` | src/git/cache-tree.c:159-163 | changing one path, invalidating it and updating gives the one complete cache of the new index, with the changed entry's object there; otherwise an entry's object is missing |
| `CacheTreeFile.WriteOne` | src/git/cache-tree.c:504-542 | writes the encoding, and stops exactly for sub-trees out of order |
| `CacheTreeFile.ReadOne` | src/git/cache-tree.c:551-634 | reads as specified, malformed input, duplicate names and numbers too large for an `int` included; every tree read is in order at every level, so writing it cannot die |
| `CacheTreeFile.ReadSubtrees` | src/git/cache-tree.c:607-623 | the sub-trees it builds are strictly ordered, and each is readable: in order at every level, names without NUL, ids of the right length |
| `CacheTreeFile.ParseReadable` | src/git/cache-tree.c:551-634 | whatever the bytes are, a tree that is read is readable |
| `CacheTreeFile.RereadWritten` | src/git/cache-tree.c:504-634 | a tree that was read, from any bytes, can be written, and reads back as itself |
| `CacheTreeFile.ReadWritten` | src/git/cache-tree.c:504-634 | reading back a written tree gives it, less the ids of invalid nodes, whatever follows |
| `CacheTreeFile.StrtolDecimal` | src/git/cache-tree.c:573-580 | a printed `int` reads back where it stands, with or without white space before it |
| `CacheTreeFile.DecimalNotation` | src/git/cache-tree.c:517 | a digit is one byte from 48 on, ten times a number and a digit is the number followed by the digit, a minus sign comes first |
| `CacheTreeFile.DecimalReading` | src/git/cache-tree.c:573-580 | one digit more reads as ten times the number and the digit, a minus sign makes it negative |
| `CacheTreeFile.DecimalEnds` | src/git/cache-tree.c:573-580 | a number ends at the first byte that is no digit |
| `CacheTreeFile.SpaceSkipped` | src/git/cache-tree.c:573-580 | the six white-space bytes before a number are skipped; with any other byte that can not begin one there is no number |
| `CacheTreeFile.Overflowing` | src/git/cache-tree.c:573-577 | beyond a `long` the largest or smallest one is read, which leaves -1 or 0 for an `int` |
| `CacheTreeFile.Truncated` | src/git/cache-tree.c:573-577 | a number too large for an `int` keeps its lower 32 bits |
| `CacheTreeFile.WrittenBytes` | src/git/cache-tree.c:504-542 | the very bytes of a root with one sub-tree: name, NUL, entries, space, sub-trees, newline, id, then the sub-trees |
| `CombineLines.CoalesceLines` | src/git/combine-diff.c:182-303 | merges along the table of longest common subsequences, a match setting the bits of `1<<parent` as an `int` |
| `CombineLines.MaskRight` | src/git/combine-diff.c:249 | the mask has the parent's own bit and no earlier parent's exactly up to parent 31, and is that bit alone exactly up to parent 30 |
| `CombineLines.OthersKept` | src/git/combine-diff.c:251-288 | parents whose bits are not in the mask keep their lost lines exactly |
| `CombineLines.NewKept` | src/git/combine-diff.c:251-288 | a new parent whose own bit is in the mask has all its lost lines, up to the match |
| `CombineLines.MergedLength` | src/git/combine-diff.c:214-245 | the merged list is as long as both less the table's value |
| `CombineLines.NothingShared` | src/git/combine-diff.c:228-288 | lists that share nothing are put one after the other, the lines already there first |
| `CombineLines.LcsIsLongest` | src/git/combine-diff.c:228-245 | no way of sharing lines in order shares more |
| `CombineLines.LcsIsPairing` | src/git/combine-diff.c:228-245 | some way shares that many |
| `CombineDiff.ConsumeHunk` | src/git/combine-diff.c:337-416 | every result line gets exactly what the hunk does to it: the lost lines hang on the line where they stood, added lines are flagged, and nothing else changes; other parents are untouched |
| `CombineDiff.AssignLineNumbers` | src/git/combine-diff.c:454-485 | coalesces every line and numbers it by what comes before |
| `CombineDiff.LineNumbersRight` | src/git/combine-diff.c:454-485 | the number of a line is one more than the parent lines before it |
| `CombineDiff.CombineDiff` | src/git/combine-diff.c:418-486 | the lines of the diff are where its hunks put them, coalesced and numbered; for parents up to 31 the parent can be rebuilt line by line and its line numbers are those the diff asks for; parents outside the mask are as before |
| `CombineDiff.GapCount` | src/git/combine-diff.c:454-485 | between hunks the parent lines before a result line are those of the hunks before and of the gap, less what a deletion lost at that very line |
| `CombineDiff.AddedCount` | src/git/combine-diff.c:454-485 | inside added lines they are the parent lines up to the end of the hunk |
| `CombineDiff.ReuseCombineDiff` | src/git/combine-diff.c:876-901 | the same for a parent equal to an earlier one |
| `CombineDiff.CombineAll` | src/git/combine-diff.c:1184-1201 | the states passed through follow the code for up to 64 parents, and with at most 32 every parent can be rebuilt |
| `CombineDiff.RunGood` | src/git/combine-diff.c:1184-1201 | every run over at most 32 parents leaves each of them rebuildable |
| `CombineDiff.SignBitLeaks` | src/git/combine-diff.c:247-253 | in every run over the example merge of more than 32 parents, parent 32, which has one line, is rebuilt with more |
| `CombineDiff.TooManyParents` | src/git/combine-diff.c:1184-1201 | for every count from 33 to 64 there is a merge with correct diffs, different from all parents, whose parent 32 cannot be rebuilt |
| `ApplyImage.MatchFragment` | src/git/apply.c:2483-2558 | hash check and byte comparison accept exactly if the unpatched lines are the same |
| `ApplyImage.FindPos` | src/git/apply.c:2701-2787 | -1 exactly if no line matches, otherwise the nearest one to the start, forward first; offsets follow line numbers |
| `ApplyPatch.ImagePrepare` | src/git/apply.c:329-351 | the lines of the buffer, with their hashes |
| `ApplyPatch.BuildImages` | src/git/apply.c:2894-2983 | the lines to find and the lines to put, signs turned in reverse |
| `ApplyPatch.UpdateImage` | src/git/apply.c:2794-2859 | the fragment's lines are replaced and marked in buffer and table |
| `ApplyPatch.ApplyOneFragment` | src/git/apply.c:2866-3114 | the hunk is applied at the line nearest to the stated one, ahead first, where its lines stand unpatched, beginning and end respected; it fails exactly if they stand nowhere; the image is spliced there |
| `ApplyPatch.LandsOnce` | src/git/apply.c:2701-2787 | there is only one such line |
| `ApplyPatch.HunkPlace` | src/git/apply.c:2994-3019 | when a hunk must match at the beginning or at the end, and where it is looked for |
| `ApplyPatch.OffsetExample` | src/git/apply.c:3026-3100 | a hunk one line off: it is found, the deleted line goes and nothing else does |
| `ApplyPatch.ApplyFragments` | src/git/apply.c:3242-3263 | every hunk in turn is applied where it lands, offsets included; it fails exactly if one lands nowhere; all land at their stated lines exactly if they stand there, and then the image is the outcome |
| `ApplyReverse.ReverseRestores` | src/git/apply.c:2216-2233 | a well-formed patch that applied at its stated lines does so in reverse, and the original lines are back |
| `ApplyPatch.PatchAndBack` | src/git/apply.c:2216-2233 | the same for whole buffers: patching and unpatching gives the buffer back |
| `CritBit.OtherBitsRight` | src/git/cbtree.c:54-61 | the computed byte has every bit but the highest differing one, and that bit orders the keys |
| `CritBitTree.InsertedWf` | src/git/cbtree.c:63-89 | positions increase on every path, keys agree before them, and the bit decides the side, after insertion too |
| `CritBitTree.InsertedKeys` | src/git/cbtree.c:63-89 | insertion adds exactly the key |
| `CritBitTree.LookupFinds` | src/git/cbtree.c:92-97 | the best match is the key exactly if it is stored |
| `CritBitTree.KeysAscend` | src/git/cbtree.c:99-109 | left to right the keys ascend in byte order, so each is there once |
| `CritBitTree.PrefixKeys` | src/git/cbtree.c:111-136 | the keys with a prefix are those below the top, or there are none |
| `CbTreeInPlace.InternalBestMatch` | src/git/cbtree.c:16-27 | the leaf the bits of the key lead to |
| `CbTreeInPlace.CbTree.Insert` | src/git/cbtree.c:30-90 | the stored leaf for a duplicate and nothing changed; otherwise the key is added and the invariant kept |
| `CbTreeInPlace.CbTree.Lookup` | src/git/cbtree.c:92-97 | a leaf with the key exactly if it is stored |
| `CbTreeInPlace.Relinked` | src/git/cbtree.c:63-89 | writing the node into one slot makes the tree of the insertion |
| `CbTreeInPlace.Descend` | src/git/cbtree.c:99-109 | visits the keys below in order up to the first break |
| `CbTreeInPlace.Each` | src/git/cbtree.c:111-136 | visits exactly the keys with the prefix, ascending, up to the first break |
| `Base85.PrepBase85` | src/git/base85.c:30-38 | the table inverts the alphabet |
| `Base85.En85IsAlphabet` | src/git/base85.c:16-27 | the digits are the 85 letters in their order |
| `Base85.Encode85` | src/git/base85.c:79-102 | five digits for every four bytes |
| `Base85.TakeGroup` | src/git/base85.c:45-64 | a group is accepted exactly if its digits are in the alphabet and its value fits 32 bits; nothing wraps around |
| `Base85.Decode85` | src/git/base85.c:40-77 | group by group, the bytes rotated out of the word |
| `Base85.RoundTrip` | src/git/base85.c:29-102 | decoding an encoding restores every byte string |
| `Base85.GroupAccepted` | src/git/base85.c:45-64 | a group that is accepted is the one its word is written as |
| `Base85.DecodedIsEncoding` | src/git/base85.c:40-102 | what is accepted stands for `len` bytes, and is their encoding exactly if the filler of the last group is zero |
| `Base85.WholeGroupsUnique` | src/git/base85.c:40-102 | for a multiple of four bytes only encodings are accepted |
| `Base85.FillerIgnored` | src/git/base85.c:66-75 | one byte and filler that is not zero: accepted, and not an encoding |
| `BinaryBody.FramingExact` | src/git/apply.c:1961-1981 | the length checks pass exactly if the line has as many characters as its bytes need |
| `BinaryBody.EmitBody` | src/git/diff.c:3372-3393 | the lines for the data, fifty-two bytes each, and a blank one |
| `BinaryBody.FullLines` | src/git/diff.c:3376 | all lines but the last stand for fifty-two bytes |
| `BinaryBody.MarkLetters` | src/git/diff.c:3379-3382 | A to Z for one to 26 bytes, a to z for 27 to 52 |
| `BinaryBody.MinimumLine` | src/git/apply.c:1957-1960 | one zero byte is A00000 |
| `BinaryBody.ParseBody` | src/git/apply.c:1949-1988 | the data of all lines up to the blank one and what follows, or a corrupt line |
| `BinaryBody.BodyRoundTrip` | src/git/diff.c:3372-3393 | reading the lines back gives the data, for any length and whatever follows |
| `HunkSplit.SplittableInto` | src/git/add-patch.c:601-604 | the number of change groups |
| `HunkSplit.KindCounts` | src/git/add-patch.c:1185-1199 | context lines count for both files, deleted lines for the old, added ones for the new, notes for neither |
| `HunkSplit.SplitHunk` | src/git/add-patch.c:924-1081 | one part per change group, headers that fit their lines, neighbours sharing the context between; overrun and miscounts cannot happen |
| `HunkSplit.MergeHunks` | src/git/add-patch.c:761-886 | the merged header fits its lines; merging stops at an unselected part, or at once if no line of the new file comes before the second part; it reports success exactly if parts were merged |
| `HunkSplit.SplitAndMerge` | src/git/add-patch.c:761-1081 | splitting and merging all parts restores range, offsets and counts exactly if the hunk begins with context or adds a line in its first change group |
| `HunkSplit.SecondPart` | src/git/add-patch.c:973-984 | the second part starts at the first context line after the first change group |
| `HunkSplit.NewBefore` | src/git/add-patch.c:780-790 | a line of the new file comes before it exactly if the hunk begins with context or an added line is in the first group |
| `HunkSplit.DeletionFirst` | src/git/add-patch.c:780-790 | deletion, context, addition: split in two and merged, the hunk does not come back |

## Left out

- Object store, index file, refs, locks, child processes, zlib, memory allocation and the diff engine: parsing a commit succeeds, memory can be had, diffs are correct and ordered, and the hash is a function given as a parameter.
- Commit dates: the queue may hand out commits in any order its comparator allows, and results are compared as sets where the code orders them by date.
- `cutoff_by_min_date` in `can_all_from_reach`: only a cut-off of zero is modelled.
- `ensure_generations_valid`: that generations strictly decrease is a precondition of `AheadBehind.AheadBehind` and `BranchBase.GetBranchBaseForTip`.
- Flag bits of commits are sets of commits, one per bit, in the object `Marks.Flags`.
- `get_octopus_merge_bases`, `reduce_heads` and `ref_newer`: short compositions of what is proved.
- The names `dist=` that `best_bisection_sorted` attaches to commits, and `filter_skipped` and the rest of the bisect command.
- The matcher's arrays are the values of a record, not arrays changed in place; `scan_parent_range`, the fall-back for lines without a match, is not modelled, and a fingerprint is any multiset of byte pairs.
- Linked lists of blame entries and of lost lines are sequences; reference counts, `blame_merge` and `blame_coalesce` are not modelled.
- Cache trees are values: update in place and sharing are not captured. CE_REMOVE, intent-to-add and sparse entries, dry runs and repairs, failing writes and `verify_cache` are left out; sub-tree scratch fields are a local map, and `must_check_existence` is taken as true.
- Lines of the combined diff are matched by a given reflexive relation; `match_string_spaces` itself, hunk display and deleted results are not modelled.
- Parent maps and flags of the combined diff are sets of bit numbers of a 64-bit word, a shift of an `int` counting modulo 32; more than 64 parents are left out.
- Whitespace fixing, fuzz, context reduction, `--unidiff-zero`, incomplete lines, inflating and applying binary patches, rejects and creation or removal of files in `apply.c`; hunks are given as lines, so the text format is not parsed.
- The in-place crit-bit tree is proved for keys of one length; the callback of `cb_each` is a predicate that says where it breaks.
- Edited and coloured hunks, `reassemble_patch` and the command loop of `add-patch.c`; positions in the diff text are counted in lines.
- HunkSplit.MergeHunks: is proved for the parts of one split, not for hunks that were edited.
