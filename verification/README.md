# matcha-core: the derived positions of a text editor, modelled and proved

matcha-core is the editing engine of a code editor. It keeps many facts that follow from the text:
bracket structure, decorations, find matches, folded regions, undo states, a change log. Its design
rule is that each fact has one owner, is repaired in place on every edit, and must always equal what a
computation from scratch would give. This project models the five owners with the most logic and
proves that equality for all texts and edits, or, where the code does not meet it, proves exactly when
it does.

| layer | modules |
|---|---|
| vocabulary, text rows, character boundaries | `Base`, `TextRows`, `TextBounds` |
| summary tree, position patches | `SumTrees`, `Patches`, `PatchCarries` |
| bracket engine | `BracketShapes`, `BracketQueries`, `BracketNests`, `BracketText`, `BracketTokens`, `BracketSplice`, `BracketEdits`, `BracketBulk`, `BracketEngine` |
| decoration store | `DecorationItems`, `DecorationQueries`, `DecorationMoves`, `DecorationBands`, `Decorations` |
| find: scans, one repair, a whole commit | `FindScans`, `FindLines`, `FindSets`, `FindScopes`, `FindRepair`, `FindLineRepair`, `FindCaps`, `FindMends`, `FindMatches`, `FindResults`, `FindCommits`, `FindPhases` |
| find: the search as a machine, the store and the state that follow it, runs | `FindModes`, `FindCases`, `FindZones`, `FindHandles`, `FindWalks`, `Find`, `FindRuns`, `FindLapses` |
| fold projection | `FoldRows`, `FoldRoots`, `FoldInlines`, `FoldPairs`, `FoldCarries`, `FoldMaps` |
| transactions, undo tree, change log | `EditBatches`, `Transactions`, `UndoTrees`, `UndoPruning`, `Histories`, `ChangeLogs`, `Documents` |

How the model is built:

- A text is a `seq<byte>`; offsets, rows and gaps are `nat`. The source's 32-bit width enters where it
  decides something: a transaction that would reach 2^32 - 1 bytes is refused.
- The summary tree is the source's: leaves and nodes with a cached summary, generic over the monoid.
  Every descent is proved for every valid tree shape, against the plain sequence of items.
- Objects whose methods update fields are classes (`BracketStore`, `DecorationStore`, `FindState`,
  `FoldMap`, `Buffer`, `History`, `ChangeLog`, `Document`, `SkipContext`). Persistent trees and
  expressions are datatypes and functions. Loops over locals are methods with loops, each proved
  against a function that the lemmas reason about.
- A patch between two texts is `Rewrites(p, before, after)`: ascending disjoint edits, and every gap
  between them copied. `Transactions.Buffer.Apply` proves that every commit hands out such a patch;
  the repair theorems assume nothing else about an edit.
- The per-line matcher of pattern search is an arbitrary function from a line to ordered disjoint
  spans between characters.
- Find is a machine over texts (`FindModes.Mode`: query, scope, flags, cover, the list of matches). The
  repair of an edit is a function of text, scope and set (`FindMends.Mended`), a commit the repairs in
  order (`FindCommits.MendAll`). The methods on state and store are proved to do what the machine does,
  from every state (`FindRuns.Play`); completeness, cap and scope results are about the machine. Where
  the source slices the text inside a character, which panics, the machine says so
  (`FindModes.Breaks`) and the methods report failure.

`dafny verify dfyconfig.toml` checks the whole project.

## What does not hold, and exactly when it does

The model follows the code. Ten equalities do not hold of it on every input; each is stated with the
exact condition under which it does, and, where the failing input is not plain, a concrete one.

1. *Bulk shift of brackets.* More than 64 edits that touch no bracket are mapped instead of rescanned.
   If an insertion is stacked where an earlier edit already ends on a bracket, the map counts only the
   first of them (`BracketEngine.BulkShiftLeavesABracketBehind`). The result is a rescan exactly when
   no bracket has such an insertion (`BracketBulk.BulkShiftIsRescan`, carried to `ApplyEdit` and
   `BracketStore.Apply`).
2. *Windowed decoration mover.* The whole-store mover drops an empty match anywhere; the windowed one
   only inside its window (`DecorationMoves.EmptyMatchOutlivesTheWindow`). They agree exactly when every
   empty dropping range starts no later than the edit's old end and no earlier than some range touching
   the edit (`Decorations.DecorationStore.ApplySingleEdit`); on every store they agree but for such
   ranges (`DecorationMoves.WindowedAlike`).
3. *Repair of a self-overlapping needle.* The repaired set is a maximal disjoint set of occurrences,
   but may be in another phase than a fresh scan (`FindRepair.PhaseMayDiffer`). Between texts that fit
   the cap the repair gives the fresh scan after every patch if and only if the needle cannot overlap
   itself (`FindPhases.RepairIsFreshIff`); for every other needle there are texts and an edit
   (`FindPhases.PhaseMoves`).
4. *Repair past the cap.* One zone's scan stops at the cap, and when the set then counts no more than
   the cap nothing is flagged, although matches are missing (`FindLapses.PasteOverTheCap` states such a
   run). Self-overlapping needles aside, a commit of a complete set lists the fresh scan's first matches
   of what the search covers (`FindModes.CommitFollows`), and is complete as far as the flags say exactly
   when the repaired set was cut or a fresh scan fits the cap (`FindModes.CommitCompletes`), for any number
   of edits. The silent case is `FindModes.SilentWhen`; after a single edit it is exactly a text over the
   cap with no stored match spared by the edit's window.
5. *A scope taken away.* Deleting all of a scope's text drops the scope, so that the search is of the
   whole text again, but only the edits' surroundings are scanned (`FindLapses.TakeScopeAway`). After a
   single edit the set is complete exactly when those hold every match of the text, and no more than the
   cap (`FindModes.CollapseCompletes`); after several, the list is the repairs in order from nothing
   (`FindModes.Rode`). Any other scope rides (`FindScopes.ReachRides`).
6. *A scope left behind.* While nothing is searched for, a commit returns before the scope rides
   (`FindLapses.LeaveScopeBehind`); it rides exactly when the patch is not empty and there is something
   to match (`FindModes.Rode`).
7. *An edge inside a character.* A scope may be given any edges, and an edge that lay on a character may
   come out inside one (`FindLapses.EdgeStays` says exactly when, for every offset and bias). The literal
   repair then slices the text there, but only near that edge: a commit fails exactly when, for some edit,
   the window lies in the scope, there is something to scan, and no character begins between the edge and
   the scan's margin and, at the scope's start, no match survives in between (`FindModes.BreaksWhen`,
   `FindMends.SlicesBadlyWhen`). It never does with both ridden edges on characters. Two runs that fail:
   an edge swallowed by replaced text (`FindLapses.EdgeInsideACharacter`), and typing beside an edge that
   was given inside a character (`FindLapses.EdgeBesideTyping`).
8. *Folded blocks sharing a row.* The reduction keeps the first and forgets the second
   (`FoldRoots.SharedRowLosesABlock`). It hides exactly what the blocks hide when, and only when, no
   skipped block outlasts the root that swallows it (`FoldRoots.RootsHideTheSame`); nested or
   row-disjoint blocks meet that (`FoldRoots.LaminarHidesTheSame`).
9. *Single-line folds under several edits.* When a patch changes no row count the stored folds ride it
   one by one, rows untouched. A fold between an added and a removed line break stays on its old row
   (`FoldMaps.RowLeftBehind`), and an insertion stacked on a fold's bracket is not counted
   (`FoldMaps.OpenerLeftBehind`). Of edits that replace no folded bracket the result is a fresh build's
   exactly when neither happens to any fold and the pairs that show as single-line folds are the ones that
   did (`FoldCarries.RideIsFresh`, carried to `FoldMap.ApplyPatch`); edits outside every pair always meet
   the latter (`FoldCarries.OutsideKeeps`), and a single edit the former (`FoldCarries.OneEditSteady`).
10. *Text typed at a scope's end.* It lands in the scope, as the code means it to, exactly when no earlier
   edit of the same patch ends there (`FindScopes.ScopeTakesTyped`, `FindScopes.TypedPastTheScope`).

One boundary belongs to the model and not to the code: the windowed scan takes any cap, and with a cap of
zero it reports an empty, complete set. The code only passes its own cap or none, so
`FindScans.ScanBufferCapped` holds there for every input.

## Model

| member | source | states |
|---|---|---|
| SumTrees.FromItemsCorrect | crates/matcha-core/src/sum_tree.rs:152-166 | The bulk constructor yields a valid tree holding exactly the given items in order, for every item count. |
| SumTrees.Append | crates/matcha-core/src/sum_tree.rs:268-281 | Appending two valid trees of any heights gives a valid tree whose items are the concatenation; every cached summary and height stays exact. |
| SumTrees.SplitAt | crates/matcha-core/src/sum_tree.rs:348-392 | A split returns two valid trees holding the items before and from index `k`, with `k` clamped to the tree at both ends. |
| SumTrees.Replace | crates/matcha-core/src/sum_tree.rs:398-406 | Replacing `lo..hi` by a list gives a valid tree holding prefix, list, suffix. |
| SumTrees.SummaryIsFold | crates/matcha-core/src/sum_tree.rs:96-135 | The summary cached at the root is the monoid fold of all items, whatever the shape. |
| SumTrees.SummaryBeforeCorrect | crates/matcha-core/src/sum_tree.rs:419-460 | For every tree shape and additive dimension, the prefix descent folds exactly the items whose cumulative end is strictly below the target. |
| SumTrees.SeekCorrect | crates/matcha-core/src/sum_tree.rs:595-635 | For every tree shape, `seek` lands on the first item whose cumulative end exceeds the target, else on the last item, with the second dimension accumulated before it. |
| SumTrees.SuffixPartsCorrect | crates/matcha-core/src/sum_tree.rs:488-534 | The suffix walk hands out summaries of consecutive runs that together are exactly the items ending at or after the target. |
| SumTrees.FilterVisitCorrect | crates/matcha-core/src/sum_tree.rs:715-740 | If pruning is sound for a hit predicate, the pruned visit yields the hits of a full scan, in order. |
| Patches.MapOffsetScan | crates/matcha-core/src/patch.rs:85-110 | The edit-by-edit scan computes the position map: the first edit whose old end reaches the offset decides, any other offset moves by the shift accumulated so far. |
| Patches.MapInGap | crates/matcha-core/src/patch.rs:85-110 | An offset strictly inside untouched text moves by exactly the net growth of the edits before it. |
| Patches.MapMany | crates/matcha-core/src/patch.rs:139-195 | A batch of positions answered by a prefix table and one bisection each equals the single-position scan, query by query. |
| Patches.MapSingle | crates/matcha-core/src/patch.rs:201-214 | The map of one edit: identity before it, shift after it, and the clamped landing inside it. |
| Patches.MapReplaced | crates/matcha-core/src/patch.rs:201-214 | In any patch an offset inside a replaced range lands as far into the new text as it was into the old, or at the new text's end, whatever its bias. |
| PatchCarries.CarriedByte | crates/matcha-core/src/patch.rs:85-110 | A byte in no replaced range stands in the new text where its own gap carries it. |
| PatchCarries.MapIsCarried | crates/matcha-core/src/patch.rs:85-110 | The position map takes such a byte's position to where the byte went exactly when no insertion is stacked where an earlier edit ends on it. |
| BracketShapes.AddSummary | crates/matcha-core/src/bracket_tree.rs:93-113 | The in-place pop-and-push loop computes the pure combine of two boundary shapes. |
| BracketShapes.CombineAssociative | crates/matcha-core/src/bracket_tree.rs:93-113 | Combining shapes is associative: where subtree boundaries fall does not matter. |
| BracketShapes.ShapesAreAMonoid | crates/matcha-core/src/bracket_tree.rs:93-113 | Shapes form a monoid, byte span and item count are additive over it, so every sum-tree theorem applies. |
| BracketQueries.FoldIsScratch | crates/matcha-core/src/bracket_tree.rs:649-671 | The fold of a run of brackets, offsets included, is the pending closers and open openers a one-pass stack machine leaves. |
| BracketQueries.EnclosingOpenersCorrect | crates/matcha-core/src/bracket_tree.rs:151-153 | The prefix descent yields the one-pass automaton's opener stack at the cut. |
| BracketQueries.ScanForPartner | crates/matcha-core/src/bracket_tree.rs:195-226 | The loop that skips balanced subtrees by their summaries and stops at the first match computes the pure suffix hunt. |
| BracketQueries.OpenerPartnerCorrect | crates/matcha-core/src/bracket_tree.rs:195-226 | For every well-formed tree, an opener's partner found by riding summaries is the one the one-pass sweep records. |
| BracketQueries.DeriveAll | crates/matcha-core/src/bracket_tree.rs:346-366 | The one-pass sweep over tree items equals the recursive reference automaton on the decoded brackets. |
| BracketQueries.ViewIsSweep | crates/matcha-core/src/bracket_tree.rs:299-315 | For every bracket of every tree, depth, side and partner derived by descents equal the sweep's. |
| BracketQueries.AtIsSweep | crates/matcha-core/src/bracket_tree.rs:318-320 | A lookup returns the sweep's entry where there is a bracket and nothing elsewhere. |
| BracketQueries.ItemCharAtCorrect | crates/matcha-core/src/bracket_tree.rs:276-280 | A byte lookup answers exactly at the offsets that hold a bracket. |
| BracketQueries.PartnerIsMutual | crates/matcha-core/src/bracket_tree.rs:346-366 | An opener records a closer as partner if and only if that closer records the opener. |
| BracketQueries.BondsNest | crates/matcha-core/src/bracket_tree.rs:346-366 | An opener strictly inside a matched pair is matched inside it. |
| BracketNests.BalancedIsMatched | crates/matcha-core/src/bracket_tree.rs:346-366 | Properly nested brackets, wherever they stand among any others, are matched as they nest: a pair around balanced brackets is recorded opener to closer and closer to opener. |
| BracketNests.PartnersOfAKind | crates/matcha-core/src/bracket_tree.rs:346-366 | An opener's partner is a later closer of its own kind, round, square or curly. |
| BracketQueries.EnclosingPairsCorrect | crates/matcha-core/src/bracket_tree.rs:385-392 | The enclosing pairs are exactly the matched pairs around the caret, listed innermost first. |
| BracketText.SkipContext.Step | crates/matcha-core/src/bracket.rs:119-162 | One byte through the in-place lexer state is one step of the pure lexer (comments, quotes, escapes, reset at newline). |
| BracketText.SkipContext.Next | crates/matcha-core/src/bracket.rs:169-175 | The iterator yields each byte once with its skip flag and advances by one. |
| BracketText.LexConcat | crates/matcha-core/src/bracket.rs:103-176 | For markers without a newline, lexing may restart at any line: the code brackets of two texts joined after a newline are the two lists joined. |
| BracketText.LexInactive | crates/matcha-core/src/bracket_tree.rs:256-269 | With nothing configured the lexer finds exactly the plain brackets. |
| BracketTokens.TokensExist | crates/matcha-core/src/bracket.rs:81-163 | Every text is cut into tokens: single bytes of code, comments to the line's end, literals closed by their own unescaped delimiter on the line, and literals the line leaves open. |
| BracketTokens.TokensUnique | crates/matcha-core/src/bracket.rs:81-163 | A text is cut into tokens in one way only. |
| BracketTokens.BracketsAreTokens | crates/matcha-core/src/bracket.rs:81-176 | For every configuration and text a document holds exactly the brackets that are tokens by themselves, in text order. |
| BracketTokens.LiteralHides | crates/matcha-core/src/bracket.rs:131-141 | After a stretch of code a literal, closed by the first delimiter no backslash escapes, hides the brackets in it and no others; the code after it counts again. |
| BracketTokens.EscapedQuoteStays | crates/matcha-core/src/bracket.rs:131-141 | A delimiter after a backslash does not close the literal. |
| BracketTokens.OpenLiteralHides | crates/matcha-core/src/bracket.rs:124-141 | A literal its line does not close hides the rest of the line, and the next line is code again. |
| BracketTokens.CommentHides | crates/matcha-core/src/bracket.rs:124-153 | A comment marker in code hides the rest of its line, and the next line is code again. |
| BracketText.DecodeEncode | crates/matcha-core/src/bracket_tree.rs:241-252 | Delta-gap encoding round-trips. |
| BracketEdits.TreeFromText | crates/matcha-core/src/bracket_tree.rs:256-269 | The load-time tree is valid and decodes to exactly the brackets that stand in code, in no comment and no literal, for every way of cutting the text into tokens (there is one). |
| BracketSplice.Reanchor | crates/matcha-core/src/bracket_tree.rs:630-646 | Rewriting one gap re-anchors a whole suffix. |
| BracketSplice.DecodeReanchored | crates/matcha-core/src/bracket_tree.rs:630-646 | A suffix with one rewritten gap decodes to every old bracket moved by the same amount. |
| BracketSplice.SpliceRegion | crates/matcha-core/src/bracket_tree.rs:484-531 | Splitting out a region, inserting rescanned brackets and re-anchoring the rest splices the decoded list, and counts what was removed. |
| BracketEdits.LineAlignedRegions | crates/matcha-core/src/bracket_tree.rs:546-576 | Widening edits to whole lines and merging the stretches yields a patch between the same two texts whose every edit is line-aligned in both. |
| BracketEdits.CoarseRewrites | crates/matcha-core/src/bracket_tree.rs:546-576 | A widened and merged patch still rewrites the old text to the new one. |
| BracketEdits.CoarseAligned | crates/matcha-core/src/bracket_tree.rs:546-576 | Each widened stretch starts and ends on line boundaries of both texts. |
| BracketEdits.SpliceAll | crates/matcha-core/src/bracket_tree.rs:484-539 | Splicing line-aligned regions left to right on the running tree decodes to the new text's brackets; unless it reports a structural change, the bracket characters are unchanged. |
| BracketBulk.BulkShift | crates/matcha-core/src/bracket_tree.rs:598-623 | The one-pass bulk shift rebuilds a valid tree of every bracket mapped through the patch. |
| PatchCarries.MapKeepsOrder | crates/matcha-core/src/bracket_tree.rs:598-623 | Positions outside every edit keep their strict order under the map, so gaps never go negative and no two brackets meet. |
| BracketBulk.BulkShiftIsRescan | crates/matcha-core/src/bracket_tree.rs:582-623 | For a structure-neutral patch the bulk shift equals a rescan if and only if no bracket has an insertion stacked where an earlier edit already ends on it. |
| BracketEngine.BulkShiftLeavesABracketBehind | crates/matcha-core/src/bracket_tree.rs:598-623 | A concrete patch (65 stacked one-byte insertions before a lone opener) where the bulk path leaves the bracket at offset 1 while the text has it at 65. |
| BracketEngine.ApplyEdit | crates/matcha-core/src/bracket_tree.rs:447-540 | For every text, configuration with single-line markers and multi-edit patch, the updated tree decodes to the new text's brackets if and only if the bulk path was not taken with a stacked insertion; on either path an empty window means that every bracket keeps its character, its matched status and its partner. |
| BracketEngine.WindowIsComplete | crates/matcha-core/src/bracket_tree.rs:427-446 | Every opener outside the returned window keeps its old partner up to the shift, matched or unmatched as before. |
| BracketEngine.WindowReconciles | crates/matcha-core/src/document.rs:1815-1836 | With nothing configured, for every multi-edit patch and every set of foldable openers ridden through it, reconciling only those in the window leaves the same folds as reconciling all of them. |
| BracketEngine.SameCharsSameMatching | crates/matcha-core/src/bracket_tree.rs:427-446 | Two bracket lists with the same characters match alike: the same brackets matched, each with the same partner. |
| BracketEngine.BracketStore.MatchText | crates/matcha-core/src/bracket.rs:218-223 | A fresh store holds exactly the text's brackets. |
| BracketEngine.BracketStore.Apply | crates/matcha-core/src/bracket.rs:348-352 | The store after a commit holds the new text's brackets under the same exact condition as the tree-level edit, and an empty window again means that no matched status or partner changed. |
| BracketEngine.BracketStore.FoldablePartner | crates/matcha-core/src/bracket_tree.rs:289-292 | Exactly the openers answer, each with the partner the sweep records. |
| DecorationQueries.DecorationsInIsLinear | crates/matcha-core/src/decorations.rs:581-612 | The pruned interval query yields exactly what a linear touch filter yields, in order. |
| DecorationQueries.DecorationsInMembers | crates/matcha-core/src/decorations.rs:581-612 | It yields exactly the ranges that share a position with the stretch asked for, both ends counting on both sides, empty ranges included. |
| DecorationQueries.FindCountCorrect | crates/matcha-core/src/decorations.rs:636-638 | The cached count is the number of matches. |
| DecorationQueries.FindRankBeforeCorrect | crates/matcha-core/src/decorations.rs:644-646 | The rank is the number of matches starting strictly before the offset. |
| DecorationQueries.NthFindCorrect | crates/matcha-core/src/decorations.rs:653-665 | Selection returns the `r`-th match of the ordered list, and nothing past the end. |
| DecorationMoves.StickinessDecidesTheEdges | crates/matcha-core/src/decorations.rs:106-113 | An insertion strictly inside a range grows it; at an edge, growth happens exactly for the stickiness that names that edge. |
| DecorationMoves.StickinessOfTheEmpty | crates/matcha-core/src/decorations.rs:106-113 | Text inserted on an empty range grows it only if both edges grow; otherwise the range stays empty, after the text for the stickiness that grows after and before it for the others. |
| DecorationMoves.RemapRanges | crates/matcha-core/src/decorations.rs:392-415 | The in-place remap (all questions asked of the old ranges first) computes the pure remap, dropped ranges removed. |
| DecorationMoves.MovedByIsAStore | crates/matcha-core/src/decorations.rs:915-926 | After any patch the ranges are ordered by start and identity, identities stay distinct and old, no range is inverted and no empty dropping range is left. |
| DecorationMoves.ReplacedIsCovered | crates/matcha-core/src/decorations.rs:425-428 | One probe by old ends decides whether any edit puts new text in place of all of a range; an empty range only the first edit to reach it replaces. |
| DecorationMoves.GoneExactly | crates/matcha-core/src/decorations.rs:392-415 | A range is gone after a patch exactly if it is a hint anchored to a token and one edit put new text in place of all of it, or it is such a hint or a match and its mapped ends meet; no other range ever goes. |
| DecorationMoves.WindowedIsWholeStore | crates/matcha-core/src/decorations.rs:949-980 | The windowed mover equals the whole-store rewrite if and only if no empty dropping range lies outside the band it cuts. |
| DecorationMoves.WindowedAlike | crates/matcha-core/src/decorations.rs:949-980 | On every store the windowed mover keeps every range the whole-store rewrite keeps, and beside them at most empty dropping ranges. |
| DecorationMoves.EmptyMatchOutlivesTheWindow | crates/matcha-core/src/decorations.rs:949-980 | A concrete store with an empty match far from the edit, which the windowed mover keeps and the whole-store mover drops. |
| DecorationBands.Reanchor | crates/matcha-core/src/decorations.rs:437-454 | Rewriting one gap re-anchors the suffix. |
| DecorationBands.Reassemble | crates/matcha-core/src/decorations.rs:937-980 | Head, rewritten band and moved suffix put back together decode to their concatenation. |
| DecorationItems.SortOrders | crates/matcha-core/src/decorations.rs:1061-1067 | With distinct identities the sort is ordered by start and identity. |
| DecorationItems.OrderIsUnique | crates/matcha-core/src/decorations.rs:1061-1067 | An ordered list is determined by its multiset of ranges. |
| Decorations.DecorationStore.AddDecoration | crates/matcha-core/src/decorations.rs:505-520 | Adds one range under a fresh identity; the content is the sorted old content plus it. |
| Decorations.DecorationStore.AddSortedBatch | crates/matcha-core/src/decorations.rs:801-822 | Adds a batch by sorting the whole store; identities are consecutive in span order. |
| Decorations.DecorationStore.SpliceSortedBatch | crates/matcha-core/src/decorations.rs:679-724 | The windowed insert has exactly the whole-store insert's contract: same identities, same content, same order. |
| Decorations.BandMergeIsSort | crates/matcha-core/src/decorations.rs:679-724 | Sorting a rising batch into the band of ranges starting within its extent sorts the whole store. |
| Decorations.DecorationStore.TakeMatchingIn | crates/matcha-core/src/decorations.rs:836-873 | The windowed removal returns exactly the touching ranges the predicate accepts and keeps exactly the rest, in order. |
| Decorations.BandRemovalIsRemoval | crates/matcha-core/src/decorations.rs:836-873 | Removing from the narrowed band is removing from the whole store. |
| Decorations.DecorationStore.ApplyPatchNaive | crates/matcha-core/src/decorations.rs:915-926 | Content becomes the reference rewrite of the old content, for every patch. |
| Decorations.DecorationStore.ApplySingleEdit | crates/matcha-core/src/decorations.rs:949-980 | On every valid store the windowed mover ends at the reference rewrite exactly when every empty dropping range starts no later than the edit's old end and no earlier than some range touching the edit. |
| Decorations.QuietAwayIsQuiet | crates/matcha-core/src/decorations.rs:949-980 | That condition on store and edit alone holds exactly when no empty dropping range lies outside the band the mover cuts. |
| Decorations.DecorationStore.ApplyPatch | crates/matcha-core/src/decorations.rs:894-910 | For every store and patch the result is the reference rewrite, but for empty dropping ranges left behind; it is exactly that for several edits, or for one under the condition of `ApplySingleEdit`; a store without such ranges stays without. A range that was not one is gone exactly if its whole token was replaced or it collapsed under a dropping kind (`GoneExactly`). |
| FindScans.ScanLiteral | crates/matcha-core/src/find.rs:239-280 | The probe loop returns the greedy leftmost non-overlapping matches up to the cap, and whether there were more. |
| FindScans.GreedyCovers | crates/matcha-core/src/find.rs:239-280 | Every occurrence in the stretch is covered by a greedy match starting at or before it. |
| FindScans.HitOnBoundaries | crates/matcha-core/src/find.rs:239-280 | An occurrence of a whole-character needle begins and ends on character boundaries. |
| FindScans.ResumeSkipsNothing | crates/matcha-core/src/buffer.rs:377-385 | Where a window without a match ends, the resume point skips no occurrence and makes progress. |
| FindScans.ScanBufferCapped | crates/matcha-core/src/find.rs:319-372 | For every window size, scope and needle, the windowed scan equals the whole-text greedy scan, spans and cap flag alike, if and only if the cap is positive or there is nothing to find. |
| FindScans.SnappedScan | crates/matcha-core/src/find.rs:319-372 | Snapping a scope's edges inward to character boundaries loses no occurrence. |
| FindLines.ScanBufferLines | crates/matcha-core/src/find.rs:383-413 | The row-by-row scan returns every match inside the scope of the lines it meets, up to the cap. |
| FindLines.AllLinesMembers | crates/matcha-core/src/find.rs:212-236 | The reference list holds exactly the spans the matcher reports on some line. |
| FindScopes.ReachRides | crates/matcha-core/src/find.rs:810-840 | Unless the patch takes away the whole scope, the stretch a search covers (scope, which may reach past the text, and what a capped set covers) rides: what lay in it lands in it, and what a gap brings into it lay in it. |
| FindScopes.CollapseTakesAll | crates/matcha-core/src/find.rs:822-832 | A scope that collapses keeps none of its matches. |
| FindScopes.ScopeTakesTyped | crates/matcha-core/src/find.rs:822-832 | New text typed inside a scope or at either of its edges lies in the ridden scope, unless another edit already ended where the scope does, and then it lies outside; new text of edits before or after the scope lies outside. |
| FindScopes.CoverLeavesTyped | crates/matcha-core/src/find.rs:810-817 | What a capped set covers takes in what is typed before its end and nothing typed at its end or after it. |
| FindScopes.TypedPastTheScope | crates/matcha-core/src/find.rs:822-832 | Two concrete touching edits at the end of a scope whose typed byte the ridden scope leaves out. |
| FindLineRepair.WholeLinesIs | crates/matcha-core/src/find.rs:422-434 | The widened range is the lines holding both ends of the range, newline excluded. |
| FindLineRepair.LinesRepairStep | crates/matcha-core/src/find.rs:849-943 | Clearing one edit's lines inside the scope and rescanning them advances the repair invariant by one edit, up to where the cap cut the scan. |
| FindLineRepair.LinesRestored | crates/matcha-core/src/find.rs:842-943 | For any per-line matcher, any multi-edit patch and any ridden scope, if the set was exactly the scope's line matches before, the repaired set is exactly the ridden scope's line matches after, as far as nothing was cut. |
| FindRepair.MovedIsSound | crates/matcha-core/src/find.rs:800-990 | Matches of a scope, moved through any patch, are disjoint spans of the ridden scope, each still a match or near an edit. |
| FindRepair.RepairStarts | crates/matcha-core/src/find.rs:800-990 | A maximal disjoint set of a scope's occurrences, moved through the patch, satisfies the repair invariant of the ridden scope with every edit pending. |
| FindRepair.RepairStep | crates/matcha-core/src/find.rs:881-941 | One anchored, guarded zone repair settles one edit and keeps the invariant for the rest. |
| FindRepair.RepairSkips | crates/matcha-core/src/find.rs:857-861 | An edit whose window lies outside the scope has nothing to repair. |
| FindRepair.RepairedIsMaximal | crates/matcha-core/src/find.rs:800-990 | With no edit pending the set is a maximal disjoint set of the scope's occurrences, as far as nothing was cut. |
| FindRepair.FreshIsMaximal | crates/matcha-core/src/find.rs:239-280 | A fresh scan is a maximal disjoint set of occurrences. |
| FindRepair.MaximalIsFresh | crates/matcha-core/src/find.rs:800-990 | For a needle that cannot overlap itself, every maximal set is the fresh scan. |
| FindRepair.GreedyIsLongest | crates/matcha-core/src/find.rs:239-280 | No disjoint choice of occurrences is longer than the greedy one, so a fresh scan within the cap bounds every repaired set. |
| FindRepair.PhaseMayDiffer | crates/matcha-core/src/find.rs:881-941 | A concrete self-overlapping needle where the repaired set, though maximal, is not the fresh scan. |
| FindCaps.BeginsFresh | crates/matcha-core/src/find.rs:160-170 | A set of disjoint matches complete up to a cut that only a match past the cap allows begins with the fresh scan's first matches, and equals it when that fits the cap. |
| FindMends.ZoneHolds | crates/matcha-core/src/find.rs:881-916 | For every disjoint set in the scope, the zone of a repair lies in the scope, starts anchored at the last survivor left of it and ends guarded by the first right of it. |
| FindMends.RefoundFits | crates/matcha-core/src/find.rs:881-941 | What the zone scan adds is matches of the scope that overlap no survivor. |
| FindMends.LiteralStep | crates/matcha-core/src/find.rs:849-941 | The literal repair of one edit advances the invariant up to a cut, cuts only when the scope holds matches past the cap, and as the last repair with a cut, a survivor and a needle that cannot overlap itself leaves more matches than the cap. |
| FindMends.LinesStep | crates/matcha-core/src/find.rs:849-943 | The line-scoped repair of one edit does the same, for any per-line matcher. |
| FindMends.SlicesBadlyWhen | crates/matcha-core/src/find.rs:881-930 | The slice of a repair fails exactly when its window lies in the scope, there is something to scan, and either the scope starts inside a character with no character beginning up to the margin and no match surviving before, or it ends inside one with none beginning from the margin to its end. |
| FindMends.EdgesSliceWell | crates/matcha-core/src/find.rs:881-930 | With both edges of the scope on characters no repair slices inside one. |
| FindMatches.ListedApart | crates/matcha-core/src/find.rs:800-990 | A disjoint set has a list in order, apart, with exactly its members. |
| FindMatches.ApartUnique | crates/matcha-core/src/find.rs:800-990 | A set of disjoint non-empty spans has one ordered list. |
| FindMatches.MaximalIsFreshList | crates/matcha-core/src/find.rs:800-990 | For needles that cannot overlap themselves a maximal set is in order the fresh scan's list. |
| FindMatches.LinesAreFreshList | crates/matcha-core/src/find.rs:800-990 | A complete line-scoped set is, in order, the reference list. |
| FindResults.CompleteIsFresh | crates/matcha-core/src/find.rs:800-990 | A complete set lists exactly what a fresh scan of the scope lists, self-overlapping literals excepted. |
| FindResults.CompleteUpToCap | crates/matcha-core/src/find.rs:953-976 | A repaired set is complete when a fresh scan fits the cap, is never longer than one and, unless the needle can overlap itself, begins as one does. |
| FindResults.PrefixIsComplete | crates/matcha-core/src/find.rs:160-170 | The first matches of a scan are all the matches up to where the last of them ends, which is what a capped set claims to cover. |
| FindResults.OutgrowsWhen | crates/matcha-core/src/find.rs:953-976 | Around a single edit the count passes the cap exactly when a fresh scan does and the edit's window spared a stored match. |
| FindResults.StretchCompletes | crates/matcha-core/src/find.rs:822-940 | A set that lists what one stretch holds is complete over more exactly when that stretch holds every match there is, and no more than the cap. |
| FindResults.SnappedLines | crates/matcha-core/src/find.rs:326-332 | Snapping a scope inward to characters loses no line match. |
| FindCommits.MendAllFits | crates/matcha-core/src/find.rs:841-941 | Edit by edit, the repaired set stays disjoint and inside the scope. |
| FindCommits.CompleteMends | crates/matcha-core/src/find.rs:841-941 | For every multi-edit patch, a complete set whose scope rode is repaired to one complete as far as the cap let it, and around a single edit the spared matches decide whether it outgrows the cap. |
| FindCommits.StoredMends | crates/matcha-core/src/find.rs:841-941 | For every multi-edit patch, whatever became of the scope and however incomplete the set was, the repair leaves nothing but matches of the stretch, disjoint. |
| FindCommits.CommitBreaksWhen | crates/matcha-core/src/find.rs:841-930 | A whole commit slices the text inside a character exactly when some edit, met with the set the edits before it left, would scan from or to a scope edge inside one. |
| FindCommits.EmptyMends | crates/matcha-core/src/find.rs:841-941 | From nothing, the repair of a single edit leaves the first matches of a fresh scan of the edit's stretch. |
| FindPhases.RepairIsFreshIff | crates/matcha-core/src/find.rs:841-941 | Between texts that fit the cap, for all patches, repairing the moved fresh scan of the old text gives the fresh scan of the new one if and only if the needle cannot overlap itself. |
| FindPhases.PhaseMoves | crates/matcha-core/src/find.rs:841-941 | For every needle that matches itself `d` bytes along, two texts and an edit of `d` bytes after which the repaired set is not the fresh scan. |
| FindModes.AnewCompletes | crates/matcha-core/src/find.rs:1019-1049 | A fresh scan, cut at the cap or not, lists exactly the matches of the stretch it says it covers, for every query and scope. |
| FindCases.FreshIsLeftmost | crates/matcha-core/src/find.rs:239-280 | A fresh literal scan is the one list of places where the needle stands, byte for byte or but for the case of ASCII letters, in order, not overlapping, and leaving out none that an earlier one does not cover. |
| FindCases.CaselessTexts | crates/matcha-core/src/find.rs:254-274 | With case ignored, two texts that differ only in the case of ASCII letters have the same matches, in every scope. |
| FindCases.CaselessNeedles | crates/matcha-core/src/find.rs:254-274 | With case ignored, two needles that differ only in the case of ASCII letters have the same matches. |
| FindCases.AnewReads | crates/matcha-core/src/find.rs:1019-1049 | A search that starts anew on a literal lists the first of those places, up to the cap, and is flagged exactly when there are more. |
| FindModes.RodeHolds | crates/matcha-core/src/find.rs:800-990 | Every commit, complete set or not, scope taken away or not, leaves a list of matches in order, within the cap and inside what the search covers. |
| FindModes.CommitTakesTyped | crates/matcha-core/src/find.rs:822-832 | The scope a commit leaves takes in exactly what was typed in it, edit by edit. |
| FindModes.BreaksWhen | crates/matcha-core/src/find.rs:841-930 | When the commit of a search slices inside a character, exactly, over its scope, its list and the patch; never with the ridden edges on characters, and never for a line-scoped query. |
| FindModes.CommitFollows | crates/matcha-core/src/find.rs:953-976 | Of a complete set whose scope keeps some text a commit lists the fresh scan's first matches, self-overlapping needles aside, outgrows the cap only if a fresh scan does, and after a single edit exactly when one does and the window spared a match. |
| FindModes.CommitCompletes | crates/matcha-core/src/find.rs:953-976 | Such a set stays complete over what it covers if a fresh scan of the ridden stretch fits the cap, and, self-overlapping needles aside, exactly if that or the repaired set was cut; for any number of edits. |
| FindModes.SilentWhen | crates/matcha-core/src/find.rs:953-976 | Matches are missing and nothing is flagged exactly when nothing was flagged before, the new text does not fit the cap and the repaired set does; after a single edit, exactly when its window spared no stored match. |
| FindModes.CollapseCompletes | crates/matcha-core/src/find.rs:822-940 | After a single edit takes the scope away, its window meets the text, the list is the first matches of the stretch scanned around it, and it is complete exactly when that stretch holds every match, and no more than the cap. |
| FindZones.ZoneBounds | crates/matcha-core/src/find.rs:881-916 | The store's neighbours give exactly the zone's start, stop and guard. |
| FindZones.RescanZone | crates/matcha-core/src/find.rs:849-941 | The literal repair of one edit on the decoration store leaves the survivors and what the zone scan adds, under fresh identities, and fails exactly where the slice does. |
| FindZones.RescanLines | crates/matcha-core/src/find.rs:849-943 | The line-scoped repair of one edit on the store leaves the survivors and the first matches of its lines. |
| FindHandles.ActiveRides | crates/matcha-core/src/find.rs:800-990 | The active start maps through a patch exactly as the active match's own start does. |
| FindHandles.TrimToCap | crates/matcha-core/src/find.rs:959-974 | Cutting at the match past the cap leaves the first cap of them and every other decoration. |
| Find.FindState.RepairLiteral | crates/matcha-core/src/find.rs:841-941 | The loop over the edits on the store ends with the set mended edit by edit, or fails exactly where a slice on the way does, and keeps the active handle with its match or remembers where it was. |
| Find.FindState.RepairLines | crates/matcha-core/src/find.rs:841-943 | The line-scoped loop does the same and never fails. |
| Find.FindState.OnCommit | crates/matcha-core/src/find.rs:800-990 | For every state a search can be in, every scope and every multi-edit patch: it fails exactly when a slice does, and otherwise list, flags, scope and cover are the machine's, the scope took in exactly what was typed in it, other decorations are untouched, and an active match stays active if a match starts where it now starts. |
| Find.FindState.Commit | crates/matcha-core/src/document.rs:2647-2660 | The two halves of a commit together (decorations ride, then matches are repaired) take the search from any state exactly where the machine goes, or fail exactly where it does, with no assumption about the other decorations, which all ride; the scope takes in exactly what was typed in it. |
| Find.FindState.TransferActive | crates/matcha-core/src/find.rs:942-952 | Activity moves to the match starting where the removed one started, or is dropped. |
| Find.FindState.SettleCap | crates/matcha-core/src/find.rs:953-980 | Over the cap, the set is cut to its first cap's worth, marked capped and full, and covers up to its last match; otherwise only staleness is noted. |
| Find.FindState.Rescan | crates/matcha-core/src/find.rs:1019-1049 | The search is exactly the fresh one of its query and scope; other decorations are untouched; the active match survives exactly when a match starts where it started. |
| Find.FindState.SetQuery | crates/matcha-core/src/find.rs:712-737 | An equal query changes nothing; a new one clears the active match and leaves exactly the fresh search, beside untouched other decorations: of a literal, the places where the needle stands under its case rule, leftmost first, up to the cap. |
| Find.FindState.SetScope | crates/matcha-core/src/find.rs:690-703 | An empty stretch clears the scope, an equal one changes nothing, and a new one is scanned at once. |
| Find.FindState.MaybeRescan | crates/matcha-core/src/find.rs:754-763 | A refill happens exactly for a query in force, a capped set with room below the cap, and the debounce run out since the last scan, and then leaves the fresh search. |
| FindRuns.RunHolds | crates/matcha-core/src/find.rs:690-989 | Wherever a run of any acts ends, nothing is listed but matches, in order, within the cap and inside what the search covers. |
| FindRuns.KeepsUpCompletes | crates/matcha-core/src/find.rs:800-990 | Of a complete set a commit the repair keeps up with makes a complete one, and, self-overlapping needles aside, no other commit does that leaves the scope some text. |
| FindRuns.RunCompletes | crates/matcha-core/src/find.rs:690-989 | After a run of acts the repair keeps up with, the matches are complete as far as the search says and, self-overlapping needles aside, exactly a fresh scan of what it covers. |
| FindRuns.Take | crates/matcha-core/src/find.rs:690-989 | From every state, a commit, a query, a scope, a refill, a navigation or another decoration takes state and store exactly where the machine goes, or fails exactly where it does. |
| FindRuns.Play | crates/matcha-core/src/find.rs:690-989 | So does every run of such acts, with no condition on the commits but that they are patches between texts. |
| FindRuns.Session | crates/matcha-core/src/find.rs:615-621 | A whole session from an empty store and no query on is such a run. |
| FindLapses.PasteOverTheCap | crates/matcha-core/src/find.rs:919-976 | A run that pastes more matches than the cap: the commit raises no flag, and the list is the fresh scan up to the cap. |
| FindLapses.TakeScopeAway | crates/matcha-core/src/find.rs:822-840 | A run that deletes a scope's text: the search is of the whole text again, raises no flag, and misses the text's only match. |
| FindLapses.LeaveScopeBehind | crates/matcha-core/src/find.rs:800-809 | A run that types before a scope while nothing is searched for: the scope stays on its old offsets. |
| FindLapses.EdgeStays | crates/matcha-core/src/patch.rs:201-214 | Where edits' new texts begin and end on characters, an edge lands on one if and only if it lay on one or at an edit and, strictly inside an edit's old text, the place it is clamped to is on one. |
| FindLapses.EdgeInsideACharacter | crates/matcha-core/src/find.rs:834-935 | A run that replaces two letters, the scope starting between them, by one character: the commit's slice fails. |
| FindLapses.EdgeBesideTyping | crates/matcha-core/src/document.rs:2149-2151 | A run that keeps to a scope starting inside a character and types beside it, replacing nothing: the commit's slice fails. |
| FindWalks.RankIsFirstFrom | crates/matcha-core/src/find.rs:1056-1093 | The rank query is the index of the first match from the offset in the full ordered list. |
| FindWalks.PickIsWalk | crates/matcha-core/src/find.rs:1056-1093 | The ordinal arithmetic, wrap-around included, picks what walking the full list picks, in both directions. |
| Find.FindState.Navigate | crates/matcha-core/src/find.rs:1056-1093 | The match picked by three ordinal queries is the full-list walk's, and the active identity and start are that match's. |
| FoldRoots.RootRegions | crates/matcha-core/src/fold_map.rs:284-295 | The push-or-skip loop computes the pure reduction of sorted blocks. |
| FoldRoots.RootsHideTheSame | crates/matcha-core/src/fold_map.rs:284-295 | The roots share no row, and hide exactly the rows the blocks hide if and only if no skipped block outlasts the root that swallows it. |
| FoldRoots.LaminarHidesTheSame | crates/matcha-core/src/fold_map.rs:284-295 | Blocks pairwise nested or sharing no row lose no hidden row to the reduction. |
| FoldRoots.SharedRowLosesABlock | crates/matcha-core/src/fold_map.rs:284-295 | Two concrete blocks sharing one row, of which the reduction forgets one. |
| FoldInlines.RootInline | crates/matcha-core/src/fold_map.rs:319-328 | The inline reduction loop computes the pure one. |
| FoldInlines.SortInlineSorts | crates/matcha-core/src/fold_map.rs:319-328 | The sort of the inline folds keeps every one of them, by opener, and of two that open together the outer first. |
| FoldInlines.RootsApart | crates/matcha-core/src/fold_map.rs:319-328 | Of pairs that nest or lie apart, the roots lie apart in rising order. |
| FoldInlines.OverlapsCorrect | crates/matcha-core/src/fold_map.rs:728-736 | One seek decides whether any stored fold meets a range. |
| FoldRows.VisibleRoundTrip | crates/matcha-core/src/fold_map.rs:815-825 | Every visible buffer row maps to a display row in range and back to itself. |
| FoldRows.DisplayRoundTrip | crates/matcha-core/src/fold_map.rs:830-836 | Every display row maps to a visible buffer row and back to itself. |
| FoldRows.ToBufferRowRises | crates/matcha-core/src/fold_map.rs:830-836 | Display-to-buffer is strictly increasing. |
| FoldRows.HiddenClipsToHeader | crates/matcha-core/src/fold_map.rs:742-825 | Every hidden row, the tail row included, maps to its visible header's display row. |
| FoldRows.FoldContainingCorrect | crates/matcha-core/src/fold_map.rs:877-882 | A row is reported folded exactly when a block hides it, with that block. |
| FoldRows.FoldAtHeaderCorrect | crates/matcha-core/src/fold_map.rs:887-891 | A header answers with a tail exactly when that block is folded. |
| FoldRows.HeaderOfTailCorrect | crates/matcha-core/src/fold_map.rs:899-908 | A tail answers with a header exactly when that block is folded. |
| FoldRows.TailInvertsHeader | crates/matcha-core/src/fold_map.rs:887-908 | The two lookups invert each other. |
| FoldPairs.FreshBlocksMove | crates/matcha-core/src/fold_map.rs:561-616 | Around an edit outside every pair, the freshly resolved blocks of the new text are the old ones with a suffix shifted by the row change. |
| FoldPairs.FreshInlineMoves | crates/matcha-core/src/fold_map.rs:624-652 | The same for inline folds, by bytes and rows. |
| FoldPairs.FreshMembers | crates/matcha-core/src/fold_map.rs:319-328 | The inline folds of a fresh build are exactly the pairs on one row with something between their brackets, around which no other such pair stands. |
| FoldPairs.SingleLineHidden | crates/matcha-core/src/fold_map.rs:319-328 | Every folded pair on one row with something between its brackets lies in a stored fold of its row. |
| FoldPairs.SpannedRowsHidden | crates/matcha-core/src/fold_map.rs:284-295 | While the blocks nest or share no row, the rows a fresh build hides are exactly those that some folded pair spans below its opener's. |
| FoldCarries.OutsideKeeps | crates/matcha-core/src/fold_map.rs:624-652 | Edits outside every folded pair replace no bracket, and the pairs that show as single-line folds are the ones that did. |
| FoldCarries.SeamFollows | crates/matcha-core/src/fold_map.rs:625-644 | The seam shift of one edit that touches no stored fold takes every fold with its brackets, on the row they are on now, whatever rows the edit adds. |
| FoldCarries.RideIsFresh | crates/matcha-core/src/fold_map.rs:645-651 | Of edits that replace no folded bracket, the fallback takes a fold with its brackets exactly if its opener is still on its row and no insertion is stacked on a bracket, and gives the fresh folds exactly if that holds of every fold and the pairs that show are the ones that did. |
| FoldCarries.OneEditSteady | crates/matcha-core/src/fold_map.rs:645-651 | One edit that changes no row count, in a fold or out, leaves every fold on its row with nothing stacked. |
| FoldMaps.FoldMap.constructor | crates/matcha-core/src/fold_map.rs:657-672 | A built map holds exactly the roots of the resolved pairs. |
| FoldMaps.FoldMap.ShiftBlocks | crates/matcha-core/src/fold_map.rs:575-611 | One rewritten gap turns the stored blocks into the freshly resolved ones, and the straddle guard never fires for an edit outside every pair. |
| FoldMaps.FoldMap.ShiftInline | crates/matcha-core/src/fold_map.rs:624-652 | For every patch that replaces no folded bracket each fold goes with its brackets, by the seam always and by the fallback exactly where `RideIsFresh` says, and together they are the freshly resolved folds of the carried pairs exactly when all do and the pairs that show are the ones that did; for one edit outside every pair they always are. |
| FoldMaps.FoldMap.ApplyPatch | crates/matcha-core/src/fold_map.rs:561-616 | For one edit outside every pair, with blocks nested or sharing no row before and after: when the map reports success it is a fresh build over the moved pairs; it declines exactly when the edit changes the row count and meets an inline fold. For any edits that replace no folded bracket and change no row count: outside every pair the inline folds are the fresh ones exactly when each is still on its row and nothing is stacked on its brackets; one edit, in a fold or out, gives a fresh build exactly when the pairs that show are the ones that did; so do several that leave every bracket on its row and stack nothing. For every patch, no row change means success, a row change by several edits or across an inline fold means declining, and declining changes nothing. |
| FoldMaps.RowLeftBehind | crates/matcha-core/src/fold_map.rs:645-651 | Two concrete edits, one adding a line break above a folded line and one removing the break below it: the fold keeps the row it was on. |
| FoldMaps.OpenerLeftBehind | crates/matcha-core/src/fold_map.rs:645-651 | Two concrete touching edits before a fold: its opener lands on the byte typed instead of its bracket. |
| EditBatches.ReversedReplays | crates/matcha-core/src/transaction.rs:101-116 | Replaying an ordered batch back to front, one op at a time, gives the batch's text, ties at one offset included. |
| EditBatches.UndoRestores | crates/matcha-core/src/transaction.rs:100-104 | Applying the inverse batch restores the text. |
| EditBatches.InverseTwice | crates/matcha-core/src/transaction.rs:206-220 | The inverse of the inverse is the batch. |
| EditBatches.PatchRewrites | crates/matcha-core/src/transaction.rs:206-220 | The patch a batch hands out is well formed and copies every gap between the two texts. |
| EditBatches.RebuildOnce | crates/matcha-core/src/rope.rs:266-288 | The single-pass rebuild gives the batch's text. |
| EditBatches.SpliceDescending | crates/matcha-core/src/rope.rs:255-264 | The descending splices give the same text. |
| Transactions.Buffer.EditMany | crates/matcha-core/src/buffer.rs:461-482 | Either path, chosen by density, gives the batch's text. |
| Transactions.Buffer.Apply | crates/matcha-core/src/transaction.rs:164-234 | Overlap and overflow are reported exactly when the normalised batch overlaps or grows past the limit and change nothing; a commit moves the revision by one, applies the sorted batch, and reports its inverse and a patch between the two texts. |
| Transactions.OneOpApplied | crates/matcha-core/src/transaction.rs:165-180 | An op puts its text, line ends folded, in place of the whole characters its range touches: from the last character boundary at or before its lesser end to the first at or after its greater, clamped to the text. |
| Transactions.SortOpsStable | crates/matcha-core/src/transaction.rs:185-186 | The sort orders a batch by start and leaves ops at one place in the caller's order. |
| Transactions.LineEndFolds | crates/matcha-core/src/transaction.rs:171-175 | CRLF, a lone CR and LF each become one newline, wherever they stand, and the rest of the text is kept. |
| Transactions.PastedLineEnd | crates/matcha-core/src/transaction.rs:165-180 | Text pasted at a character boundary arrives between the two halves of the text with each line end one newline. |
| Transactions.InverseReady | crates/matcha-core/src/transaction.rs:206-220 | The inverse batch is one the engine applies as it stands, to the new text. |
| Transactions.ReadyCommits | crates/matcha-core/src/transaction.rs:164-234 | A batch the engine once applied normalises to itself and never overlaps. |
| Transactions.ApplyThenUndo | crates/matcha-core/src/transaction.rs:164-234 | Forward then inverse is the identity on held texts, and the inverse's inverse is the forward batch. |
| UndoTrees.RecordedGood | crates/matcha-core/src/history.rs:190-229 | Recording, merging or growing, keeps the tree invariant: parents before children, every node on the current line preferred by its parent, an open element a leaf, versions never reused. |
| UndoTrees.SelectedGood | crates/matcha-core/src/history.rs:344-350 | Selecting a branch keeps the invariant. |
| UndoTrees.SelectThenRedo | crates/matcha-core/src/history.rs:316-350 | Redo after choosing the `i`-th branch stands at the `i`-th child in order of recording, whichever was preferred, in a good state with the same tree. |
| UndoTrees.YoungestBranch | crates/matcha-core/src/history.rs:190-229 | A new branch is listed after those there are, is the one redo takes, and changes no other node. |
| UndoTrees.UndoRedo | crates/matcha-core/src/history.rs:295-333 | In every good state, undo then redo returns to the same node, version and tree. |
| UndoTrees.RedoUndo | crates/matcha-core/src/history.rs:295-333 | In every good state, redo then undo returns to the same node, version and tree. |
| UndoTrees.CleanIsSaved | crates/matcha-core/src/history.rs:361-363 | In every good state, equal version ids imply that the current text is the saved one. |
| UndoPruning.ListSubtree | crates/matcha-core/src/history.rs:254-270 | The worklist numbers exactly the subtree of the new base, each node once, parents first. |
| UndoPruning.PrunedGood | crates/matcha-core/src/history.rs:254-287 | The renumbered tree is good, keeps the current text, and loses exactly the new base's depth. |
| UndoPruning.PruningIsInvisible | crates/matcha-core/src/history.rs:235-287 | Any run of undo, redo and branch selection that never climbs above the base shows the same replayed batches, versions, dirtiness and branch counts in the pruned tree as in the whole one. |
| UndoPruning.PruningKeepsTheTexts | crates/matcha-core/src/history.rs:235-287 | Over any such run the pruned tree stands at the same text as the whole one after every move. |
| Histories.Replay | crates/matcha-core/src/history.rs:377-388 | Replaying batches through the engine reaches the target text, one revision a batch, with a linked trail. |
| Histories.History.Record | crates/matcha-core/src/history.rs:190-229 | The new state is the recorded one, or its pruned form at exactly the limit; undo depth never exceeds the limit. |
| Histories.History.RebuildFrom | crates/matcha-core/src/history.rs:254-287 | The arena becomes the renumbered subtree, invisibly below the base, and the depth falls by the base's. |
| Histories.History.PruneIfNeeded | crates/matcha-core/src/history.rs:235-248 | Prunes exactly when the depth exceeds the limit, to exactly the limit. |
| Histories.History.SetMaxUndo | crates/matcha-core/src/history.rs:156-159 | Sets the limit and prunes at once, exactly as far as it asks. |
| Histories.History.UndoDepth | crates/matcha-core/src/history.rs:162-170 | The parent walk counts the current depth. |
| Histories.History.Undo | crates/matcha-core/src/history.rs:295-312 | The buffer reaches the parent's text through a linked trail, and the state is the pure undo of the old one. |
| Histories.History.Redo | crates/matcha-core/src/history.rs:317-333 | The buffer reaches the preferred child's text through a linked trail, and the state is the pure redo of the old one. |
| Histories.History.RedoBranchCount | crates/matcha-core/src/history.rs:337-339 | The number of branches that part from the current node. |
| Histories.History.SelectRedoBranch | crates/matcha-core/src/history.rs:344-350 | Out-of-range choices are refused; otherwise only the preference changes, to the child of that index. |
| Histories.History.Seal | crates/matcha-core/src/history.rs:356-358 | Only closes the open unit. |
| Histories.History.IsDirty | crates/matcha-core/src/history.rs:361-363 | Compares version ids; not dirty implies the text is the saved one. |
| Histories.History.MarkSaved | crates/matcha-core/src/history.rs:366-368 | The current version and text become the saved ones. |
| ChangeLogs.ChainGrows | crates/matcha-core/src/document.rs:286-296 | A commit on the live text extends a chain by one entry. |
| ChangeLogs.ChangeLog.Capture | crates/matcha-core/src/document.rs:278-280 | A snapshot is taken exactly when the log will use it. |
| ChangeLogs.ChangeLog.Record | crates/matcha-core/src/document.rs:286-296 | Appends one reversed entry and keeps the chain, or breaks a full log. |
| ChangeLogs.ChangeLog.Set | crates/matcha-core/src/document.rs:298-302 | Starts a fresh chain at the given revision or drops everything. |
| ChangeLogs.ChangeLog.Drain | crates/matcha-core/src/document.rs:306-312 | When a start is named, entry `i` starts at that revision plus `i`, replaying each entry reaches the next one's text and the last reaches the live text; the next chain starts here. |
| Documents.Document.EditGrouped | crates/matcha-core/src/document.rs:1133-1233 | One commit moves buffer, history and log together: applied text, recorded (or pruned) history, one more chained entry or a broken log; a failed or empty batch changes none of them. |
| Documents.Document.LogTrail | crates/matcha-core/src/document.rs:1280-1307 | Every replayed step is logged as a commit of its own, and a full log breaks and stays broken. |
| Documents.Document.Undo | crates/matcha-core/src/document.rs:1266-1307 | Undo seals the open unit and then moves buffer, history and log together, the chain kept. |
| Documents.Document.Redo | crates/matcha-core/src/document.rs:1311-1343 | Redo seals the open unit, whether or not there is anything to redo, and then moves buffer, history and log together, the chain kept. |
| Documents.Document.RedoBranchCount | crates/matcha-core/src/document.rs:1374-1376 | Answers with the history's branches at the current position. |
| Documents.Document.SelectRedoBranch | crates/matcha-core/src/document.rs:1382-1384 | Refuses an index out of range and changes nothing; otherwise only steers the next redo. |
| Documents.Document.SealUndo | crates/matcha-core/src/document.rs:768-787 | Only closes the open undo group; text, log and what was saved stay. |
| Documents.Document.SetUndoLimit | crates/matcha-core/src/document.rs:1390-1392 | Sets the limit and prunes at once exactly as far as it asks; text, log and what was saved stay. |
| Documents.Document.ObserveChanges | crates/matcha-core/src/document.rs:1243-1246 | Switching starts an empty chain at the live revision, or stops. |
| Documents.Document.DrainChanges | crates/matcha-core/src/document.rs:1253-1256 | Hands out the log as it stood; a named start chains to the live document. |
| Documents.Document.IsDirty | crates/matcha-core/src/document.rs:1347-1349 | Dirty is a difference of version ids; not dirty implies that the live text is the one last saved, over every run of the document's commands: edits, undo, redo, branch choice, sealing, undo limits, logging and saving. |
| Documents.Document.MarkSaved | crates/matcha-core/src/document.rs:1352-1354 | The live text becomes the saved one. |

## Left out

Weaker than the code's promise, with the reason:

- FindModes.CommitFollows: of a self-overlapping needle it promises the list only within the cap, because it is false past it (`FindPhases.RepairIsFreshIff`).
- FindModes.CommitCompletes: of a self-overlapping needle past the cap it does not say when the set stays complete.
- FindModes.CollapseCompletes: the closed condition is for one edit; after several that take a scope away the list is given by the repairs in order (`FindModes.Rode`).
- Find.FindState.Commit: covers the decoration move and the match repair of one commit; the bracket, fold and inlay movers called beside them are proved on their own.
- Find.FindState.RepairLiteral: a slice inside a character ends the method with a failure, where the source panics; what the document does after a panic is not part of this model.
- FindMatches.MaximalIsFreshList: the fresh list is promised only for needles that cannot overlap themselves, because it is false of the others (`FindRepair.PhaseMayDiffer`).
- BracketEngine.WindowReconciles: for the configuration without comments and strings; with them the regions are widened to lines, while the folds ride the commit's own patch.
- FoldMaps.FoldMap.ApplyPatch: a patch that replaces a folded bracket is only promised to leave a valid map, and there the callers owe that the ridden inline folds come out ascending: they unfold what an edit cuts into first. One edit that changes the row count is compared with a fresh build when it lies outside every folded pair.
- FoldMaps.FoldMap.ShiftInline: a patch that replaces a folded bracket is only promised to leave a valid tree.
- BracketEdits.LineAlignedRegions: comment markers containing a newline are excluded (`LineLocal`); the lexer is not line-local for them.
- BracketEngine.ApplyEdit: the same exclusion of markers containing a newline.
- BracketEngine.WindowIsComplete: speaks of the regions' patch that `ApplyEdit` returns, and so of every update that takes the region loop; the empty window, which the bulk path always returns, is covered by `SameMatching` in the contracts of `ApplyEdit` and `BracketStore.Apply`.
- BracketEngine.BracketStore.Apply: the same exclusion of markers containing a newline.
- BracketText.LexConcat: the same exclusion of markers containing a newline.
- BracketEdits.SpliceAll: the same exclusion of markers containing a newline.
- SumTrees.SplitAt: splits by item count, the dimension every caller in the crate splits by.
- SumTrees.Replace: takes its range by item count, likewise.
- FindResults.CompleteIsFresh: self-overlapping literals are excepted, because the equality is false of them.
- Histories.Replay: rebases no selections, which are not part of the document here.
- Histories.History.Undo: likewise without selections.
- Histories.History.Redo: likewise without selections.
- Documents.Document.Undo: moves the buffer, the history and the log; the derived views that the document rebases beside them are not part of it here.
- Documents.Document.Redo: likewise.
- Documents.Document.EditGrouped: moves the buffer, the history and the log; selections, brackets, folds and highlighting are not part of the document here.

Not modelled:

- B-tree balance, arity bounds and operation counts: results hold for every tree shape.
- The summary tree's cached child summaries, `for_each_in_range` and `bucketed_reduce`, and with them the diagnostic and find overviews.
- 32-bit arithmetic below the size bound, saturating additions and debug assertions.
- The rope's chunks and UTF-8 beyond character boundaries.
- The regular-expression engine, whole-word compilation and case-preserving replacement: the compiled per-line matcher is an arbitrary function.
- The clock itself: the times of scans and refills are parameters.
- Diagnostics publishing, `replace_all`, `take_decoration` and `set_decoration_stickiness` of the store.
- Fold toggling, `entry_edge_if_hidden` and display windows: folded pairs are given.
- The fold set's tree and the gate before fold reconciling (what is reconciled is proved on sets of openers), the fold-map cache, selections, carets, `scan_from`, `expanded_range`, auto-close.
- `display_map.rs`: tab expansion and display chunks.
- Bracket queries that only recombine the proved ones: `in_range`, `active_pair`, `enclosing_or_touching_pairs`, `innermost_open`.
- Line-ending normalisation on load and serialisation; the buffer folds CR and CRLF in inserted text, as `transaction.rs` does.
- Highlighting, language servers, rendering and other user interface code.
