# Verification model of Toi

Toi is a small indentation-based scripting language: a C compiler to bytecode with a peephole optimizer, a stack VM
with tables and a mark-and-sweep collector, and libraries for data formats and for an ordered key-value store. This
project models its most intricate parts in Dafny, in the form the C code has (loops over pages, linked lists, parser
positions and growing buffers), and proves what they are for.

| files | part |
|---|---|
| `Bytes`, `Options`, `Atoms`, `Numbers`, `SlottedPage`, `Nodes`, `OrderedEntries`, `BTreeShape`, `PagePool`, `Capacity`, `BTreeRefusal`, `BTreeSteps`, `BTreeLoss`, `BTree` | the ordered store `btree`: slotted pages, splits, merges of empty pages, separators, free list, range scans |
| `Bytecode`, `Arithmetic`, `Peephole`, `Layout`, `Simulation`, `Equivalence`, `OptimizedCode`, `OptimizerLimits`, `StackTypes`, `Optimizer` | the bytecode optimizer, on the numeric fragment of the instruction set |
| `Reachability`, `HeapGraph`, `Collector` | marking, sweeping and the list of all objects |
| `HashTable`, `TableArray`, `TableClone`, `TableSort` | tables: open addressing, array part, deep clone, sort with a comparator |
| `Upvalues` | captured variables |
| `Scan`, `Lexemes`, `Lexer`, `LineTokens`, `Formatter`, `LongStrings`, `FormatLayout` | indentation-sensitive scanning, source formatting, and what formatting does to the tokens of a program |
| `Json`, `JsonRoundTrip`, `JsonTexts`, `JsonNulls`, `JsonCodec` | JSON |
| `BinaryFormat`, `BinaryRoundTrip`, `BinaryCodec` | the binary format |
| `Csv` | CSV |

How the parts are stated:

- **Ordered store.** `BTreeDb` is the record with its page array and header fields; ghost fields give the tree the
  pages stand for, the list of free pages and the pages refused puts have lost. `Valid` ties them to the bytes: each
  page of the tree loads as its node, separators are the first keys of their subtrees, the entries are strictly sorted,
  and all page ids are split between these three. Puts keep it even when refused, deletes when they succeed, and all
  are stated on the sorted entries, which refine a map.
- **Optimizer.** `Choose` says which rewrite applies at a place, in the order of the C code; `Translates` says what the
  output of the whole pass is. A small-step machine over numbers, booleans, nil and locals gives programs a meaning,
  and the simulation is proved place by place with its exact condition, then over whole executions in both directions.
- **Formats, lexer and formatter.** A functional description of encoder and decoder, of the scan and of the format is
  connected to the C-shaped methods by their contracts; the round trips, and what formatting does to the tokens, are
  lemmas about the descriptions.
- **What the descriptions mean** is proved apart from them: the order of keys from the bits of a double (`Numbers`),
  each opcode (`Arithmetic`), the edges of the heap field by field (`HeapGraph.ChildrenAreFields`), lexemes by positions
  and how tokens cover a text (`Lexemes`), when a string is open (`LongStrings`), the grammar of JSON (`JsonTexts`).

What the code does where its documentation or a reader may expect something else:

- A refused put can cost entries that were stored before, since the left half of a split page is written before the
  right half is found too large (`BTree.RefusedPutLosesAnEntry`, and exactly which in `BTree.BTreeDb.BtreePut`).
- A delete can be refused, among short keys too, because the next key is longer (`BTreeRefusal.OverflowExists`).
- Two separators of 2035 bytes and more leave an internal node without separators (`Capacity.BareSplitsFrom`).
- The optimizer turns `true + 0` from an error into `true` (`OptimizerLimits.IdentityOnBoolean`), and a folded constant
  with index 256 is loaded from index 0 (`OptimizerLimits.FoldingPastTheTable`).
- The formatter lets comments open and close indents, which the lexer does not. So it can move code out of its block
  when a comment stands deeper than the code behind it (`FormatLayout.DeepComment`) and when one stands shallower than
  the open blocks (`FormatLayout.ShallowComment`); it does so exactly when `FormatLayout.FormatKeepsTokens` says.
- A CSV text that ends in a newline is rejected (`Csv.TrailingNewline`).
- A JSON array that begins with eight or more nulls loses the value behind them (`JsonNulls.ValueAfterNulls`).

`dafny verify dfyconfig.toml` checks the whole project.

## Model

| member | source | states |
|---|---|---|
| `BTree.BTreeDb.ApplyAll` | src/lib/btree.c:864-905 | Any sequence of puts on an empty store, and any sequence of puts and deletes with keys of at most 2034 encoded bytes: as long as all report success, the store is valid and its contents are the ordered map given the same operations. A delete is refused only when the next key is longer than the deleted one; a fresh small entry among small entries only when the host has no more pages. |
| `BTree.BTreeDb.Apply` | src/lib/btree.c:1136-1147 | One operation of such a sequence does to the sorted contents what the map operation does, loses no page, and keeps a separator in every internal node while keys are short; a put keeps the invariant even when it is refused. |
| `BTree.BTreeDb.BtreePut` | src/lib/btree.c:864-905 | Over any tree shape, success means the old entries with this one stored and no page lost. It is refused exactly when the sizes in the tree, followed down the route and up through the splits, leave no room, or for want of pages. The store is a valid search tree either way. A refused overwrite changes nothing; a refused fresh entry leaves the tree as it was or loses one run of entries that does not begin at the front, and when the pages asked for could be had, the entries left are exactly `AfterRefusal` of the old tree. |
| `BTreeLoss.AfterAt` | src/lib/btree.c:722-777 | Which entries a refused insertion leaves below a node: what the routed child leaves, or, after the child split, the left half of the node if that fits its page, and else all but the right half of the child. |
| `BTreeLoss.HalfStays` | src/lib/btree.c:755-764 | A node refused after its left half was written is a search tree again, with exactly the entries below its middle separator. |
| `BTreeLoss.SplitRemains` | src/lib/btree.c:722-735 | A node that stays unwritten after its child split is a search tree again, with exactly the entries of the right half of the child gone. |
| `BTreeLoss.LeafRemains` | src/lib/btree.c:645-664 | A leaf refused after its left half was written holds the goal less one run. |
| `BTree.BTreeDb.GrowRoot` | src/lib/btree.c:884-905 | After a split root a new root above both halves holds the goal; without a page for it the left half alone stays, and the right one is lost. |
| `BTree.BTreeDb.BtreeDelete` | src/lib/btree.c:1136-1147 | Success removes exactly the key's entry and reports whether it was there; pages that empty are freed. It is refused exactly when some node of the tree has the key as separator of a child that keeps entries and overflows with the next key in its place; so never when the next key is not longer, and never among keys of one size. Nodes without separators are allowed: only the deletion of the last entry of a leaf right under one is not. |
| `BTreeRefusal.BranchingStrandsNone` | src/lib/btree.c:1053-1055 | In a tree whose internal nodes all have separators no deletion takes the only child of a node. |
| `BTree.BTreeDb.BtreeGetValue` | src/lib/btree.c:834-862 | Descending by separators finds a value exactly when the sorted contents have the key, and that value; it never reports an error on a valid store. |
| `BTree.BTreeDb.BtreeRange` | src/lib/btree.c:1506-1585 | A range scan returns, strictly increasing in key, the first `limit` entries of the contents with min <= key <= max, as many as there are up to the limit, over any valid tree shape; crossed bounds and limit 0 give none. |
| `BTree.BTreeDb.CollectRange` | src/lib/btree.c:1328-1388 | Scanning one subtree appends exactly its entries in range to those found before, cut at the limit; the early exit on a key above the maximum loses nothing. |
| `BTree.BTreeDb.CollectLeaf` | src/lib/btree.c:1335-1362 | The leaf part: the entries in range, with the same cut. |
| `BTree.BTreeDb.PagesConserved` | src/lib/btree.c:534-576 | Every page id in 1..page_count-1 is reached from the root exactly once, or on the free list exactly once, or lost by a refused put; no other id is any of these, and the free list is a finite chain of free pages from the header. |
| `BTree.BTreeDb.OpenMemory` | src/lib/btree.c:1241-1265 | A fresh store is valid and empty, unless the host cannot give four pages. |
| `BTree.BTreeDb.InsertRecursive` | src/lib/btree.c:818-832 | Insertion below one page: the subtree, or the two it split into around a promoted key, holds exactly the old entries with the new one; or it is refused, and the page still roots a search tree, the old one or one that lost a run. The pages of the rest of the store do not change, and every page is accounted for. |
| `BTree.BTreeDb.InternalInsert` | src/lib/btree.c:706-777 | Insertion at an internal node, through its routed child: same statement for the whole subtree. |
| `BTree.BTreeDb.AfterChildInsert` | src/lib/btree.c:722-777 | What an internal node does with the result of its child: nothing if the child did not split, else the promoted separator goes in and the node is written whole or split. |
| `BTree.BTreeDb.InternalGrow` | src/lib/btree.c:735-777 | An internal node with one more separator is written whole exactly when it fits, split around its middle separator exactly when only both halves fit, and refused exactly otherwise or for want of a page; then its page is as it was or holds the left half, which it does exactly when that fits. |
| `BTree.BTreeDb.LeafInsert` | src/lib/btree.c:616-677 | Exact success condition of a leaf insertion: an overwrite succeeds iff the changed leaf fits its page and otherwise leaves everything unchanged; a fresh entry succeeds iff all fits one page or both halves fit (and a page can be had), and a refused one leaves the page as it was except when only the left half fits, which is then all that is left. |
| `BTree.BTreeDb.LeafOverwrite` | src/lib/btree.c:621-630 | An overwrite never splits: it succeeds iff the changed leaf fits. |
| `BTree.BTreeDb.LeafAdd` | src/lib/btree.c:632-677 | A fresh entry: written whole or split by count, with the exact condition and what a refusal leaves behind. |
| `BTree.BTreeDb.LeafSplit` | src/lib/btree.c:645-677 | The split itself: left half in place, right half on a new page, or neither, or only the left one. |
| `BTree.BTreeDb.LeafBuildWithInsert` | src/lib/btree.c:679-704 | The copying loop leaves a gap at the position and fills it with the new entry. |
| `BTree.BTreeDb.InternalBuildWithInsert` | src/lib/btree.c:779-816 | The copying loop puts the promoted separator at its index. |
| `BTree.BTreeDb.FindRoute` | src/lib/btree.c:595-607 | The routed child is the one behind the last separator not above the key. |
| `BTree.BTreeDb.DeleteRecursive` | src/lib/btree.c:1120-1134 | Deletion below one page: a missing key changes no page; a present one leaves a subtree with exactly that entry gone, or no subtree at all, its pages freed; the new first key is reported when it changed; refused exactly when a node of the subtree overflows with the next key as separator. |
| `BTree.BTreeDb.DeleteLeaf` | src/lib/btree.c:983-1020 | Deletion in a leaf: the entry goes; a leaf left empty is freed unless it is the root. |
| `BTree.BTreeDb.DeleteInternal` | src/lib/btree.c:1022-1118 | Deletion at an internal node through its routed child: same statement, and the same exact refusal, for the whole subtree. |
| `BTree.BTreeDb.RepairedNode` | src/lib/btree.c:1036-1088 | The separators after the deletion: the one in front of a child whose first key changed is that new first key; a child that went takes its separator along. |
| `BTree.BTreeDb.SettleNode` | src/lib/btree.c:1088-1118 | A node left with one child is replaced by it and its page freed; any other node is written back. |
| `BTree.BTreeDb.SubtreeMinKey` | src/lib/btree.c:927-944 | The key at the far left is the first key of the subtree's contents. |
| `BTree.RefusedPutLosesAnEntry` | src/lib/btree.c:659-664 | A concrete store: after two puts a third, too large one is refused, and the store is left with the first entry alone. |
| `BTree.BTreeDb.LeafRemoveAt` | src/lib/btree.c:946-954 | The shifting loop drops exactly the entry at the index. |
| `BTree.BTreeDb.InternalRemoveSlot` | src/lib/btree.c:956-978 | Removing child 0 makes the first separator's child the leftmost; removing a later one drops its separator. |
| `BTree.BTreeDb.AllocPage` | src/lib/btree.c:534-563 | Gives a page that was in no use, from the free list first; pages in use keep their bytes; it fails only when no page is free and the host allows no more, and then changes nothing. |
| `BTree.BTreeDb.FreePage` | src/lib/btree.c:565-576 | Refuses exactly the root among live pages; else the page moves from live to the head of the free list and no live page changes. |
| `BTree.BTreeDb.NodeWrite` | src/lib/btree.c:484-514 | Succeeds iff the node's encoded size fits the page; what is stored then loads as exactly that node, and no other page changes; a refusal changes nothing. |
| `BTree.BTreeDb.NodeLoad` | src/lib/btree.c:377-441 | Gives the node a page stands for, or nothing for an unknown page id. |
| `BTree.BTreeDb.EnsurePages` | src/lib/btree.c:276-289 | Any request: the page area becomes the smallest doubling (from four pages) that is large enough, its old pages kept and the new ones zero, exactly when the host allows that many. |
| `BTree.BTreeDb.WritePage` | src/lib/btree.c:301-310 | Exactly the one page changes; writing within the area never fails, writing beyond it grows the area first. |
| `BTree.BTreeDb.WriteHeader` | src/lib/btree.c:312-321 | Page 0 holds the current root, page count and free head; no other page changes. |
| `OrderedEntries.RunRefinesMap` | src/lib/btree.c:609-677 | After any sequence of puts and deletes the entry list is strictly sorted and every lookup is that of the map given the same operations. |
| `OrderedEntries.PutIsUpdate` | src/lib/btree.c:616-677 | Storing an entry in the sorted list is a map update, also when the key was there. |
| `OrderedEntries.RemoveIsErase` | src/lib/btree.c:983-1020 | Deleting an entry removes exactly its key from the map. |
| `OrderedEntries.GetIsLookup` | src/lib/btree.c:834-862 | Searching the sorted list is a map lookup. |
| `OrderedEntries.FindSlot` | src/lib/btree.c:578-593 | Binary search over a sorted leaf: the position is where the key is or belongs, and found says whether it is there. |
| `OrderedEntries.BetweenIsExact` | src/lib/btree.c:1335-1362 | The range of a sorted list is sorted and holds an entry iff the list does and its key is within the bounds. |
| `OrderedEntries.RunKeys` | src/lib/btree.c:864-905 | A sequence of operations stores no key it was not given. |
| `BTreeShape.RouteIsRight` | src/lib/btree.c:595-607 | If separators are the first keys of their subtrees, the routed child is the only one where the key can be: all before are below it, all after above. |
| `BTreeShape.RepFrame` | src/lib/btree.c:377-441 | What a subtree represents depends on its own pages only. |
| `BTreeSteps.AtChild` | src/lib/btree.c:706-735 | A put, delete or lookup on the whole subtree is that operation on the routed child's contents. |
| `BTreeSteps.BadSplitExists` | src/lib/btree.c:659-664 | A concrete leaf and entry for which a refused put leaves only the left half, losing an entry stored before: why statements are about operations that report success. |
| `BTreeRefusal.RekeyedFits` | src/lib/btree.c:1056-1062 | A node with a repaired separator fits exactly when the deletion does not overflow it. |
| `BTreeRefusal.NextFits` | src/lib/btree.c:1056-1062 | No deletion is refused whose next key in order is not longer than the deleted one, over any tree. |
| `BTreeRefusal.UniformNext` | src/lib/btree.c:1056-1062 | Among keys of one size, numbers for example, no next key is longer. |
| `BTreeRefusal.OverflowExists` | src/lib/btree.c:1103-1106 | A concrete tree of short keys and a key whose deletion is refused. |
| `BTreeRefusal.OutcomeAt` | src/lib/btree.c:706-777 | What an insertion comes to at a node follows from what it comes to at the routed child: refused, absorbed, or one more separator, by sizes alone. |
| `BTreeRefusal.FirstFits` | src/lib/btree.c:884-905 | Every first key of a tree fits a page as a separator, so a new root is never refused for size. |
| `BTreeSteps.OnlyChildShrunk` | src/lib/btree.c:1090-1100 | Replacing a node without separators by its only child keeps contents, order and the search shape. |
| `BTreeSteps.NewRootIs` | src/lib/btree.c:884-905 | The new root above two halves is a valid tree with the goal's contents and one separator. |
| `Capacity.LeafHalvesFit` | src/lib/btree.c:632-661 | If every record takes at most 216 bytes with its slot and the leaf overflows by one such record, both halves by count fit a page, although records vary in size. |
| `Capacity.SepHalvesFit` | src/lib/btree.c:735-761 | The same for internal nodes with separators of at most 214 bytes, around the promoted middle one. |
| `Capacity.ShortSepsSplit` | src/lib/btree.c:735-761 | With keys of at most 2034 encoded bytes an overfull internal node has at least three separators, so neither half loses all of them. |
| `Capacity.LongSepsSplit` | src/lib/btree.c:756-757 | A concrete overfull node with two sorted 2035-byte separators whose halves fit and whose right half has no separator. |
| `Capacity.BareIsTwo` | src/lib/btree.c:756-757 | A split leaves a half without separators only when the node has exactly two. |
| `Capacity.BareSplitsFrom` | src/lib/btree.c:756-757 | Exact bound: among keys of at most k encoded bytes some split leaves a half without separators iff k passes 2034. |
| `PagePool.SplitIds` | src/lib/btree.c:534-576 | When live and free ids together are all ids once, they are in range and no page is both or twice. |
| `Nodes.BuildPage` | src/lib/btree.c:484-505 | The record-by-record building of a page succeeds iff the node fits, and then the page holds its records in order. |
| `Nodes.LoadWritten` | src/lib/btree.c:377-441 | Loading a built page gives back type, left child and all entries in order. |
| `Nodes.LoadNode` | src/lib/btree.c:377-441 | The decoding loops give the node of the page, or nothing for a page that is no node. |
| `Nodes.NodeFitsLeaf` | src/lib/btree.c:516-523 | The 32-bit sum says "fits" exactly when the leaf fits, unless two huge strings make the sum wrap. |
| `Nodes.NodeFitsInternal` | src/lib/btree.c:525-532 | The sum says "fits" exactly when the node fits. |
| `Nodes.EncodeLeafRecord` | src/lib/btree.c:443-464 | A record is refused exactly when its true size passes 16 bits, also where the 32-bit sum wraps. |
| `Nodes.EncodeInternalRecord` | src/lib/btree.c:466-482 | A separator record is refused exactly when its size passes 16 bits. |
| `SlottedPage.PageAddRecord` | src/lib/btree.c:356-375 | Succeeds iff the slot index exists and record and slot fit between slot array and records; then the page holds the old records with this one at its index; a refused record leaves the page untouched. |
| `SlottedPage.PageInit` | src/lib/btree.c:347-354 | An initialised page holds no records and all its room is free. |
| `PagePool.BuildHeader` | src/lib/btree.c:312-321 | The header page reads back as the three numbers. |
| `PagePool.BuildFreePage` | src/lib/btree.c:565-576 | A free page reads back as free, with the next free id. |
| `Atoms.DecodeEncode` | src/lib/btree.c:175-233 | Decoding undoes encoding for every key or value and says how many bytes it took, whatever follows. |
| `Atoms.CompareZero` | src/lib/btree.c:157-173 | The comparison says "same" exactly for atoms with the same key. |
| `Atoms.CompareFlips` | src/lib/btree.c:157-173 | Swapping the arguments flips the sign. |
| `Atoms.CompareTransitive` | src/lib/btree.c:157-173 | The comparison is transitive: with the two above, a total order over numbers and strings. |
| `Atoms.MemcmpIsLex` | src/lib/btree.c:157-173 | Comparing the common prefix and then the lengths is lexicographic order. |
| `Numbers.NumbersInOrder` | src/lib/btree.c:159-163 | Keys that are finite doubles compare as the numbers their sign, exponent and fraction bits stand for (section 3.4 of IEEE 754): below, equal, above; so -0.0 and 0.0 are one key. |
| `Numbers.InfinitiesAtTheEnds` | src/lib/btree.c:159-163 | The two infinities are above and below every other number. |
| `Numbers.NumbersBeforeStrings` | src/lib/btree.c:158 | Every number comes before every string. |
| `Numbers.FirstDifferenceDecides` | src/lib/btree.c:165-169 | Two strings compare as the first bytes in which they differ. |
| `Numbers.PrefixComesFirst` | src/lib/btree.c:170-172 | A string that begins another one comes before it, or is the same. |
| `Atoms.AtomFromValue` | src/lib/btree.c:124-155 | Accepts numbers that are not NaN and strings, nothing else. |
| `Atoms.ValueBack` | src/lib/btree.c:1313-1326 | A value is accepted as an atom exactly when that atom gives the same value back. |
| `Optimizer.Chunk.OptimizeChunk` | src/opt.c:157-501 | The whole pass over any well-formed chunk: the new code is a translation of the old, well-formed again and no longer; the constants are the old ones and the folded ones; each byte keeps the line of what it replaces; and both programs end with the same results from every start whose execution is harmless: dropped identities have numbers, dropped adjustments their height, and folded constants are found at their index cut to a byte. |
| `Equivalence.SameResults` | src/opt.c:201-397 | Main simulation theorem, both directions: a result (the returned stack or an error) is reached by the optimized code iff it is reached by the original. |
| `Equivalence.TranslationRuns` | src/opt.c:157-457 | Any translation of any well-formed program, with constant tables of any size, gives the same results from every harmless start. |
| `StackTypes.AssuredIsHarmless` | src/opt.c:201-397 | A condition on the code alone: if each place can be annotated with a stack height and the slots known to hold numbers (constants, results of arithmetic, counters of for loops), consistently along the code, and the annotations assure what each rewrite counts on, then every execution that begins as annotated is harmless. |
| `StackTypes.AnnotatedRuns` | src/opt.c:157-457 | Such code has exactly the same results before and after its optimization. |
| `StackTypes.AfterIsSound` | src/vm/ops_arith.c:83-253 | What an annotation says behind an instruction holds of every stack the instruction leaves, and at every place it goes on to. |
| `StackTypes.NumericParameter` | src/opt.c:243-266 | A concrete case: `x + 0` with a number as parameter loses the addition and keeps its results. |
| `Equivalence.Forward` | src/opt.c:201-457 | What the original ends with from any visited place, the optimized code ends with from its image. |
| `Equivalence.Backward` | src/opt.c:201-457 | What the optimized code ends with, the original ends with: it cannot go on forever in rewrites that emit nothing. |
| `Simulation.SimPlace` | src/opt.c:201-397 | Exact condition, rewrite by rewrite: after the steps of the original and of the new code the two machines agree iff the rewrite was harmless there (a dropped identity had a number operand; a dropped stack adjustment had its height already; the table holds the folded value at its index cut to a byte). |
| `Simulation.SimDropIdentity` | src/opt.c:243-266 | Dropping x+0, x-0, x*1, x/1 is right iff x is a number. |
| `Simulation.SimDropAdjust` | src/opt.c:219-241 | Dropping a stack adjustment behind a producer and a pop: the original then also cuts the stack to its operand. |
| `Simulation.SimFoldBinary` | src/opt.c:317-331 | Two constants and an operation push the folded value; the new code pushes what is at its index cut to a byte. |
| `Simulation.FoldedIsFound` | src/opt.c:324-331 | The cast of the index is harmless iff the index is below 256 or the constant at the cut index is the same value; so always while the table stays within 256 constants. |
| `Simulation.SimFuseLocal` | src/opt.c:268-315 | The fused update of a local does what the four instructions do, failures included. |
| `Simulation.SimJump` | src/opt.c:399-457 | A re-targeted jump takes the same side with the same stack, and its other side is the image of the old target. |
| `OptimizedCode.NeverGrows` | src/opt.c:399-457 | The code is no longer than before, and no rewritten jump reaches further than the one it copies, so distances stay within 16 bits. |
| `OptimizedCode.OptimizedIsWellFormed` | src/opt.c:157-457 | Optimized code decodes into whole instructions with known constants, and all its jumps lead to starts of instructions inside it. |
| `OptimizerLimits.IdentityOnBoolean` | src/opt.c:243-266 | A program outside the assumption: `true + 0` is an error, its optimized form returns `true`. |
| `OptimizerLimits.FoldingPastTheTable` | src/opt.c:324-331 | `a + b` on a table of any size c: the original returns the sum, the optimized code what the final table holds at c modulo 256, which from 256 on is an older constant. |
| `Layout.PatchFits` | src/opt.c:438-457 | Every recorded jump has a target with a new offset, and its new distance is between 0 and the old one. |
| `Layout.NewDistance` | src/opt.c:446-448 | The new distance of a copied jump is never negative and never longer than the old one. |
| `Layout.PatchWorks` | src/opt.c:449-457 | Writing one distance makes that jump lead to the image of its target and disturbs nothing already laid out or patched. |
| `Layout.FoldIndexIn` | src/opt.c:91-121 | A folded constant is in the final table at the index it was given, behind the original constants. |
| `Peephole.TargetsVisited` | src/opt.c:201-217 | No rewrite swallows a jump target, so every target gets a new offset. |
| `Peephole.RewriteCovers` | src/opt.c:201-397 | Each rewrite covers whole instructions and no jump target behind its first. |
| `Optimizer.MarkJumpTargets` | src/opt.c:167-199 | The marking loop marks exactly the offsets some jump leads to. |
| `Optimizer.Chunk.RewriteAll` | src/opt.c:216-436 | The rewriting loop lays out the rewrite of every visited place one behind the other, records each new offset and every copied jump. |
| `Optimizer.Chunk.RewriteAt` | src/opt.c:216-436 | One turn of the loop emits what the first applicable rewrite at this place prescribes, and adds its folded constant. |
| `Optimizer.Chunk.PatchJumps` | src/opt.c:438-457 | After the patching loop every copied jump is re-targeted. |
| `Optimizer.Chunk.FoldBinaryNumbers` | src/opt.c:91-121 | Two number constants and + - * / are folded into the number that opcode computes, added at the end of the table; nothing else is. |
| `Optimizer.Chunk.FoldUnaryNumber` | src/opt.c:123-132 | The same for negation. |
| `Arithmetic.FoldedNumbers` | src/opt.c:91-121 | Opcode by opcode, which number stands for two constants and an operation: sum, difference, product, quotient. |
| `Arithmetic.FoldedNegation` | src/opt.c:123-132 | A negated constant is the number of the other sign. |
| `Arithmetic.BinaryOpcodes` | src/vm/ops_arith.c:116-253 | Opcode by opcode, what the machine pushes for two numbers, the lower one being the left operand. |
| `Arithmetic.BinaryErrors` | src/vm/ops_arith.c:189-253 | Among numbers, booleans and nil anything but two numbers is an error. |
| `Arithmetic.ConstantOpcodes` | src/vm/ops_arith_const.c:3-58 | The same with a constant as the right operand. |
| `Arithmetic.SetOpcodes` | src/vm/ops_local_set.c:73-173 | The same when the result also goes to a local slot. |
| `Arithmetic.LocalOpcodes` | src/vm/ops_local_const.c:26-102 | The same with a local slot as the left operand and a constant as the right one. |
| `Arithmetic.OtherOpcodes` | src/vm/ops_compare.c:22-112 | Comparisons compare the lower value with the upper one; nil, false and zero count as false. |
| `Arithmetic.JumpOpcodes` | src/vm/ops_control.c:24-48 | Which way each jump goes. |
| `Arithmetic.ForOpcodes` | src/vm/ops_control.c:50-82 | A counting loop begins unless its start is past its end, and goes round while the next count is not past it. |
| `Arithmetic.StackOpcodes` | src/vm.c:1180-1278 | What pushing, popping, doubling, reading and writing locals, cutting and returning do to the stack. |
| `Arithmetic.Undone` | src/opt.c:107-113 | Subtracting undoes adding, dividing by a number other than 0 undoes multiplying, and the other way round. |
| `Collector.Vm.CollectGarbage` | src/vm.c:1044-1047 | The objects that stay are exactly those of the old list reachable from the roots over the coded child edges, in their old order, with unchanged contents and unmarked, so the next collection starts clean. Whatever a field of a survivor or a root field names is still in the list. |
| `HeapGraph.ChildrenAreFields` | src/object.c:349-475 | Field by field of every kind of object: the edges are exactly what the fields name (keys and values of slots, array values, metatable, constants, caches, defaults, names, upvalues, closed value, stack, exception, frames, open upvalues, caller, receiver and callee). |
| `Collector.Vm.RootsAreFields` | src/vm.c:924-966 | The roots are exactly what the root fields name: current and parked threads, rooted strings and values, keys and values of globals and modules. |
| `Collector.Vm.FieldsStayInside` | src/object.c:349-475 | Between collections no field of an object in the list and no root field names an object outside of it. |
| `Collector.Vm.MarkRoots` | src/vm.c:924-975 | On a heap without marks, exactly the objects reachable from the roots are marked, over any graph with cycles and sharing. |
| `Collector.Vm.SweepObjects` | src/object.c:560-584 | Unlinks exactly the unmarked objects from the linked list, keeps the order of the others and clears their marks. |
| `Collector.Vm.AllocateObject` | src/object.c:22-31 | A new unmarked object at the head of the list; the list stays a chain without repeats. |
| `Collector.MarkObject` | src/object.c:349-452 | Marks grow by exactly the objects reachable from the given one over unmarked objects; terminates on cycles. |
| `Collector.MarkTable` | src/object.c:458-472 | Both parts of a table are followed, keys and values. |
| `Collector.MarkFunction` | src/object.c:361-392 | Names, constants, inline caches, defaults and parameter names of a function are followed. |
| `Collector.MarkThread` | src/object.c:407-438 | Stack, exception, frames, open upvalues and caller of a thread are followed. |
| `Reachability.MarkedIsReachable` | src/object.c:349-456 | Marks grown from nothing over all roots are exactly the reachable nodes, in any graph. |
| `HashTable.FindEntry` | src/table.c:27-47 | For any hash function: probing ends, at the slot of the key if it is there, else at the first slot of its probing that is free, tombstone or empty. |
| `HashTable.Table.Set` | src/table.c:83-98 | The table agrees with the map update on key contents, across tombstone reuse and rehashing, and says whether the key was new; taken slots stay within 3/4 of the capacity. |
| `HashTable.Table.Get` | src/table.c:73-81 | Finds a key exactly when the map has it, with its value. |
| `HashTable.Table.Delete` | src/table.c:100-111 | The table agrees with the map without the key; the tombstone stays counted. |
| `HashTable.Table.AdjustCapacity` | src/table.c:49-71 | Rehashing moves exactly the live entries and leaves no tombstone. |
| `HashTable.Table.AddAll` | src/table.c:161-168 | The entries of the other table override, also when it is this very table. |
| `HashTable.Table.GetArray` | src/table.c:113-123 | Gives the value at a 1-based index, or nothing for nil and everything outside. |
| `HashTable.Table.SetArray` | src/table.c:125-159 | Refuses exactly what would leave a gap beyond the capacity; otherwise that one index changes, and array_max stays the highest index with a value. |
| `HashTable.NotAllCrowded` | src/table.c:27-47 | Probing cannot go round all slots while one is empty. |
| `HashTable.AbsentAtEmpty` | src/table.c:34-42 | An empty slot on the way means the key is nowhere in the table. |
| `HashTable.SetSlot` | src/table.c:83-98 | Writing a key where its search ended keeps every other key findable. |
| `HashTable.DeleteSlot` | src/table.c:100-111 | A tombstone in place of a key keeps every other key findable. |
| `HashTable.PartAfter` | src/table.c:125-159 | The array part after a store, as values up to the last one and a capacity, is the store on the sequence. |
| `TableClone.CloneTable` | src/lib/table.c:595-632 | A deep clone ends on any graph of tables with cycles and clones exactly the reachable tables, each once and freshly; each clone is its original with every table replaced by its clone, nil entries dropped, the metatable shared; nothing old is changed. A flat clone copies one table. |
| `TableClone.Cloner.CloneRecursive` | src/lib/table.c:29-107 | Every table first reached by the call gets one clone, all of them finished when it returns; tables seen before give their clone again. |
| `TableClone.Cloner.CloneArray` | src/lib/table.c:62-86 | The array part is copied slot by slot, nils and length included. |
| `TableClone.Cloner.CloneFields` | src/lib/table.c:87-104 | The hash part is copied entry by entry, in any slot order, without nil values. |
| `TableClone.SharingKept` | src/lib/table.c:29-107 | Two values of the source are the same table iff their copies are. |
| `TableSort.Sort` | src/lib/table.c:377-439 | Sorting with a comparator permutes the values before the first nil and changes nothing else of the table; if the comparator is a strict weak order on them the result is stably sorted; it fails exactly when one of the sort's comparisons does, and leaves the table as it was. |
| `TableSort.SortValues` | src/lib/table.c:411-427 | The loops over the temporary array give exactly the result of the recursive insertion sort, and fail exactly where it does. |
| `TableSort.InsertOne` | src/lib/table.c:412-426 | One round moves a value below exactly those it is less than, up to the first it is not less than, or fails at the first failing comparison. |
| `TableSort.SortIsStable` | src/lib/table.c:411-427 | For every list and every comparator the sort gives a permutation, stably sorted for a strict weak order, or the comparator fails on two of the values. |
| `TableSort.SortedUnique` | src/lib/table.c:411-427 | For a strict weak order there is only one stably sorted arrangement, so the order of comparisons cannot matter. |
| `TableSort.SameValues` | src/lib/table.c:411-427 | An arrangement of positions loses, adds and doubles no value. |
| `TableSort.ListedLength` | src/lib/table.c:383-391 | The scan finds the first nil. |
| `Formatter.FormatIdempotent` | src/main.c:65-146 | Formatting the output again changes nothing, for every text: uneven indents, tabs, multi-line strings, carriage returns, a missing final newline. |
| `Formatter.LineTwice` | src/main.c:75-138 | Line by line: formatting a formatted line in the canonical state changes neither the line nor the state after it. |
| `Formatter.TextKept` | src/main.c:75-138 | Formatting keeps the number of lines; a line that begins inside a multi-line string loses only carriage returns at its end, any other line those and its indentation. |
| `LongStrings.FirstOpens` | src/main.c:50-63 | Outside a string the first `[[` opens one: what follows it is read inside. |
| `LongStrings.FirstCloses` | src/main.c:50-63 | Inside a string the first `]]` closes it: what follows it is read outside. |
| `LongStrings.NoDelimiter` | src/main.c:50-63 | A text without that delimiter leaves a string open or closed as it was. |
| `LongStrings.LongStringKept` | src/main.c:86-94 | Behind a line whose text holds `[[` and no `]]` after it, all lines up to the one that holds `]]` lose nothing but carriage returns at their ends. |
| `LongStrings.LogicalFormatted` | src/main.c:75-138 | Formatting line by line gives what formatting the lines put together up to the ends of their strings gives. |
| `Formatter.LineShape` | src/main.c:97-125 | Outside strings a blank line comes out empty, and any other as two spaces for each open indent but the outermost and its text. |
| `Formatter.CutOff` | src/main.c:83-104 | What is cut off a line are exactly the blanks and tabs in front and the carriage returns at its end. |
| `Formatter.FormatSource` | src/main.c:65-146 | The loop over the source, with its 512-entry array of indents, computes that format. |
| `Formatter.IndentStack.FormatNextLine` | src/main.c:75-138 | One turn of the loop appends one formatted line and moves the state on. |
| `Formatter.IndentStack.Adjust` | src/main.c:110-119 | Deeper columns open an indent while there is room, lower ones close indents, the outermost never. |
| `Formatter.UpdateMultilineStringState` | src/main.c:50-63 | Whether a line ends inside a multi-line string depends on the line and the state before only. |
| `Formatter.LeadingIndentColumns` | src/main.c:11-23 | The columns of the leading blanks and tabs. |
| `Formatter.LinesBack` | src/main.c:72-80 | Splitting a text of newline-terminated lines gives the lines back. |
| `Formatter.OpenLinesBack` | src/main.c:72-80 | The same with an unfinished last line. |
| `FormatLayout.FormatKeepsTokens` | src/main.c:65-146 | For any source whose lexemes and tables end within their lines, strings in `[[` and `]]` over several lines included: scanning the formatted text gives exactly the tokens, with their texts and all indents, dedents and errors, that scanning the source gives, iff every line of code is put at a level that stands to the blocks open in the output as its column stood to the blocks open in the source. |
| `FormatLayout.TextsKept` | src/main.c:65-146 | Whatever becomes of the blocks: all tokens but layout keep their order and their texts, strings over several lines included. |
| `FormatLayout.LongString` | src/main.c:86-95 | A concrete source with a string over three lines: formatting keeps the text, and the lexer reads one string. |
| `FormatLayout.TokensKept` | src/main.c:97-125 | The same line by line, from any state of the formatter and any two stacks of equally many blocks. |
| `FormatLayout.AlignedTokens` | src/main.c:107-125 | Where the formatter has the lexer's blocks open at every line of code, the tokens are kept iff the lexer reports no inconsistent indentation. |
| `FormatLayout.FittingComments` | src/main.c:97-125 | A consistent source whose comments stand at the column of the code behind them keeps its tokens, while the formatter has room for its blocks. |
| `FormatLayout.DeepComment` | src/main.c:107-125 | A concrete source without errors whose comment stands deeper than the code behind it: the formatted text has no indent any more. |
| `FormatLayout.ShallowComment` | src/main.c:107-125 | A concrete source without errors whose comment stands shallower than the open blocks: in the formatted text the code behind it has left the inner block. |
| `FormatLayout.SamePlace` | src/lexer.c:256-273 | Two lines on two stacks give the same layout tokens iff they are deeper than, at, or lower than the same blocks. |
| `FormatLayout.PlainFormatted` | src/main.c:97-125 | A formatted line has the lexemes of the line, at twice its level, and is skipped by the lexer iff the line was. |
| `FormatLayout.TokensByLine` | src/main.c:65-146 | The tokens of the source and of the formatted text are those of their lines one after the other. |
| `LineTokens.TextTokens` | src/lexer.c:224-306 | Scanning a text of lines without lexemes or tables past their ends gives, line by line, the layout tokens of its column and its lexemes, then what is left to close. |
| `LineTokens.LineStart` | src/lexer.c:231-277 | One line at its start: its layout tokens and lexemes come next, and the scan goes on at its end. |
| `LineTokens.LineInside` | src/lexer.c:275-306 | The rest of a line inside: its lexemes come next, and the scan comes to its end outside of tables. |
| `LineTokens.LexemeLocal` | src/lexer.c:112-222 | A lexeme that ends within its line is the same whatever line follows. |
| `JsonRoundTrip.DecodeEncode` | src/lib/json.c:175-457 | Decoding an encoded value gives it back with nothing left over: nil, booleans, integers below 10^15 in magnitude, any string, non-empty arrays, string-keyed objects and empty tables, nested within depth 100. |
| `JsonRoundTrip.RoundTrip` | src/lib/json.c:394-425 | The same inside any text that does not go on the value: parsing stops right behind it. |
| `JsonRoundTrip.CharBack` | src/lib/json.c:45-68 | Every character, escaped or not, is read back as itself (section 7 of RFC 8259). |
| `JsonTexts.TextDecoded` | src/lib/json.c:428-457 | Decoding any JSON text succeeds with what it means (sections 2 to 7 of RFC 8259): white space wherever the grammar has it, numbers with fraction and exponent, all escapes, arrays and objects in any nesting. |
| `JsonTexts.DocBack` | src/lib/json.c:394-425 | The same inside any text: parsing stops right behind the value. |
| `JsonTexts.MixedBack` | src/lib/json.c:91-137 | A table with items and keys decodes as one object with the items, up to the first nil, under the texts of their indices. |
| `JsonTexts.MixedEncoded` | src/lib/json.c:91-137 | It is written as that object would be, at any depth. |
| `JsonTexts.Utf8Bytes` | src/lib/json.c:252-262 | A code point of an escape becomes the one, two or three bytes from which section 3 of RFC 3629 makes it up again. |
| `JsonTexts.NumberIs` | src/lib/json.c:284-305 | A number takes its sign, its digits, its fraction and its exponent, and stops there. |
| `JsonNulls.NullsKept` | src/lib/json.c:315-346 | For any array text of nulls and round-trip values: decoding keeps all values at their places iff each comes right behind the last value before it or within the capacity the array part has by then. |
| `JsonNulls.ValueAfterNulls` | src/lib/json.c:315-346 | Decoding n nulls and a value gives that array iff n is at most 7; otherwise the array comes out empty. |
| `JsonNulls.ArrayDecoded` | src/lib/json.c:315-346 | Decoding an array text succeeds, with what was stored item by item. |
| `JsonCodec.EncodeText` | src/lib/json.c:175-186 | The string builder ends with the encoding of the value. |
| `JsonCodec.WriteString` | src/lib/json.c:45-68 | Appends the quoted and escaped string. |
| `JsonCodec.WriteValue` | src/lib/json.c:142-172 | Appends the encoding of the value. |
| `JsonCodec.WriteTable` | src/lib/json.c:70-140 | Appends an array or an object as the contents decide, null beyond depth 100. |
| `JsonCodec.DecodeText` | src/lib/json.c:428-457 | Succeeds with a value iff the whole text decodes to it, trailing white space aside. |
| `JsonCodec.Parser.ReadString` | src/lib/json.c:220-282 | The moving parser reads the string the rest of the text begins with, or fails exactly when there is none. |
| `JsonCodec.Parser.ReadNumber` | src/lib/json.c:284-313 | The longest number at the position, and its value. |
| `JsonCodec.Parser.ReadArray` | src/lib/json.c:315-346 | Items in order, stored one behind the other; fails exactly where the grammar does. |
| `JsonCodec.Parser.ReadObject` | src/lib/json.c:348-392 | Fields set one after the other; fails exactly where the grammar does. |
| `JsonCodec.Parser.ReadValue` | src/lib/json.c:394-425 | The value the rest begins with, and the position right behind it. |
| `JsonCodec.Parser.ReadScalar` | src/lib/json.c:394-425 | The part of it for strings, numbers and words. |
| `BinaryRoundTrip.UnpackPack` | src/lib/binary.c:346-393 | Packing succeeds on every nested value of nil, booleans, numbers, strings and hole-free tables within the depth limit, with string keys and with number keys that the array part cannot take, and unpacking the bytes gives it back with no byte left over. |
| `BinaryRoundTrip.KeyBack` | src/lib/binary.c:141-154 | A key that stands for a number is packed as that number and sets the same key again. |
| `BinaryRoundTrip.ScalarBytes` | src/lib/binary.c:196-218 | The bytes of nil, booleans, numbers and strings: tag, and the lowest byte of every count first. |
| `BinaryRoundTrip.RoundTrip` | src/lib/binary.c:158-344 | The same inside any bytes: unpacking stops right behind the value. |
| `BinaryRoundTrip.TablePacked` | src/lib/binary.c:158-194 | A packed table is its tag, the true count of items, the items, the true count of slots, the slots. |
| `BinaryCodec.BinWriter.PatchU32` | src/lib/binary.c:94-101 | Overwrites exactly the four bytes at the offset, and refuses exactly the offsets outside what was written. |
| `BinaryCodec.BinWriter.SerializeValue` | src/lib/binary.c:196-218 | Appends the packed form, or fails exactly when there is none. |
| `BinaryCodec.BinWriter.SerializeTable` | src/lib/binary.c:158-194 | Counts written as zero and patched later come out as if known before, at every nesting level. |
| `BinaryCodec.BinReader.DeserializeValue` | src/lib/binary.c:300-344 | Reads the value the rest of the bytes begins with and moves right behind it, or fails exactly when there is none. |
| `BinaryCodec.BinReader.DeserializeTable` | src/lib/binary.c:233-298 | Items, then slots, each as many as their count says; fails exactly when one of them does. |
| `BinaryCodec.PackText` | src/lib/binary.c:346-365 | The bytes are the packed form; an error exactly when there is none. |
| `BinaryCodec.UnpackText` | src/lib/binary.c:367-393 | A value exactly when the whole input is one packed value. |
| `Lexer.ScanAll` | src/lexer.c:224-306 | Scanning any NUL-free text ends with exactly the tokens that the description of the lexer gives for it, text and kind; there is one end token, at the last place; indents and dedents are equal in number and on no prefix do dedents outnumber indents, also after inconsistent indentation. |
| `Lexer.Lexer.ScanToken` | src/lexer.c:224-306 | One call of the scanner, with its position, stack, pending dedents and table nesting, gives the next token of the description and stops where it says. |
| `Lexer.Lexer.ScanLexeme` | src/lexer.c:112-222 | Words, numbers, strings, formatted strings and punctuation: the loops take exactly the lexeme at the position, strings to their closing quote or bracket over any line ends, or fail at the end of the text. |
| `Lexemes.ScannedTiles` | src/lexer.c:224-306 | The tokens of a text make it up in order: each is the lexeme at its place and has its text, layout takes up nothing, and between them are only blanks, line ends and comments. |
| `Lexemes.QuotedLexeme` | src/lexer.c:149-162 | A quoted string ends at the first such quote with an even number of backslashes right before it. |
| `Lexemes.QuotedFailure` | src/lexer.c:149-162 | It fails, at the end of the text, if there is no such quote. |
| `Lexemes.QuotedFString` | src/lexer.c:191-203 | The same for formatted strings. |
| `Lexemes.QuotedFFailure` | src/lexer.c:191-203 | And their failure. |
| `Lexemes.BracketedLexeme` | src/lexer.c:164-189 | A string that begins with `[[` ends at the first `]]` behind it, or fails at the end of the text. |
| `Lexemes.BracketedFString` | src/lexer.c:205-222 | The same for formatted strings. |
| `Lexemes.WordLexeme` | src/lexer.c:107-110 | A word is a maximal run of letters, digits and underscores. |
| `Lexemes.NumberLexeme` | src/lexer.c:112-147 | A number is a maximal run of digits with single underscores between them, and another one behind a point that a digit follows. |
| `Lexemes.SymbolLexeme` | src/lexer.c:308-386 | Which pairs of characters join to one symbol, which characters are symbols by themselves, and that any other character fails. |
| `Lexemes.NoIndentInTables` | src/lexer.c:231 | Between an opening brace and its closing one the tokens of a text open no block. |
| `Lexemes.ColumnCounts` | src/lexer.c:235-238 | The column of a line is the number of its leading spaces and four times that of its leading tabs. |
| `Lexer.Lexer.StartLine` | src/lexer.c:231-277 | Exactly blank and comment lines are skipped; any other line is placed by its measured width, and what is left at the end of the text as if it had none. |
| `Lexer.Lexer.PlaceLine` | src/lexer.c:256-273 | A deeper column opens one block; a lower one closes exactly the deeper blocks, with an error when it lies between two open ones. |
| `Lexer.Lexer.MeasureIndent` | src/lexer.c:235-238 | The width of the leading spaces and tabs, a tab counting four. |
| `Lexer.NextBalances` | src/lexer.c:224-306 | Indents minus dedents given out stays the number of open blocks plus pending dedents. |
| `Scan.NextAdvances` | src/lexer.c:224-306 | With each token the text shrinks, or a dedent is due, or the end is reached; the stack of indents stays strictly increasing. |
| `Scan.PlaceIs` | src/lexer.c:256-273 | The layout tokens of a line: at most one indent, or one error and dedents, as many as blocks close; a line at column 0 is never inconsistent. |
| `Scan.PoppedIsDeeper` | src/lexer.c:262-265 | What is popped is exactly what is deeper than the column, and what is left is a stack. |
| `Scan.StackFits` | src/lexer.c:256-260 | The indent array of 256 entries is large enough at every token of every text whose lines begin below column 256. |
| `Scan.DepthBounded` | src/lexer.c:257-260 | There are never more open blocks than the innermost one has columns. |
| `Csv.ParseText` | src/lib/csv.c:113-265 | For NUL-free non-empty rows and any delimiter but quote, line break and NUL: parsing the written rows gives them back iff the last row is not a single empty field (section 2 of RFC 4180). |
| `Csv.ParseBreaks` | src/lib/csv.c:157-170 | Rows are read back the same, under the same iff, with newlines, carriage returns, or both together between them. |
| `Csv.ParseStringify` | src/lib/csv.c:293-389 | The same for what `csv_stringify` writes of any cells: their texts come back, under the same iff; strings as they are, booleans as words, nil as nothing. |
| `Csv.TrailingNewline` | src/lib/csv.c:88-101 | Any written text followed by a newline is rejected. |
| `Csv.RowsBack` | src/lib/csv.c:113-265 | The state machine reads all rows back, whatever delimiters, quotes and line breaks the fields hold. |
| `Csv.FieldBack` | src/lib/csv.c:267-291 | Any written field is read back whatever follows it. |
| `Csv.ParseRows` | src/lib/csv.c:113-265 | The character loop with its state, field and row variables accepts exactly what the state machine does, with the same rows. |
| `Csv.Stringify` | src/lib/csv.c:318-389 | Appends the rows, quoted where needed, or fails exactly on what is no writable row. |
| `Csv.AppendEscapedField` | src/lib/csv.c:267-291 | Quotes a field iff it holds a delimiter, quote or line break, doubling its quotes. |
| `Upvalues.Thread.CaptureUpvalue` | src/vm.c:666-692 | The open list stays strictly descending with one cell per slot: a slot captured before gives its cell again and changes nothing; a new cell goes to its place in the linked list. |
| `Upvalues.Thread.CloseUpvalues` | src/vm.c:694-710 | Closes exactly the cells at or above the slot, each taking the value its slot held; the others stay open in order; every cell reads the same as before. |
| `Upvalues.Thread.CloseTop` | src/vm.c:699-707 | The topmost open cell takes over its slot's value and leaves the list. |
| `Upvalues.Thread.FindPlace` | src/vm.c:667-676 | The search stops behind exactly the open cells above the slot. |

## Left out

- BTree.BTreeDb.BtreeDelete: does not cover the deletion of the last entry of a leaf right under a node without separators, where the C code reads and writes outside its arrays; with encoded keys of at most 2034 bytes there are no such nodes. The store after a refused deletion is not described.
- BTree.BTreeDb.BtreePut: when the host runs out of pages during a put, or the sizes of the new entry do not add up in 32 bits, the entries left by the refusal are known up to the run that is lost, not exactly.
- BTree.BTreeDb.ApplyAll: is about operations up to the first that reports failure.
- BTreeRefusal.OverflowExists: the witness is a tree, which is not reached here by a run of puts; so is the list of separators in `Capacity.LongSepsSplit`.
- Nodes.NodeFitsLeaf: says what the 32-bit sum decides only for leaves whose sizes do not wrap 32 bits.
- Nodes.LoadNode: a page whose slots or lengths point outside it gives no node; the C code's 32-bit length check on such corrupt pages is not followed bit by bit.
- BTree.BTreeDb.EnsurePages: allocation failure is one host limit on the number of pages below 2^31 (beyond 2^31 pages the C loop does not end); smaller allocations always succeed.
- B+tree file mode, flushing, closing, argument checks of the native functions, and the row tables a range scan builds: rows are entries here.
- Doubles of keys and values are ordered numbers with an 8-byte pattern; NaN keys are refused by `AtomFromValue` and do not occur further on.
- Optimizer.Chunk.OptimizeChunk: covers constants, locals, + - * / and negation with their constant and local forms, pop, dup, jumps, numeric for loops, stack adjustment and return; printing, exceptions, calls, globals, tables, modulo, power and integer division are not modelled, and numbers are reals with an arbitrary function for division by zero.
- Equivalence.TranslationRuns: is about executions where dropped identities have numbers, dropped stack adjustments have their height and folded constants are found, as annotated code assures (`StackTypes`); `OptimizerLimits` shows programs beyond that.
- The reset of inline caches after optimizing: they start empty.
- Collector.Vm.CollectGarbage: userdata mark hooks and finalizers, freeing of memory and the byte count that triggers a collection are not modelled; the lists of open upvalues and of parked threads are sequences.
- HashTable.Table.Set: capacities are unbounded integers, and keys are compared by contents, as interning makes pointers equal exactly for equal strings; `table_find_string` is not modelled.
- TableClone.CloneTable: the hash part is a map whose entries come in any order; allocation failure and the stack depth limit of the VM are not modelled.
- TableSort.Sort: the comparator is a function of its two values that may fail; one that changes the table while it is called is not modelled, nor is the default order, which the C library's `qsort` does.
- Formatter.FormatSource: works on texts without NUL and with columns that fit an int; memory is unbounded.
- FormatLayout.FormatKeepsTokens: is about sources whose quoted strings and tables end within their lines, whose strings in `[[` and `]]` lexer and formatter end at the same places, and which hold no carriage return; positions and line numbers of tokens are not compared.
- JsonRoundTrip.DecodeEncode: numbers are printed and read by functions assumed inverse on integers below 10^15; other numbers are outside the round trip, and tables with both an array part and keys come back as objects (`JsonTexts.MixedBack`). What a number text stands for is left to the C library (`JsonTexts.TextDecoded` says which text it gets).
- BinaryRoundTrip.UnpackPack: number keys that the array part can take move there when unpacked and are outside the round trip, as are string keys with the number-key prefix that are no number's key; doubles are 8-byte patterns in little-endian order.
- Error texts, collection during parsing (values under construction are kept on the stack), and out-of-memory of the format libraries.
- Lexer.ScanAll: tokens carry their text, but keywords are not told from other words; the stack of indents is unbounded, while the C array has 256 entries, which suffice for lines below column 256 (`Scan.StackFits`).
- Csv.ParseRows: rows are sequences instead of tables.
- Upvalues.Thread.CaptureUpvalue: the new cell's entry in the list of all objects belongs to the collector's model.
- The compiler front end, the remaining VM instructions, metatables, coroutines, sockets, HTTP, files, time, regular expressions, compression and the REPL.
