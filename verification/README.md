# A model of catlib's algorithms

catlib is a C library of data structures and algorithms that bring no memory of their own. This project models its
string matchers, its three balanced trees, its TLSF allocator, its bit permutations, its sorts, its PEG recogniser, its
delta list, its UTF-8 codec and its CRC, and proves what they are for.

Code that works step by step is a method here, with the loops of the C function, and is proved against a specification
that does not mention those steps:

- **Strings** (`Text`, `Kmp`, `BoyerMoore`, `SuffixTree`). Both tables of Boyer-Moore and the one of KMP are the optimal
  ones, and the matchers return the leftmost occurrence or none. The suffix tree is built one byte at a time; after every
  byte its root paths spell exactly the substrings of what has been read. Which requests for memory it makes is a function of
  the text, and so is how it ends when one of them is refused.
- **Trees** (`LinkedTree`, `TreeOrder`, `RedBlack`, `Avl`, `Splay`). Nodes are objects with three pointers and a mark. A
  tree value and the path to a place in it describe the pointers; a rotation is the three calls of `xx_fix` it is made of.
  Every rebalancing case of insertion and deletion is covered; splaying comes with its amortised bound, and so does any
  run of the three operations from the empty tree on.
- **TLSF** (`TlsfClasses`, `TlsfLists`, `TlsfBlocks`, `TlsfState`, `Allocator`). Memory is an array of words, an address is
  an index. Lengths, closing words, flags, list links and bitmaps are written as the code writes them; the ghost state is the
  map of the blocks. `Inv` holds between any two steps, `Valid` between any two operations.
- **Bits** (`BitWords`, `BitPermute`, `Permutations`). Words are bit sequences of any width that is a power of two, so that
  the 32-bit and the 64-bit functions are one.
- **Sorting** (`Introsort`, `PermuteArray`, `PointerSort`, `Links`, `MergeSort`, `ListSort`) and **timers** (`DeltaLists`). Lists are rings of
  linked objects, as `include/cat/list.h` has them.
- **PEG** (`PegGrammar`, `PegRecursion`, `PegEnd`, `PegMatch`, with `LeastSets`). Derivations in the sense of ordered choice are
  one thing, what is computed another; the methods move a cursor over a growing buffer. What can match without moving, what is
  tried at the same place and what looks past the end are read off the grammar, as least sets closed under a rule.
- **UTF-8** (`Utf8`), **CRC** (`Crc`, and `CrcDivision` for what the residue is as a polynomial) and powers of two (`Powers`).

Where the C code is written out twice with left and right exchanged (or lowest and highest), the model has one member with
the side as a parameter.

## Findings

The code and what is expected of it differ in the following places. Each is a proved statement here.

- `avl_ins` with a key that is present does not hand the balance on (`include/cat/avl.h:165-200`). The tree is in balance
  afterwards exactly when the replaced node had balance 0: `Avl.AvlTree.Insert`, `Avl.ReplacedBalance`, `Avl.BalanceLost`.
- `rb_apply` and `avl_apply` are commented as in-order traversals, and visit in postorder. The two agree exactly on trees
  without right children: `TreeOrder.PostorderIsInorder`.
- The in-place shrink of `tlsf_realloc` can leave a block shorter than `TLSF_MINSZ`. The heap invariant survives the call
  exactly when `Undersized` is false: `Allocator.Tlsf.Realloc`. A pool of 256 bytes, `tlsf_malloc` of 200 and `tlsf_realloc` to 1
  are enough: `Allocator.ShrunkTooFar`. When such a block of two words is freed between two blocks in use, its list entry is
  written over the length word of the block behind it: `Allocator.ShortBlockFreed`.
- `cpg_parse` reports a match of the whole input as a failure unless the match has looked past the end, and turns an ordinary
  failure (0) into an error (-1) unless the input is empty and its end has been looked at: `PegMatch.State.Parse`,
  `PegMatch.BlindSuccess`. Grammars that pass the test `LooksPast` always look, so for them success is reported exactly for the
  inputs that match as a whole (`PegEnd.LooksPastExact`); those that pass `TakesBlindly` have an input that matches and is
  reported as a failure (`PegEnd.BlindInput`). Between the two no test on the grammar can be exact: a grammar that marks the
  end of its inputs by a character of its own, as in `S <- E '$'` where nothing in `E` reads past the mark, has such an input iff
  it takes any input at all, and whether a grammar with lookahead takes any is undecidable.
- `newedge` does not look at what `mem_get` returns (`src/match.c:194-211`): it clears the key behind the edge, so the test for
  a missing edge in `getedge` is never reached, and nothing is defined from there on. This happens exactly when the first
  request that is refused is one for an edge, which the text and the number of requests served decide:
  `SuffixTree.SfxTree.Init`. With memory for the buckets alone it happens for every text but the empty one: `SuffixTree.NoEdge`.
- `utf8_to_utf32` counts in a `size_t` and returns an `int`: from 2^31 characters on the count is wrong, and for 2^32 - 1 of them
  it is the -1 for malformed input: `Utf8.ToUtf32`, `Utf8.CountRight`, `Utf8.CountMistaken`.
- `l_move` of an empty list leaves the destination's `prev` at the source, so `l_sort` of an empty list leaves a dangling
  `prev`: `Links.Move`, `ListSort.Sort`.
- `utf32_to_utf8` with too small a buffer goes on with later characters that still fit: `Utf8.AllWritten`, `Utf8.LeftOut`.

## Model

| member | source | states |
|---|---|---|
| Kmp.KmpPat.constructor | src/match.c:16-39 | `skips[q]` is the length of the longest proper border of the pattern prefix of length q+1, after at most 3 comparisons a byte; the rest of the array stays |
| Kmp.FallBack | src/match.c:29-39 | falling back along the table passes over no prefix that the next byte could extend |
| Kmp.Advance | src/match.c:29-39 | when no fall-back is left, the longest prefix ending the string read so far, extended by the byte, is known |
| Kmp.KmpPat.Fall | src/match.c:29-65 | the inner loop of both functions finds that prefix, at a cost paid for by the drop in its length |
| Kmp.KmpPat.Match | src/match.c:42-68 | 1 iff the pattern occurs, at its leftmost occurrence; at most 3 comparisons a byte of text |
| BoyerMoore.BmPat.FillLast | src/match.c:90-93 | `last[c]` is one past the last index of byte c in the pattern |
| BoyerMoore.VisitEntries | src/match.c:99-107 | the border walk of the first pass enters each strong border at the right cut point, and the smallest one last |
| BoyerMoore.BmPat.BorderPass | src/match.c:95-107 | after the first pass entries are the least shifts to strong borders or 0, and scratch chains the longest borders |
| BoyerMoore.BmPat.BorrowPass | src/match.c:109-114 | after the second pass every entry is the least shift under which the pattern can still match |
| BoyerMoore.BmPat.constructor | src/match.c:71-115 | both tables are optimal in that sense |
| BoyerMoore.SafeShift | src/match.c:155-173 | after a mismatch no occurrence lies before either of the two shifts |
| BoyerMoore.BmPat.Match | src/match.c:141-176 | 1 iff the pattern occurs, at its leftmost occurrence |
| SuffixTree.SpelledExactly | src/match.c:319-379 | under the invariant the root paths within the text read so far spell exactly its substrings |
| SuffixTree.SfxTree.GetEdge | src/match.c:194-245 | finds the edge of a node and a byte, or makes it; undefined exactly when an edge is to be made and the request for it is refused |
| SuffixTree.SfxTree.Split | src/match.c:258-292 | an edge is cut by a new inner node, with a new leaf below, and nothing else changes; which of its four requests is refused decides how it ends otherwise |
| SuffixTree.CutEdgeKeeps | src/match.c:258-279 | cutting an edge keeps every part of the invariant |
| SuffixTree.AddLeafKeeps | src/match.c:281-292 | so does the new leaf, which makes one suffix more explicit |
| SuffixTree.SfxTree.Canonical | src/match.c:295-316 | the active point ends at a node or inside an edge, for the same string |
| SuffixTree.WholeEdge | src/match.c:303-315 | an edge that is passed as a whole ends at an inner node whose path is what has been passed |
| SuffixTree.LinkTargetIsNode | src/match.c:348-369 | the suffix a link is to go to ends at a node, so a link is never left open |
| SuffixTree.SfxTree.NextSuffix | src/match.c:361-374 | the suffix link of the node extended before goes to the path without its first byte |
| SuffixTree.SfxTree.Extend | src/match.c:333-376 | a phase reads one byte more: invariant, links and active point hold again; its requests are those the text foretells |
| SuffixTree.NodeRequests | src/match.c:335-345 | a suffix that ends at a node without the next byte is new, its string forks, and it needs an edge and then a leaf |
| SuffixTree.EdgeRequests | src/match.c:346-356 | a suffix that ends inside an edge with another next byte is new, its string does not fork, and it needs node, edge, edge, leaf |
| SuffixTree.SfxTree.Build | src/match.c:319-379 | on success the whole text is in the tree; success, a reported failure and an undefined end are told apart by the text and the number of requests served |
| SuffixTree.SfxTree.Init | src/match.c:382-408 | the same with the request for the buckets; a reported failure leaves no edges, and 4 requests a byte and one more are always enough |
| SuffixTree.NoEdge | src/match.c:194-211 | the first request of every text that is not empty is for an edge |
| SuffixTree.MatchStep | src/match.c:421-450 | one step down decides whether the pattern is spelled any further |
| SuffixTree.SfxTree.Match | src/match.c:411-453 | 1 iff the pattern occurs in the text, with `loc` an occurrence |
| LinkedTree.Fix | include/cat/rbtree.h:508-518 | both ends of a link are set, and the fields of no other node |
| LinkedTree.RotateAt | include/cat/rbtree.h:521-542 | the three links of a rotation give the rotated tree in the same place of the whole |
| LinkedTree.Rotate | include/cat/rbtree.h:521-542 | rb_rleft, rb_rright and the like: the tree at a place is rotated, everything around it stays |
| LinkedTree.ZigZigAt | include/cat/splay.h:348-402 | the five links of st_zll and st_zrr, written in their order, give the doubly rotated tree |
| LinkedTree.ZigZagAt | include/cat/avl.h:496-556 | the links of a double rotation in the order of avl.h and in that of splay.h give the same tree |
| TreeOrder.FindLoc | include/cat/rbtree.h:253-281 | the search ends at the node with the key, or at the one place where it can be hung |
| TreeOrder.KeyAbsent | include/cat/rbtree.h:253-281 | a search that ends at an empty place proves that no node has the key |
| TreeOrder.InsertedSorted | include/cat/rbtree.h:284-294 | a node hung there keeps the search order and is the only one more |
| TreeOrder.FindRep | include/cat/rbtree.h:344-359 | the replacement is the in-order predecessor, or the right child if there is no left one |
| TreeOrder.RemoveDeep | include/cat/rbtree.h:387-396 | the four links that put a replacement from further down in the place of a node |
| TreeOrder.ReplacedOrder | include/cat/avl.h:187-194 | a node with the key of another takes its place: order kept, one node exchanged |
| TreeOrder.Apply | include/cat/rbtree.h:207-250 | the traversal without a stack visits all nodes in postorder and changes nothing |
| TreeOrder.PostorderIsInorder | include/cat/rbtree.h:206-250 | that is the in-order sequence the comment promises iff no node has a right child |
| RedBlack.RecolourRB | include/cat/rbtree.h:297-325 | recolouring below a red uncle moves the only violation up by two levels |
| RedBlack.OuterRB | include/cat/rbtree.h:305-336 | the rotation with a black uncle ends the violation |
| RedBlack.InnerRB | include/cat/rbtree.h:306-332 | the first rotation of the inner case brings it to the outer one |
| RedBlack.InsertFixup | include/cat/rbtree.h:284-341 | the loop of rb_ins_at restores black root, no red pair, equal black heights; the order of the nodes stays |
| RedBlack.TakenOutRB | include/cat/rbtree.h:371-399 | taking a red node out leaves a red-black tree, taking a black one out a place that lacks one black |
| RedBlack.RemoveFixup | include/cat/rbtree.h:402-464 | the loop of rb_rem, through all of its cases, ends with a red-black tree of the same nodes in the same order |
| RedBlack.BlacksCount | include/cat/rbtree.h:284-464 | 2^(black height) <= n + 1 and height at most twice the black height |
| RedBlack.HeightBound | include/cat/rbtree.h:284-464 | height <= 2 log2(n + 1), written without a logarithm |
| RedBlack.RbTree.Lookup | include/cat/rbtree.h:143-161 | returns a node with the key iff the tree has one |
| RedBlack.RbTree.Insert | include/cat/rbtree.h:164-202 | a fresh key adds exactly the node, a present one exchanges the node with that key and returns it; search order and red-black properties hold |
| RedBlack.RbTree.LookupLoc | include/cat/rbtree.h:143-161 | with `rdir`: the node with the key, or the one place where a node with the key can be hung |
| RedBlack.RbTree.InsertAt | include/cat/rbtree.h:164-202 | with `loc` and `atdir`, for such a place: exactly the node joins the tree, and all properties hold |
| RedBlack.RbTree.Remove | include/cat/rbtree.h:362-464 | exactly the node leaves the tree; search order and red-black properties hold |
| Avl.Single | include/cat/avl.h:460-493 | single rotations with the balances they write, for insertion and for deletion |
| Avl.Double | include/cat/avl.h:496-556 | double rotations with the balances they write |
| Avl.GrowsOuter | include/cat/avl.h:330-349 | a single rotation ends an insertion with all balances right |
| Avl.GrowsInner | include/cat/avl.h:330-349 | so does a double rotation |
| Avl.InsertFixup | include/cat/avl.h:319-350 | after the loop of avl_ins_at every balance is right height minus left height and in -1..1; the order of the nodes stays |
| Avl.ShrinksOuter | include/cat/avl.h:413-444 | in a deletion the single rotation of a subtree that leans leaves a shrunk subtree with right balances |
| Avl.ShrinksInner | include/cat/avl.h:413-444 | so does the double rotation |
| Avl.RemoveFixup | include/cat/avl.h:370-445 | the same for the loop of avl_rem, whatever the place of the replacement |
| Avl.AvlTree.Lookup | include/cat/avl.h:146-162 | returns a node with the key iff the tree has one |
| Avl.AvlTree.Insert | include/cat/avl.h:165-200 | a fresh key keeps the AVL tree and adds exactly the node; for a present key the balances stay right iff the replaced node had balance 0 |
| Avl.AvlTree.LookupLoc | include/cat/avl.h:146-162 | with `rdir`: the node with the key, or the one place where a node with the key can be hung |
| Avl.AvlTree.InsertAt | include/cat/avl.h:165-200 | with `loc` and `atdir`, for such a place: exactly the node joins the tree, which stays an AVL tree |
| Avl.AvlTree.Remove | include/cat/avl.h:370-445 | exactly the node leaves the tree, which stays an AVL tree |
| Avl.ReplacedBalance | include/cat/avl.h:187-194 | a replacement keeps the AVL property iff the two balances are equal |
| Avl.BalanceLost | include/cat/avl.h:187-194 | a tree in which it does not |
| Avl.ManyNodes | include/cat/avl.h:319-445 | a tree of height h has at least Fib(h+2) - 1 nodes |
| Avl.SparsestMeets | include/cat/avl.h:319-445 | and the bound is met at every height |
| Splay.RiseInorder | include/cat/splay.h:326-430 | no round of the loop changes the in-order sequence |
| Splay.RiseCost | include/cat/splay.h:326-430 | a round costs one: 1 + change of potential <= 3 * gain in rank, plus 1 for the single rotation that can only come last |
| Splay.RiseNode | include/cat/splay.h:405-430 | a round does one of the six rotations on the pointers |
| Splay.StSplay | include/cat/splay.h:405-430 | the node comes to the root, the sequence stays, iterations + change of potential <= 3 (rank(root) - rank(n)) + 1 |
| Splay.SplayTree.Lookup | include/cat/splay.h:122-136 | finds a node with the key iff there is one; the node found, or else the last one the search has met, is the root; same sequence; amortised logarithmic |
| Splay.MetIsNext | include/cat/splay.h:286-315 | the last node met has the key, or no key lies between its own and the one that was looked for |
| Splay.SplayTree.Insert | include/cat/splay.h:139-166 | the node becomes the root; the key set gains exactly a fresh key, a present key exchanges its node; amortised logarithmic |
| Splay.SplayTree.Remove | include/cat/splay.h:169-198 | exactly the node leaves the tree; if it had nodes on either side the one before it is the root; amortised logarithmic |
| Splay.StepKeys | include/cat/splay.h:122-198 | what each of the three operations does to the set of keys and to the size |
| Splay.RunCost | include/cat/splay.h:122-198 | any run of m lookups, insertions and removals from the empty tree on leaves the set of keys it should, after at most m (21 log2(m + 1) + 6) rounds of all loops |
| TlsfClasses.IndexOf | src/dynmem.c:415-432 | a size lies in the class that is computed for it |
| TlsfClasses.ClassOrder | src/dynmem.c:415-432 | classes follow each other without overlap |
| TlsfClasses.ClassUnique | src/dynmem.c:415-432 | so the computed class is the only one a size lies in |
| TlsfClasses.RoundFits | src/dynmem.c:435-459 | from the rounded class on, and only from there on, every size of the class is enough for the request |
| TlsfClasses.FirstListClosed | src/dynmem.c:382-412 | the tables of tlsf_init in closed form |
| TlsfClasses.ListOf | src/dynmem.c:382-412 | every class has its list inside the table of heads |
| TlsfClasses.ListsDiffer | src/dynmem.c:382-412 | and no other class has the same one |
| TlsfLists.InsLinked | include/cat/list.h:197-210 | a block goes to the front of the list of its class; every link of every list agrees with its neighbours again |
| TlsfLists.RemLinked | include/cat/list.h:213-229 | a block leaves its list, likewise |
| TlsfLists.InItsList | src/dynmem.c:462-498 | every listed block is reached from the head of its class |
| TlsfLists.OnlyItsList | src/dynmem.c:462-498 | and from no other head |
| TlsfLists.BusyIff | src/dynmem.c:462-498 | a list is not empty iff some listed block has its class |
| TlsfLists.FirstNewest | src/dynmem.c:462-498 | the first block of a list is the one listed last |
| Allocator.Tlsf.constructor | src/dynmem.c:382-412 | the empty allocator satisfies the invariant |
| Allocator.Tlsf.AddPool | src/dynmem.c:560-592 | a pool becomes one free block and a sentinel, and nothing else changes; pools and their records stay apart |
| Allocator.Tlsf.InsBlk | src/dynmem.c:462-469 | a block becomes a free one on the list of its class, with the bits of both bitmaps |
| Allocator.Tlsf.RemBlk | src/dynmem.c:479-488 | a block leaves its list; both bitmaps still say which lists are empty |
| Allocator.Tlsf.SplitBlk | src/dynmem.c:501-518 | a free block is cut in two; payloads of blocks in use are untouched |
| Allocator.Tlsf.JoinPrev | src/dynmem.c:532-542 | a free block before is joined |
| Allocator.Tlsf.JoinNext | src/dynmem.c:544-556 | a free block behind is joined, or its flag cleared |
| Allocator.Tlsf.CoalesceAndInsert | src/dynmem.c:521-557 | no two free blocks are next to each other afterwards |
| Allocator.Tlsf.FindBit | src/dynmem.c:595-624 | the lowest bit from a place on |
| Allocator.Tlsf.FindBlk | src/dynmem.c:595-624 | the first list that is not empty from a class on; NULL iff there is none |
| Allocator.Tlsf.Extract | src/dynmem.c:627-642 | the first block of the list or the front of it is in use; the rest, if at least TLSF_MINSZ, is free |
| Allocator.Tlsf.Malloc | src/dynmem.c:645-693 | fails iff the request is too big or no free block has a class that suits; else the newest free block of the smallest class that suits, cut if the rest is at least TLSF_MINSZ; no payload in use is touched, the invariant holds |
| Allocator.Tlsf.FreeMem | src/dynmem.c:696-702 | exactly the block is freed and joined with its free neighbours; no payload in use is touched, the invariant holds |
| Allocator.Tlsf.ShrinkBlk | src/dynmem.c:705-735 | the tail goes back when it is worth it; the payload that stays is the same |
| Allocator.Tlsf.GrowInPlace | src/dynmem.c:766-783 | what is missing comes from the free block behind; payload kept |
| Allocator.ShrunkStays | src/dynmem.c:705-735 | a shrink turns the words of the block and of a free one behind into the block and one free block, iff it is worth it, and leaves all other blocks alone |
| Allocator.GrownStays | src/dynmem.c:766-783 | so does growth in place; the rest stays free iff it is more than TLSF_MINSZ |
| Allocator.Tlsf.Resize | src/dynmem.c:738-795 | NULL iff the size is refused, or the block neither is large enough nor becomes so by the free block behind and no free block has a class for the request; the block stays iff it is or becomes large enough; what is given back or taken, and what a move allocates and frees; old contents; Roomy holds afterwards iff the request is not Undersized |
| Allocator.Tlsf.Realloc | src/dynmem.c:738-795 | the same with null pointers and zero sizes; the heap invariant holds afterwards iff the shrink is not Undersized |
| Allocator.ShrunkTooFar | src/dynmem.c:754-763 | a run from the empty allocator after which a block in use is shorter than TLSF_MINSZ |
| Allocator.ShortBlockFreed | src/dynmem.c:462-469 | listing a block of two words overwrites the length word of the block behind it, which is no longer one of a block in use |
| Allocator.Tiling | src/dynmem.c:560-592 | the blocks of a pool lie end to end up to its sentinel |
| Allocator.Covering | src/dynmem.c:560-592 | every word of a pool is in one of its blocks |
| Allocator.OneBlock | src/dynmem.c:521-557 | when nothing of a pool is in use, it is one free block |
| Allocator.OnItsList | src/dynmem.c:462-498 | a free block is on the list of its size and on no other |
| BitPermute.Compress | src/bitops.c:65-167 | compress_l and compress_r of both widths: the selected bits, in order, at the end of the word |
| BitPermute.SameBit | src/bitops.c:65-113 | why one parallel suffix a round is enough: a moving bit sees the same bit of the count as from where it started |
| BitPermute.Sag | src/bitops.c:170-183 | sheep and goats: a stable partition by the mask |
| BitPermute.CheckPerm | src/bitops.c:192-203 | the check of the array accepts exactly the permutations |
| BitPermute.ToPermvec | src/bitops.c:186-273 | accepts exactly the permutations; the vectors show at each step the right bit of every destination |
| BitPermute.RadixOrder | src/bitops.c:205-231 | after k steps bits are in the order of the lower k bits of their destinations, ties as at first |
| BitPermute.AtDestination | src/bitops.c:223-231 | after the last step every bit is at its destination |
| BitPermute.Permute | src/bitops.c:223-286 | bit j moves to position arr[j] |
| BitPermute.Gather | src/bitops.c:289-310 | bit i comes from position pos[i] |
| BitPermute.PermuteGathers | src/bitops.c:223-310 | permuting is gathering with the inverse permutation |
| Permutations.Named | src/bitops.c:192-203 | an array that names no place twice names every place |
| Introsort.Isort | src/sort.c:62-78 | the range is sorted, its elements are the same, nothing else changes |
| Introsort.ReheapDown | src/sort.c:117-146 | the heap property holds one place further down, same elements |
| Introsort.Hsort | src/sort.c:149-167 | the range is sorted, its elements are the same, nothing else changes |
| Introsort.Median3 | src/sort.c:198-223 | one of the three places, with the middle key |
| Introsort.Scan | src/sort.c:283-304 | the two inner loops stay in the piece and stop crossed by one, or at two elements on the wrong sides |
| Introsort.Partition | src/sort.c:267-308 | terminates with hi one past lo and the pivot between smaller and larger elements |
| Introsort.StackRoom | src/sort.c:245-315 | depths on the stack increase strictly, so a push never overflows the 48 entries |
| Introsort.TakeHigh | src/sort.c:311-319 | the next piece and the stack are as they should be, and less is left to do |
| Introsort.Round | src/sort.c:257-330 | a round keeps what is settled, shrinks what is pending, or ends with a sorted array |
| Introsort.Qsort | src/sort.c:228-331 | the array is sorted, with the same elements |
| PermuteArray.ArrayToVoidp | src/sort.c:335-345 | every pointer points to its own element |
| PermuteArray.CycleStep | src/sort.c:364-370 | a step of a cycle moves one element to its place for good |
| PermuteArray.Permute | src/sort.c:348-375 | arr[i] becomes the element varr[i] pointed to, and varr[i] points to arr[i]; every cycle is gone through once, with one copy more than it has elements |
| PermuteArray.SortsThrough | src/sort.c:335-375 | after a sort of the pointers this sorts the array, with the same elements |
| PointerSort.StillPointers | src/sort.c:228-345 | after a sort of the pointers each of them is there once and points to its element |
| PointerSort.SortByPointers | src/sort.c:228-375 | array_to_voidp, qsort_array on the pointers and permute_array sort the array, with at most 3/2 copies an element |
| Links.Ins | include/cat/list.h:197-210 | one element more behind a given one; next and prev agree all around |
| Links.Rem | include/cat/list.h:213-229 | one element less; the element is a ring of its own |
| Links.Move | include/cat/list.h:315-326 | the destination has the elements of the source iff there are any |
| MergeSort.MergedSorted | include/cat/list.h:379-398 | merging sorted lists gives a sorted one |
| MergeSort.MergedSame | include/cat/list.h:379-398 | with the elements of both |
| MergeSort.MergedKeeps | include/cat/list.h:379-398 | the elements of each list stay in their order |
| MergeSort.MergedTies | include/cat/list.h:379-398 | of equal elements that of the second list comes first |
| MergeSort.Merge | include/cat/list.h:379-398 | on the rings l_merge does just that |
| ListSort.TakeOne | include/cat/list.h:416-434 | one node more: slots are empty or sorted runs of 2^i nodes again, nothing is lost |
| ListSort.CarryStep | include/cat/list.h:427-434 | a merge of two runs is a carry |
| ListSort.Digit | include/cat/list.h:402-434 | below 2^48 nodes slot i holds a run of 2^i nodes iff bit i of the number of nodes taken is set |
| ListSort.Gather | include/cat/list.h:436-441 | all slots end up in one |
| ListSort.Sort | include/cat/list.h:402-445 | a sorted permutation of the nodes for lists of any length; the links are consistent iff the list is not empty |
| DeltaLists.DeltaList.Walk | include/cat/dlist.h:69-76 | finds how many timers have no more than x left |
| DeltaLists.DeltaList.Ins | include/cat/dlist.h:57-81 | a timer comes in behind exactly those with no more left than it has; the others keep their order and what they have |
| DeltaLists.DeltaList.Adv | include/cat/dlist.h:114-152 | exactly the timers with no more than delta left go to `out`, in order; the others have delta less |
| DeltaLists.DeltaList.Rem | include/cat/dlist.h:155-164 | exactly the timer leaves; the others keep what they have |
| DeltaLists.DeltaList.Update | include/cat/dlist.h:167-174 | a removal and an insertion |
| DeltaLists.DeltaList.Deq | include/cat/dlist.h:97-111 | the first timer leaves, and the others lose what it had left |
| DeltaLists.DeltaList.First | include/cat/dlist.h:84-94 | what the first timer has left |
| DeltaLists.Init | include/cat/dlist.h:47-54 | negative times become zero |
| DeltaLists.PrefixSums | include/cat/dlist.h:57-81 | what a timer has left is the sum of the stored times up to its own |
| DeltaLists.NextIs | include/cat/dlist.h:57-174 | what an insertion, a removal and an advance make of the list, exactly |
| DeltaLists.NextInOrder | include/cat/dlist.h:57-174 | every event keeps the timers in order |
| DeltaLists.NextAhead | include/cat/dlist.h:57-174 | no event changes the order of two timers it has nothing to do with |
| DeltaLists.Waits | include/cat/dlist.h:57-174 | over any run a timer waits, with what is left, as long as its time has not passed |
| DeltaLists.FiresFirst | include/cat/dlist.h:57-174 | and it fires at the first advance that reaches its time, and not before |
| DeltaLists.FiredInOrder | include/cat/dlist.h:57-174 | over any run timers are handed out by their deadlines, those with equal deadlines in the order in which they were inserted |
| PegGrammar.OneOutcome | src/cpg.c:86-350 | ordered-choice derivations are deterministic for every grammar |
| PegGrammar.CharsIs | src/cpg.c:279-316 | a literal matches exactly where its text is, and a failure has met the end iff the input ends inside of it |
| PegGrammar.OneCharIs | src/cpg.c:245-350 | a class or token matches exactly one character of its set |
| PegGrammar.ManyIs | src/cpg.c:143-162 | a repetition goes on from match to match until there is none |
| PegGrammar.RepeatIs | src/cpg.c:143-174 | `*` takes all of these matches, and `+` all of them if there is one |
| PegGrammar.SingleIs | src/cpg.c:143-174 | `?` takes one match if there is one, and without a suffix there has to be one |
| PegGrammar.LookaheadIs | src/cpg.c:176-184 | a lookahead does not move; `&` matches where what is behind it does, `!` where it does not |
| PegGrammar.RestIs | src/cpg.c:101-120 | a sequence matches when each primary does where the one before has ended |
| PegGrammar.ChoiceIs | src/cpg.c:86-98 | a choice takes the first sequence that matches at its place |
| PegRecursion.HasAnalysis | src/cpg.c:86-350 | a measure that falls along everything tried at the same place exists exactly for the well-formed grammars without left recursion and without repeated nullable parts |
| PegRecursion.FindsNullable | src/cpg.c:86-195 | what is nullable is the least set closed under the rules for it |
| PegRecursion.Sink | src/cpg.c:86-242 | without left recursion some node of every set has none of the set tried at its place |
| PegRecursion.OutcomeIs | src/cpg.c:86-350 | on every such grammar, for every input and place, there is exactly one outcome by the rules of ordered choice |
| PegMatch.State.Getc | src/cpg.c:38-71 | the next character of the stream whatever has been read before; the buffer stays a prefix of the stream |
| PegMatch.State.Back | src/cpg.c:101-195 | the cursor is put back with its line number |
| PegMatch.LineCounts | src/cpg.c:67-69 | the number of a line is one more than the newlines before its characters |
| PegMatch.State.MatchLiteral | src/cpg.c:279-316 | 1 iff the text of the literal is at the cursor; failure restores the cursor |
| PegMatch.State.MatchOne | src/cpg.c:319-350 | 1 iff the character at the cursor is in the set; failure restores the cursor |
| PegMatch.State.MatchExpression | src/cpg.c:86-98 | the outcome of ordered choice, on the cursor |
| PegMatch.State.MatchSequence | src/cpg.c:101-120 | the outcome of a sequence; failure restores index and line |
| PegMatch.State.MatchPrimary | src/cpg.c:123-195 | the outcome with prefixes and suffixes; lookahead restores index and line |
| PegMatch.State.MatchReferred | src/cpg.c:206-242 | the outcome of what a primary refers to |
| PegMatch.State.Parse | src/cpg.c:359-367 | 1 iff the start symbol takes the whole input and has looked past its end (for a grammar that always looks: iff it takes the whole input); 0 iff it fails, the input is empty and its end was looked at; else -1 |
| PegEnd.TrueOfAll | src/cpg.c:38-350 | what the test on the grammar claims about looking past the end is true of every derivation |
| PegEnd.LooksPastExact | src/cpg.c:359-367 | for grammars that pass it success is reported exactly for the inputs that match as a whole |
| PegEnd.EndMark | src/cpg.c:359-367 | a grammar that ends with `!.` passes it |
| PegEnd.SameOnMore | src/cpg.c:38-350 | an outcome that has not met the end is the same whatever follows the input |
| PegEnd.BlindInput | src/cpg.c:359-367 | a grammar whose first choices need no lookahead and no repetition has an input that matches and is reported as a failure |
| PegEnd.NotBoth | src/cpg.c:359-367 | no grammar passes both tests |
| PegMatch.BlindSuccess | src/cpg.c:359-367 | a grammar and an input it matches, reported as a failure |
| Utf8.ValidateChar | src/str.c:495-532 | accepts exactly the strings that begin with the shortest encoding of a value, and tells its length |
| Utf8.AcceptIs | src/str.c:495-532 | the same for each length |
| Utf8.OverlongIs | src/str.c:508-528 | among the well-shaped sequences the rejected ones are exactly those with a shorter encoding |
| Utf8.EncodeIs | src/str.c:664-721 | the bytes written for a value are its shortest encoding |
| Utf8.Example | src/str.c:664-721 | the first example in section 4 of RFC 2279 |
| Utf8.ValueOf | src/str.c:582-618 | the value of an encoding is what was encoded |
| Utf8.EncodedValue | src/str.c:582-618 | a well-shaped sequence is the encoding of its value in as many bytes |
| Utf8.DecodeEncode | src/str.c:593-752 | decoding an encoded sequence of values below 2^31 gives it back |
| Utf8.EncodeDecode | src/str.c:593-752 | encoding what was decoded gives the same bytes |
| Utf8.ToUtf32 | src/str.c:593-618 | -1 if the input is malformed; else the number of values as an `int`, and as many of them as there is room for |
| Utf8.CountRight | src/str.c:617-617 | that number is right exactly for fewer than 2^31 values |
| Utf8.CountMistaken | src/str.c:617-617 | and -1 exactly when it is 2^32 - 1 modulo 2^32 |
| Utf8.ToUtf8 | src/str.c:724-752 | -1 iff a value is too large or the result too long; else the length of the encoding, and what Written says in the buffer |
| Utf8.AllWritten | src/str.c:737-743 | the buffer holds the encoding iff there is room for it |
| Utf8.LeftOut | src/str.c:737-743 | with less room a later character may be there without an earlier one |
| Crc.TakesIsRemainder | src/crc.c:33-47 | a bit at a time from the top is long division of the message times x^32 |
| Crc.TableStep | src/crc.c:50-57 | a table step is eight bit steps |
| Crc.ResidueIsRemainder | src/crc.c:33-57 | for every polynomial, residue and message the residue is the remainder of that division |
| Crc.BitsAt | src/crc.c:50-57 | the bits of a message are those of its bytes, in order, the highest of each byte first |
| CrcDivision.DivisionFinds | src/crc.c:33-57 | long division finds a quotient and a remainder of degree below 32 |
| CrcDivision.OneDivision | src/crc.c:33-57 | there is only one such pair |
| CrcDivision.ResidueDivides | src/crc.c:33-57 | the residue is the one word that differs from the message times x^32 by a multiple of the divisor |
| Crc.BeInit | src/crc.c:33-47 | the table holds the residue of every byte |
| Crc.Be | src/crc.c:50-57 | crc32t_be is the residue of the message |
| Crc.Rev32At | src/crc.c:22-30 | rev32 reverses the bits of a word |
| Crc.Rev8At | src/crc.c:13-19 | rev8 reverses the bits of a byte |
| Crc.LeInit | src/crc.c:60-74 | the table for the other order of bits |
| Crc.LeTableStep | src/crc.c:77-84 | a step from the low end is one from the high end with all bits reversed |
| Crc.FlippedIs | src/crc.c:77-84 | the flipped message has the same length, and every byte its bits in the other order |
| Crc.Le | src/crc.c:77-84 | crc32t_le is crc32t_be with the bits of bytes and residue reversed |
| Crc.LeBoth | src/crc.c:77-84 | the empty message leaves the residue, and processing a then b is processing a ++ b |
| Crc.ResidueBoth | src/crc.c:50-57 | processing a then b is processing a ++ b |
| Crc.SelfCheck | src/crc.c:50-57 | a message followed by its residue leaves no residue |

## Left out

Not modelled:

- The next-fit half of `src/dynmem.c`, the regular expressions and `bm_pinit_lite` of `src/match.c`, `src/peg.c` and the parser
  generator, UTF-16 and the rest of `src/str.c`, time arithmetic with nanoseconds (times are integers here), and everything
  that does input and output.
- `include/cat/archops.h`: counting bits is taken by its meaning. `tlsf_ntz` is the lowest set bit (`FindBit`), `nlz` comes from
  the integer logarithm (`Powers.Log2`), and the bitmaps of TLSF are bit sequences.
- `rup2`, `rdp2` of `src/bitops.c`; `ssort_array`; `l_cut`, `l_append`, `l_splice` and the queue functions of `include/cat/list.h`;
  minima, maxima and traversal of splay trees. They would add easy members.
- `crc32_init`, `crc32_start`, `crc32_step`, `crc32_finish`: they call what is modelled with a fixed polynomial and a static table.
- The field `tree` of tree nodes, and user data. A comparison function is a comparison of integer keys, here and in the sorts.
- The hash table behind the edges of a suffix tree: it is a map, and memory is a number of requests that are served. What a run
  does after a refused request for an edge.
- `add_mem_func` and the second try in `tlsf_malloc`; the list of pools and what is in the record at the start of a pool, whose
  words belong to no block and are set aside.
- Callbacks, debug output and running out of memory in the PEG recogniser (the result -2), and inputs of 2^32 - 2 bytes and more.
- Element sizes and the copying of elements byte by byte in `src/sort.c`: an array has elements, a pointer to one is its index.

Where a member says less than the C function could be asked for:

- Kmp.KmpPat.constructor: the pattern is not empty, since `kmp_pinit` writes `skips[0]`.
- BoyerMoore.BmPat.Match: the pattern is no longer than the text, since `slen - plen` is unsigned.
- LinkedTree.Rotate: left and right are one method; `avl_zleft`, `avl_zright` and the six rotations of `splay.h` likewise.
- Allocator.Tlsf.ShrinkBlk: the header of the block is written before the new free block is listed, not after; the two
  writes do not meet.
- Allocator.Tlsf.Malloc: requests are below 2^31, where the class arithmetic uses shifts of `int`, or too large for any class;
  up to there `round_next_tlsf_size` always finds a class, so the branch for a negative one is not written.
- Allocator.Tlsf.Resize: the same range of sizes.
- Allocator.Tlsf.Realloc: the same range of sizes.
- Allocator.Tlsf.AddPool: a pool is shorter than 2^31 bytes, for the same reason.
- Introsort.Pivot: does not say which of the nine sampled places is taken, only that it is one in the piece.
- PermuteArray.Permute: the inner `do` loop is written with its test first, which holds on entry.
- Utf8.ToUtf8: values are those of a 32-bit `ulong`. What is in the buffer after a failure is not stated.
- Utf8.ValidateChar: the length of the string is always given. With `max == 0` the C function reads as far as the first byte tells.
- Crc.Be: words have 32 bits; with a wider `ulong` the upper bits are never looked at.
- ListSort.Sort: nothing is said of the order of equal elements, which is not kept.
