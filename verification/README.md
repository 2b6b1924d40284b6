# xHook and ELF models

Models, in Dafny, of the native hooking core under `cpp/xhook` and of the symbol lookup in
`cpp/elf`, with proofs of what these parts are for:

- **The red-black tree of `tree.h`** on heap nodes with left, right, parent and colour fields.
  Insertion and removal with their fix-up loops keep the search order, the parent links and the
  balance, and a removed node is the node object itself, since `RB_REMOVE` moves nodes. Ghost maps
  record per node its links and the stretch of the in-order sequence below it; the invariants
  are local to a node, and mirrored cases come from one lemma about flipping a tree.
  Lemmas read the invariants back off the nodes' own fields: sorted walk, equal black counts,
  height at most 2 lg(n + 1).
- **The splay tree of `tree.h`**: the top-down splay with its left, middle and right tree,
  rotations, links and the final assembly, and insert, remove, find, next, min and max on it.
- **SLEB128 and packed relocations** (`xh_elf.c`): an encoder written from the format, and the
  code's decoder and iterator, which undo it exactly for the sections in which no empty group comes
  before one that is not empty (`Clean`, a test on the group sizes).
- **Symbol lookup**: the System V and GNU hashes and table walks of xHook and whale's `GnuLookup`
  against a plain scan of the symbol table.
- **The dynamic section**: which entries set which fields, and what their order changes: `chain_cnt`, and
  success itself when the one bad pointer is that of a `DT_HASH` that only one order puts after `DT_GNU_HASH`.
- **Hooking an ELF file**: which words change, what `*old_func` gets, what happens to the page
  protections when the kernel refuses a change at any point, and idempotence.
- **Protection lookup and page arithmetic** (`xh_util.c`).
- **The refresh engine** (`xh_core.c`): the merge of the maps lines over two red-black trees, hook and
  ignore filtering, and the ownership of every record. A record registers with an `Arena` when it is made,
  and `Free` and `XhCoreHook` are called where the code calls `free` and `xh_core_hook`.
- **The worker protocol** (`xh_core.c`): a state machine over the atomic steps of refresh calls,
  worker threads and clear, with mutexes, condition variable, spurious wake-ups and failures.
- **Tail queues** (`queue.h`): cells are modelled as the head's first field or an entry's next field, so
  that a back pointer is the address of a cell.

One module per file; `Powers`, `Bits`, `CString` and `Wrappers` are shared helpers, the `Rb` modules before
`RbTree` hold the lemmas on links, sequence edits, colours, deficits and single steps, and
`SplayShape` those of the splay; `WorkerSteps` holds the state machine of the protocol, `WorkerInvariant` what every
step of it keeps and `WorkerCalls` what a call has done when it returns.

Conventions: `w` is the word size in bits, addresses and words are naturals reduced modulo `Pow2(w)` where the code can wrap;
the bitwise operators of the decoder and the page macros are functions on naturals; pointers
to records are references, null included.

Where code and comments differ, the code is followed: the refresh filter breaks at the first matching
hook (`cpp/xhook/xh_core.c:378`), a packed group of size 0 still yields, and `chain_cnt` and the result of
`xh_elf_init` can depend on the order of the entries.

## Model

| member | source | states |
|---|---|---|
| RbTree.Tree.Remove | cpp/xhook/tree.h:530-595 | from any valid tree containing elm, RB_REMOVE with its colour fix-up leaves a valid red-black tree (key order, parent links, no red-red edge, equal black heights, black root) whose in-order sequence is the old one without elm, the same node objects, and returns elm |
| RbTree.Tree.RemoveColor | cpp/xhook/tree.h:452-528 | the fix-up loop ends and leaves a balanced tree with the same order, given one missing black at the child of parent |
| RbTree.Tree.RemoveInner | cpp/xhook/tree.h:540-577 | removal of a node with two children: the successor node itself takes its place, colour included |
| RbTree.Tree.RemoveOuter | cpp/xhook/tree.h:535-538 | removal of a node with at most one child |
| RbTree.Tree.Splice | cpp/xhook/tree.h:579-590 | cutting a node with one child out leaves consistent links and the order without it |
| RbTree.Tree.TakePlace | cpp/xhook/tree.h:557-570 | moving the successor into the removed node's place keeps links and order and hands over position and colour |
| RbTree.Tree.Insert | cpp/xhook/tree.h:598-626 | RB_INSERT: either one more node, at its place in the order, in a valid tree, or the node with the equal key, which is the argument itself if it is in the tree already, and nothing changed |
| RbTree.Tree.InsertColor | cpp/xhook/tree.h:408-450 | the insertion fix-up turns a tree with one red-red edge into a balanced one with the same order |
| RbTree.Tree.RotateLeft | cpp/xhook/tree.h:343-361 | a left rotation changes the links of the tree to those of the rotated tree and keeps the order |
| RbTree.Tree.RotateRight | cpp/xhook/tree.h:363-381 | a right rotation, its mirror |
| RbTree.Tree.Find | cpp/xhook/tree.h:630-646 | RB_FIND returns a node with the key, and null only if there is none |
| RbTree.Tree.NFind | cpp/xhook/tree.h:648-666 | RB_NFIND returns the first node in order whose key is not less |
| RbTree.Tree.Next | cpp/xhook/tree.h:668-688 | RB_NEXT is the next node in order, null after the last |
| RbTree.Tree.Prev | cpp/xhook/tree.h:690-709 | RB_PREV is the node before in order, so the inverse of RB_NEXT |
| RbTree.Tree.MinMax | cpp/xhook/tree.h:711-723 | RB_MINMAX is the first or the last node in order |
| RbTree.Tree.ForEach | cpp/xhook/tree.h:738-741 | RB_FOREACH, from the minimum on by RB_NEXT, meets exactly the nodes of the tree, each once, in key order |
| RbTree.Tree.Drain | cpp/xhook/tree.h:748-751 | RB_FOREACH_SAFE with RB_REMOVE of the current node visits every node once, in order, and ends with the empty tree |
| RbTree.Tree.WalkIsSorted | cpp/xhook/tree.h:54-55 | a walk over the child fields from the root meets exactly the nodes of the tree, in strictly increasing key order |
| RbTree.Tree.SameBlackCount | cpp/xhook/tree.h:56-57 | every way from a node down to an empty place has the same number of black nodes |
| RbTree.Tree.HeightBound | cpp/xhook/tree.h:61-62 | two to the height is at most (n + 1) squared: the height is at most 2 lg(n + 1) |
| SplayTree.Head.Splay | cpp/xhook/tree.h:211-243 | the top-down splay of a non-empty tree ends, keeps every node and the order, and brings up a root that splits the tree at the key |
| SplayTree.SplitMeans | cpp/xhook/tree.h:161-163 | a root that splits the tree at the key has that key if any node does, and is else its immediate predecessor or successor |
| SplayTree.Head.Insert | cpp/xhook/tree.h:166-187 | SPLAY_INSERT adds exactly the node, or returns the node with the equal key, which is the argument itself if it is in the tree already, and keeps the set and order |
| SplayTree.Head.Remove | cpp/xhook/tree.h:190-208 | SPLAY_REMOVE takes out exactly the node with the key (elm itself if it is in the tree), or returns null and keeps the set |
| SplayTree.Head.Find | cpp/xhook/tree.h:130-138 | SPLAY_FIND finds the node with the key exactly when there is one |
| SplayTree.Head.Next | cpp/xhook/tree.h:141-152 | SPLAY_NEXT is the node with the least greater key, or null |
| SplayTree.Head.MinMax | cpp/xhook/tree.h:248-278 | SPLAY_MINMAX makes the first or the last node the root and keeps the order |
| SplayShape.RotateRightKeeps | cpp/xhook/tree.h:89-93 | rotating the middle tree keeps the order of left, middle and right tree together and the two spines |
| SplayShape.LinkLeftKeeps | cpp/xhook/tree.h:101-105 | SPLAY_LINKLEFT moves the root and its right subtree to the right tree without changing the order of the three together |
| SplayShape.AssembleKeeps | cpp/xhook/tree.h:113-118 | SPLAY_ASSEMBLE makes one tree of the three, in the same order, also when one or both outer trees are empty |
| Sleb128.NumbersEncoded | cpp/xhook/xh_elf.c:111-135 | repeated decoding of any sequence of signed numbers in canonical SLEB128 (section 7.6 of DWARF 4) gives exactly their two's-complement words |
| Sleb128.ReadEncoded | cpp/xhook/xh_elf.c:111-135 | one decoding gives the word of the number and consumes exactly its bytes, whatever follows |
| Sleb128.EncodeShort | cpp/xhook/xh_elf.c:111-135 | a number of w bits takes so few bytes that no payload is shifted by w or more |
| Sleb128.SignExtended | cpp/xhook/xh_elf.c:127-130 | the final or with the shifted minus one is sign extension, and skipping it is right once all bits are set |
| Sleb128.Decoder.ReadOne | cpp/xhook/xh_elf.c:111-135 | the decoder's loop computes the format's value of the next number and stops after its last byte, or fails only when the bytes run out inside it |
| PackedReloc.RoundTrip | cpp/xhook/xh_elf.c:160-256 | over the encoding of any groups of which no empty one comes before one that is not, under every flag combination the mode allows, the iterator yields exactly the relocations they stand for, in order, with offsets and addends modulo the word size, then NULL |
| PackedReloc.RoundTripsExactly | cpp/xhook/xh_elf.c:160-256 | for given group sizes and flag words, in either mode, the round trip holds for all offsets, deltas, infos and addends if and only if no empty group comes before one that is not empty |
| PackedReloc.NotReadBack | cpp/xhook/xh_elf.c:174-206 | where an empty group comes before one that is not, there are deltas with which the iterator does not yield what the groups stand for |
| PackedReloc.EmptyGroupExample | cpp/xhook/xh_elf.c:174-226 | one such section: an empty group with the delta 1 and a relocation at 2 are read back as a relocation at 1 |
| PackedReloc.FlagBitsMean | cpp/xhook/xh_elf.c:155-158 | of a flag word the bits of value 1, 2, 4 and 8 say that the info, the offset delta and the addend are shared and that there is an addend, whatever the bits above |
| PackedReloc.FlagsRead | cpp/xhook/xh_elf.c:182-197 | the iterator finds, by its four tests, the flags that the header's word was put together from |
| PackedReloc.SharedDeltaBytes | cpp/xhook/xh_elf.c:174-256 | the rel section of the bytes 1, 0, 1, 2, 5, 7 yields one relocation, of offset 5 and info 7 |
| PackedReloc.SharedInfoBytes | cpp/xhook/xh_elf.c:174-256 | the rela section of the bytes 1, 0, 1, 9, 7, 5, 3, with the info shared, yields offset 5, info 7 and addend 3 |
| PackedReloc.SharedAddendBytes | cpp/xhook/xh_elf.c:174-256 | the rela section of the bytes 1, 0, 1, 12, 3, 5, 7, with the addend shared, yields the same relocation |
| PackedReloc.FlattenLength | cpp/xhook/xh_elf.c:208-256 | as many relocations come out as the section's count says |
| PackedReloc.EmptyGroupYields | cpp/xhook/xh_elf.c:174-226 | at an empty group, in any mode and under any flags, the iterator yields nothing or a relocation at the empty group's own delta, or at the size of the next group taken for a delta |
| PackedReloc.EmptyGroupFlatten | cpp/xhook/xh_elf.c:174-226 | while the first relocation the groups stand for is at the delta of the first entry there is |
| PackedReloc.Iterator.Next | cpp/xhook/xh_elf.c:208-256 | one call of the iterator makes exactly one step of the iterator's state machine |
| PackedReloc.Iterator.NextOfRun | cpp/xhook/xh_elf.c:208-256 | each call takes the first of the relocations still to come |
| PackedReloc.Iterator.ReadGroupFields | cpp/xhook/xh_elf.c:174-206 | reading a group header sets size, flags, shared fields and the running addend, or fails as the machine does |
| SymbolHash.ElfHash | cpp/xhook/xh_elf.c:302-314 | the System V hash of chapter 5 of the gABI |
| SymbolHash.CodeStepAgrees | cpp/xhook/xh_elf.c:306-311 | the two exclusive ors of the code are the gABI's conditional fold and mask, for every state whose top bits are clear |
| SymbolHash.SysvTopClear | cpp/xhook/xh_elf.c:302-314 | the hash never has one of its four top bits set |
| SymbolHash.ComputeGnuHash | cpp/xhook/xh_elf.c:317-326 | the shift-and-add loop with 32-bit wrap-around is the GNU hash modulo 2^32 |
| SymbolIndex.CStrMeans | cpp/xhook/xh_elf.c:364-366 | a symbol's name is the bytes of the string table from st_name on up to the first zero byte |
| CString.StrCmpMeans | cpp/xhook/xh_core.c:78-81 | strcmp orders by the first byte that differs, a string that ends first being the smaller; it is the order of the tree of records |
| SymbolIndex.GnuLookupDef | cpp/xhook/xh_elf.c:377-414 | on a well-formed table the Bloom test, bucket and chain walk find a defined symbol exactly when the plain scan of the defined symbols does, and the same one |
| SymbolIndex.GnuLookupUndef | cpp/xhook/xh_elf.c:416-431 | the prefix scan finds the first undefined symbol with the name |
| SymbolIndex.GnuLookup | cpp/xhook/xh_elf.c:433-438 | the first defined symbol with the name, else the first undefined one; so it succeeds exactly when any symbol of the table bears it |
| SymbolIndex.WhaleGnuLookup | cpp/elf/elf_image.cc:59-81 | for ELF32 and a Bloom filter of power-of-two size, masking, shifting and biased chain indexing give the same result as GnuLookupDef: the same plain scan |
| SymbolIndex.SysvLookup | cpp/xhook/xh_elf.c:356-375 | on chains that hold each symbol, the System V walk gives the first symbol with the name on the chain of its hash, and finds one exactly when a symbol but the null symbol bears the name |
| SymbolIndex.FindSymidxByName | cpp/xhook/xh_elf.c:440-446 | the lookup gives one symbol, determined by the file and the name: the one GnuLookup or SysvLookup gives; it succeeds exactly when an indexed symbol has the name, and that symbol does |
| SymbolIndex.FirstNamedMeans | cpp/xhook/xh_elf.c:416-431 | the plain scan returns the first symbol of the range with the name |
| DynSection.XhElf.ParseDynamic | cpp/xhook/xh_elf.c:801-889 | on success every field holds what the last entry for it before DT_NULL says, GNU's table winning over System V's; it fails exactly at the first pointer below the file that is not a hidden DT_HASH; both also in terms of the literal tags, as FieldsOfTags and BadTag say |
| DynSection.XhElf.FieldsOfTags | cpp/xhook/xh_elf.c:809-887 | by literal tag: strtab is the pointer of the last entry with tag 5 (null if there is none), symtab of 6, relplt of 23 and its size of 2, reldyn of 17 or 7 and its size of 18 or 8, relandroid of 0x6000000f or 0x60000011 and its size of 0x60000010 or 0x60000012, is_use_rela whether the last entry with tag 20 is 7, and the hash fields those of 0x6ffffef5, else of 4 |
| DynSection.BadTag | cpp/xhook/xh_elf.c:815-878 | by literal tag: the entries that fail are the pointers of these tags below the file, but for tag 4 after tag 0x6ffffef5 |
| DynSection.OrderIrrelevant | cpp/xhook/xh_elf.c:801-889 | for any reordering of entries of which no two set one field, all fields but chain_cnt come out the same |
| DynSection.OrderMatters | cpp/xhook/xh_elf.c:801-889 | a reordering of entries of which no two set one field changes whether the parse succeeds if and only if the only pointer below the file is that of a DT_HASH, which DT_GNU_HASH comes before in one order and not in the other |
| DynSection.OrderExample | cpp/xhook/xh_elf.c:859-875 | one such reordering: with DT_HASH at 9 in a file at 16 and DT_GNU_HASH at 72, the parse fails with DT_HASH first and succeeds with DT_GNU_HASH first |
| DynSection.ReorderedCount | cpp/xhook/xh_elf.c:859-885 | for a reordering of entries of which no two set one field, chain_cnt comes out different if and only if the two hash tables change places and the count word of DT_HASH is not 0 |
| DynSection.ParseReordered | cpp/xhook/xh_elf.c:801-889 | two parses of one file with its entries in two orders: both succeed if no pointer is below the file; they differ exactly as OrderMatters says; and if both succeed every field but chain_cnt is equal, and chain_cnt differs exactly as ReorderedCount says |
| DynSection.ChainCountMeans | cpp/xhook/xh_elf.c:859-871 | chain_cnt is the count of DT_HASH if that entry comes before any DT_GNU_HASH, and 0 otherwise |
| DynSection.ChainCountOrder | cpp/xhook/xh_elf.c:859-885 | with DT_HASH first chain_cnt is the count of DT_HASH, with DT_GNU_HASH first it is 0; the two differ exactly when that count is not 0 |
| ElfHook.Memory.Hook | cpp/xhook/xh_elf.c:983-1046 | error results and the not-found case leave everything alone; else, for the symbol that FindSymidxByName gives, the words, protections, result and *old_func are those of replacing the wanted slots in order |
| ElfHook.InfoParts | cpp/xhook/xh_elf.c:64-70 | the symbol and type that the macros take from an info are those it was put together from, the type below 2^8 in ELF32 and 2^32 in ELF64, and no other |
| ElfHook.Memory.CheckInfo | cpp/xhook/xh_elf.c:958-964 | a relocation passes the checks exactly if its info is that of the symbol with a type that fits its table |
| ElfHook.ReplacesExactly | cpp/xhook/xh_elf.c:928-981 | on success exactly the wanted slots hold the new function and no other word changes; after an error exactly those before the failing slot |
| ElfHook.SavesLast | cpp/xhook/xh_elf.c:476-478 | *old_func is the original word of the last slot that was replaced, so never the new function; untouched if none was |
| ElfHook.Memory.HookTwice | cpp/xhook/xh_elf.c:983-1046 | two calls of xh_elf_hook with the same arguments: if the first succeeds the second does too and changes no word, no protection and not *old_func, and makes no mprotect call |
| ElfHook.HookAgain | cpp/xhook/xh_elf.c:455-457 | replacing slots that were all replaced before changes nothing and asks the kernel for nothing |
| ElfHook.RestoresPages | cpp/xhook/xh_elf.c:460-489 | if every mprotect call succeeds all pages have their old protections, and the only errors left are those of addresses and unlisted pages |
| ElfHook.FirstSlotMeans | cpp/xhook/xh_elf.c:1006-1017 | of the PLT table the first matching relocation is hooked |
| ElfHook.AllSlotsMeans | cpp/xhook/xh_elf.c:1020-1044 | of the other two tables every matching relocation is hooked and nothing else |
| ElfHook.Memory.ReplaceFunction | cpp/xhook/xh_elf.c:448-497 | one slot: the early return, the two mprotect calls and their failures, the save and the write; the write is never to a page that may not be written |
| ElfHook.Memory.FindAndReplaceFunc | cpp/xhook/xh_elf.c:928-981 | only a relocation of the symbol and of a type that fits the table is replaced, and an address below the file is a format error |
| ElfHook.Memory.HookPlt | cpp/xhook/xh_elf.c:1006-1017 | the loop over the PLT table |
| ElfHook.Memory.HookDyn | cpp/xhook/xh_elf.c:1020-1030 | the loop over the dynamic table |
| ElfHook.Memory.HookAndroid | cpp/xhook/xh_elf.c:1033-1044 | the loop over the packed table, through the packed iterator |
| ElfHook.ReplaceAppend | cpp/xhook/xh_elf.c:1006-1044 | hooking table after table is hooking the slots of all of them in one list, up to the first error |
| MemProtect.GetMemProtect | cpp/xhook/xh_util.c:44-103 | for sorted disjoint rows and a non-empty range the scan succeeds exactly when the private rows of the file leave no gap, and returns the protection common to all rows that meet the range |
| MemProtect.PageStartRounds | cpp/xhook/xh_util.c:40 | PAGE_START masks an address down to its page |
| MemProtect.PageCoversWord | cpp/xhook/xh_util.c:40-42 | the pages from PAGE_START to PAGE_END hold the whole word and begin and end on the pages of its first and last byte |
| MemProtect.AlignedOnOnePage | cpp/xhook/xh_util.c:110-116 | for a pointer-aligned slot PAGE_COVER is exactly one page |
| MemProtect.ListedWord | cpp/xhook/xh_util.c:105-108 | for a pointer-aligned slot the answer from the listing is the protection of its page |
| XhCore.Core.Refresh | cpp/xhook/xh_core.c:304-463 | after a refresh the tree, as a map, is the merge of the old bases with the lines; xh_core_hook was called exactly for the calls of the merge, in order; known paths keep their records; every record ever made is in the tree or was freed once, and never both; every path in the tree or newly hooked is not empty and begins neither with white space nor with a bracket |
| RefreshSpec.PathOfText | cpp/xhook/xh_core.c:343-356 | any path that is not empty and begins neither with white space nor with a bracket is what a line names in which it stands after white space, with or without a newline after it |
| RefreshSpec.PathOfMeans | cpp/xhook/xh_core.c:343-356 | a line names no path exactly when nothing or something in brackets follows the white space, and else what follows without its last newline |
| XhCore.Core.ReadPath | cpp/xhook/xh_core.c:343-356 | the loop past the white space and the cut give the path the line names |
| RefreshSpec.BasesAreFirst | cpp/xhook/xh_core.c:384-436 | the paths kept are exactly those with a qualifying line, each at the base of its first such line |
| RefreshSpec.HookedOnce | cpp/xhook/xh_core.c:406-440 | a path is hooked exactly once, at the base it is kept at, if it is new or its base changed, and else not at all |
| XhCore.Core.MergeLines | cpp/xhook/xh_core.c:327-441 | over all lines the old and the refreshed tree share no path and no record, each record made is in one of them or was freed, and the calls made are those of the merge so far |
| XhCore.Core.MoveOver | cpp/xhook/xh_core.c:389-412 | a known record moves from the old tree to the refreshed one and is hooked if its base changed; the branch for a repeat there is never taken |
| XhCore.Core.Create | cpp/xhook/xh_core.c:414-440 | a new record goes into the refreshed tree and is hooked, or is freed and not hooked when the path is there already |
| XhCore.Core.Rehook | cpp/xhook/xh_core.c:404-411 | the base is written and xh_core_hook called exactly when the base differs |
| XhCore.Core.Settle | cpp/xhook/xh_core.c:424-440 | what follows the insertion: a duplicate is freed, which is allowed only for a record in no tree, and nothing else is hooked |
| XhCore.Core.Sweep | cpp/xhook/xh_core.c:443-452 | every record left in the old tree is freed, and no other, and the refreshed tree stays as it is |
| XhCore.Core.FreeAll | cpp/xhook/xh_core.c:443-452 | the safe loop takes each record out of the tree before it frees it, frees each once, and ends with the empty tree |
| XhCore.Core.Clear | cpp/xhook/xh_core.c:612-619 | after clear every record ever made is freed and none remains in the tree |
| HookFilter.Attempts | cpp/xhook/xh_core.c:248-281 | hooks are attempted for exactly the entries matching the path that no matching ignore entry covers, in order, despite the early return and break |
| HookFilter.Match | cpp/xhook/xh_core.c:359-382 | the filter of the line loop decides on the first matching hook only |
| HookFilter.PrefilterSound | cpp/xhook/xh_core.c:359-382 | a path the filter lets through has a hook to attempt |
| HookFilter.PrefilterMisses | cpp/xhook/xh_core.c:359-382 | it keeps out a path with hooks to attempt exactly when the first matching hook is ignored |
| HookFilter.PrefilterIncomplete | cpp/xhook/xh_core.c:376-378 | and there is such a path |
| WorkerInvariant.Reachable | cpp/xhook/xh_core.c:465-607 | the protocol's invariant holds in every state of every run of any number of refresh calls, with clears that run alone |
| WorkerProtocol.Exclusion | cpp/xhook/xh_core.c:487-490 | at most one worker lives, and at most one thread is inside xh_core_refresh_impl or the freeing of clear |
| WorkerProtocol.PostsAreKept | cpp/xhook/xh_core.c:567-571 | no posted request is lost: it is still flagged, taken by the worker on its way to the refresh, or followed by the start of a refresh |
| WorkerProtocol.NoDeadlock | cpp/xhook/xh_core.c:583-607 | when no thread can step every call has returned, the worker sleeps with nothing to do or is gone, and each post was followed by a refresh or by a clear that stopped the worker; so clear is never left joining a sleeping worker |
| WorkerProtocol.ComesToRest | cpp/xhook/xh_core.c:465-607 | once no new call comes, every schedule reaches that rest within Rank steps and six more for each wait that ends without a signal |
| WorkerProtocol.Unblocked | cpp/xhook/xh_core.c:465-607 | every thread that is not waiting for a lock, a signal or a join can take a step |
| WorkerCalls.ReturnedServed | cpp/xhook/xh_core.c:552-581 | in every run, a call that returned 0 has posted a request of its own since it came if it was asynchronous, and run a refresh of its own if not; a refused call has done neither |
| WorkerCalls.CallRuns | cpp/xhook/xh_core.c:552-581 | and at every point on its way it has done so exactly if it is past its post or the start of its refresh |
| WorkerCalls.ClearLeaves | cpp/xhook/xh_core.c:583-645 | when clear is about to return nothing is initialised, the running flag is down and no worker lives |
| WorkerProtocol.UnknownWhen | cpp/xhook/xh_core.c:554-565 | a refresh call is refused exactly when registering the handler or creating the thread failed since the last clear, or another call is just then between its two flags |
| WorkerProtocol.RefusedWithoutFailure | cpp/xhook/xh_core.c:496-527 | a run in which a call gets XH_ERRNO_UNKNOWN while the other call's initialisation succeeds |
| TailQueue.InsertHead | cpp/xhook/queue.h:485-493 | puts elm before all elements; every tqe_prev addresses the cell that points at its element and tqh_last the final null cell |
| TailQueue.InsertBefore | cpp/xhook/queue.h:495-500 | puts elm right before an element, without the head |
| TailQueue.InsertAfter | cpp/xhook/queue.h:502-510 | puts elm right after an element |
| TailQueue.InsertTail | cpp/xhook/queue.h:512-517 | puts elm after all elements |
| TailQueue.Concat | cpp/xhook/queue.h:519-526 | for any two different queues, the second's elements follow the first's and the second is empty |
| TailQueue.Remove | cpp/xhook/queue.h:528-535 | takes out exactly the element, whose own next field still leads on |
| TailQueue.Swap | cpp/xhook/queue.h:537-552 | the two queues have each other's elements, also when one is empty or when a queue is swapped with itself |
| TailQueue.Prev | cpp/xhook/queue.h:439-440 | the cast of an entry to a head gives the element before, null for the first |
| TailQueue.Last | cpp/xhook/queue.h:442-443 | the same cast gives the last element, null for the empty queue |
| TailQueue.Drain | cpp/xhook/queue.h:455-458 | the safe loop with removal visits every element once, in order, and empties the queue |

## Left out

- Regular expressions are an uninterpreted predicate on pattern and path; string allocation and `malloc` always succeed.
- SIGSEGV recovery with `sigsetjmp`, real faults and the bytes of the ELF header: memory that is read is there, and the header check is a predicate of the base address.
- Reading `/proc/self/maps`, `sscanf` and the limit of 512 bytes a line: parsed rows and lines are inputs, and a failing `fopen` is not modelled.
- Concurrent register or ignore calls: hooks and ignore entries are complete sequences before the first refresh, and the two lists, whose queues are modelled apart, do not change during it.
- Two `xh_core_clear` calls at once, or a clear beside refresh calls: the protocol lets a clear begin only when no call is running.
- Memory order below the level of single reads and writes: the protocol's steps are atomic reads, writes and lock operations on shared flags.
- `xh_elf_init` before and after the dynamic section: finding segments, the `APS2` prefix of the packed section and the null checks of `xh_elf_check`.
- Relocation tables whose size is not a whole number of entries, on which the plain iterator reads past the end.
- Instruction cache flushing and logging.
- Overlapping words: memory is a map from aligned addresses to words, so slots are pointer-aligned, as the ABI has them.
- Arithmetic of raw table addresses inside the hash sections is on naturals and does not wrap.
- whale's `ElfLookup`, `LinearLookup` and `FindSymbolOffset`: the first is the System V walk again, the others add only easy members; `ElfParser::Parse` and the 64-bit Bloom word, whose width is wrong in the source.
- SLIST, LIST and STAILQ, the FROM and REVERSE loop forms and the debug dumps: repeats of what is modelled.
- ART method patching, JNI calls and symbol addresses under `cpp/art` and `cpp/base`: foreign layouts and calls.
- MemProtect.GetMemProtect: takes ranges that do not wrap around the address space and are not empty, which is how the source calls it.
- Sleb128.Decoder.ReadOne: a payload shifted by w or more, which C leaves undefined, gives no bits here; EncodeShort shows canonical numbers never do that.
- SplayTree.Head.MinMax: takes a sign other than 0, as its callers do; with 0 the loop of the source does not end.
- TailQueue.Concat: a queue appended to itself, which the macro empties, is not covered.
- SymbolIndex.WhaleGnuLookup: ELF32 only.
