# The Raygun APM extension, verified

The C extension in `ext/raygun` of the Raygun profiler for Ruby traces method calls. It decides
with radix trees of rules which methods to report, follows calls on a shadow stack, encodes
events into a binary wire format, packs them into batches and hands them through a two-region
ring buffer to a thread that sends them. This project models those parts in Dafny and proves
what they promise.

| module | what it is about |
|---|---|
| `Wrappers`, `Bytes` | an option type; byte strings and their lexicographic order |
| `RaxTree`, `RaxZipper`, `RaxOrder`, `RaxRank` | the radix tree as a value: well-formedness, lookup, positions, the sorted listing of its entries, and where a position or a string falls in it |
| `RaxCanonical` | maximal compression determines the tree |
| `RaxHeap` | node objects that hold a tree, without sharing |
| `RaxEdit`, `Rax` | insertion: what each step does to the tree, and the class that does it on the objects |
| `RaxRemoval`, `RaxRemove` | removal, with the upward cleanup and the recompression |
| `RaxCompression` | what the recompression leaves, and which removals keep the tree compressed |
| `RaxIterator` | the ordered iterator, its steps and its seeks |
| `RaxRuns` | freeing a tree, filling it in any order, runs of insertions and a removal, and a seek that leaves stale data |
| `RaxNodeBytes`, `RaxNodeObjects` | the packed bytes of one node, and how the same edits keep them an encoding of the node object |
| `MethodFilter` | the verdict of the rules that are prefixes of a string |
| `MethodRules` | the verdict on a method from exact rules, a scan of the path rules and prefixes |
| `MethodTable` | the table of methods in front of the rules |
| `BipBuffer` | the ring buffer as a queue of bytes and of whole messages |
| `WireEncoder` | events, their sizes, their bytes and a decoder |
| `Dispatch`, `DispatchRuns` | batches and the consumer, step by step and over all runs |
| `ShadowStack` | calls and returns of one thread |
| `TracedCalls` | calls and returns with the table of methods in front |

The objects that the C code updates in place are classes whose methods are proved against
functions on values: the tree and its iterator (`Rax`, `RaxIterator`), the bytes of a node
(`RawNode`), the ring buffer (`BipBuf`), the sink with its batch and ring (`BatchedSink`), the
table of methods (`MethodCache`) and the thread (`TracedThread`). The laws are then lemmas about
those functions and about runs of them.

Some properties one would expect do not hold of the code. Each of them is stated with the exact
condition under which it does hold, and with a concrete case where it does not:

- A seek with `<` or `<=` that ends inside the string of a key node finds the right key but does
  not load its data (`RaxIterator.Seek`, `RaxRuns.StaleSeek`). The scan of the path rules reads
  that data, so a blacklisted path can come out unlisted (`MethodRules.FreshExactly`,
  `MethodRules.StaleExactly`, `MethodRules.StaleRule`).
- The scan of the path rules starts at the greatest rule that is not above the path. Without one
  it does not start, and a rule such as `Foo#` is not seen (`MethodRules.HashRule`,
  `MethodRules.HashRuleMissed`), although the comment at `ext/raygun/raygun_tracer.c:1030-1034`
  says it is.
- Nor is a rule such as `A#` for a class of one letter, because the scan compares only keys of more
  than two bytes (`MethodRules.HashRule`, `MethodRules.ShortHashRule`).
- A rule that is the empty string is not seen for strings that start like no other rule
  (`MethodFilter.EmptyRule`, `MethodFilter.EmptyRuleMissed`).
- `bipbuf_poll` checks only the capacity. That it never takes more than it should is a property
  of the whole pipeline (`BipBuffer.PollExactly`, `BipBuffer.PollTooMuch`,
  `DispatchRuns.FramedFifo`).
- Ten sizes of large events overrun the batch buffer by up to ten bytes
  (`Dispatch.OverrunExactly`, `Dispatch.OverrunEvent`, `DispatchRuns.OverrunsExactly`).
- The two scans of the recompression after a removal do not agree on a chain that is longer than
  a node can be but starts with two nodes that fit: the second one writes past the new node
  (`RaxRemoval.ScansDiffer`, `RaxRemoval.LongKeyOverruns`, `RaxRuns.BuildForked`).
- A removal does not always compress back a chain of single-child nodes that are no keys, as
  `ext/raygun/rax.h:91-93` says it must: it does not try when the node of the key is itself
  compressed (`RaxCompression.CompressedExactly`, `RaxCompression.CompressedKeyLeavesChain`).
- Maximal compression, which insertions keep, is lost by a removal in that case, below a key with
  a single child, and when a key is left with a single child that could be absorbed
  (`RaxCompression.CompressedExactly`, `RaxCompression.KeyAboveLeavesChain`,
  `RaxCompression.ForkedKeyLeavesChain`). Insertions keep it exactly when they need not cut the
  key (`Rax.Rax.GenericInsert`, `RaxRuns.FirstKeySnug`).
- Registering libraries does not empty the table of methods. A method that was seen before keeps
  its source (`MethodTable.CacheExactly`, `MethodTable.RegisteredTooLate`).
- The END of a call carries the id of its BEGIN only as long as the blacklist does not change
  while the call is open (`TracedCalls.SameIdExactly`, `TracedCalls.ChangedInside`).
- A synchronization method called exactly one library frame deep is pushed on the shadow stack
  and never popped (`ShadowStack.BalancedExactly`, `ShadowStack.SyncLeaks`).

`dafny verify dfyconfig.toml` checks the whole project.

## Model

| member | source | states |
|---|---|---|
| Bytes.LessMeans | ext/raygun/rax.c:460-501 | The byte order of keys: the first byte that differs decides, and otherwise the length |
| RaxTree.GoodWeaken | ext/raygun/rax.c:1072-1087 | A maximally compressed tree is a well-formed one; the converse is not claimed, since a removal may leave a chain uncompressed |
| RaxTree.LookupChild | ext/raygun/rax.c:460-501 | Looking a key up below an edge is looking up the rest of the key in the child behind it |
| RaxTree.SomeKey | ext/raygun/rax.c:1041-1058 | Every node but the root of an empty tree has a key at or below it: no dead branches are kept |
| RaxZipper.ChainPlug | ext/raygun/rax.c:486 | The ancestors that a walk stacks, with the node it stopped at, put together again are the whole tree |
| RaxZipper.PlugLookup | ext/raygun/rax.c:510-885 | Replacing the subtree at a position changes exactly the keys that continue the path to it |
| RaxZipper.OnePosition | ext/raygun/rax.c:460-501 | Only one position in the tree is spelled by a string, so the node of a key is one node |
| RaxZipper.PlugNodes | ext/raygun/rax.c:774-882 | The nodes of the tree are those around a position and those below it, which is what lets numnodes be kept by local counting |
| RaxOrder.EntryIffLookup | ext/raygun/rax.c:919-928 | An entry is listed in tree order exactly when looking its key up gives its value |
| RaxOrder.EntriesAscending | ext/raygun/rax.c:1301-1314 | Node first, then children from left to right, is strictly increasing byte order of the keys |
| RaxOrder.EntriesCut | ext/raygun/rax.c:1314-1411 | The listing is what precedes a position, what lies below it and what follows it: the invariant behind stepping up and down |
| RaxOrder.MapLookup | ext/raygun/rax.c:919-928 | The finite map a tree stands for has the keys that lookups find, with their values |
| RaxCanonical.SameEdges | ext/raygun/rax.c:677-885 | Maximally compressed trees with equal contents have the same edges at the root |
| RaxCanonical.Canonical | ext/raygun/rax.c:677-885 | Maximally compressed trees with equal contents are equal trees, node by node |
| RaxRuns.SameMapSameTree | ext/raygun/rax.c:677-885 | The same for the maps the trees stand for |
| RaxRuns.FillPermuted | ext/raygun/rax.c:905-907 | Two orders of the same distinct entries fill the same map |
| RaxRuns.InsertAll | ext/raygun/rax.c:905-907 | A new tree filled by any sequence of insertions of keys of any length holds the map of the entries, later ones winning, and is maximally compressed when all keys fit a node |
| RaxRuns.TwoOrders | ext/raygun/rax.c:677-885 | Inserting the same distinct entries in two orders builds trees with equal contents, and structurally identical ones when all keys fit a node |
| RaxRuns.BuildTree | ext/raygun/rax.c:905-907 | Every maximally compressed tree whose keys fit a node is the tree that insertions of its entries build |
| RaxRuns.BuildAndRemove | ext/raygun/rax.c:1023-1220 | A run that builds such a tree and removes a key ends compressed exactly under the condition on the tree before |
| RaxRuns.FirstKeySnug | ext/raygun/rax.c:849-879 | In an empty tree insertion keeps maximal compression exactly for the keys that fit a node, so that any longer key is a case where it does not |
| RaxRuns.BuildForked | ext/raygun/rax.c:905-907 | The tree on which the removal of the key ab makes the two scans differ is built by inserting ab and one key of RAX_NODE_MAX_SIZE + 1 bytes |
| RaxHeap.ObjsCount | ext/raygun/rax.c:747-882 | A tree of node objects without sharing has exactly as many objects as the tree has nodes |
| RaxHeap.FocusRoot | ext/raygun/rax.c:486-490 | The objects of the ancestors and those below a position together hold the whole tree |
| RaxHeap.FindLink | ext/raygun/rax.c:935-944 | The unbounded scan for the link to a child stops, at the first slot that links to it |
| RaxHeap.LinkOnlyAt | ext/raygun/rax.c:935-944 | No other slot of a parent links to the same child |
| RaxHeap.ReleasesExactly | ext/raygun/rax.c:1051-1056 | When every object that is gone was freed once and no other was freed, the freed ones are, each once, those that were there before and are not after |
| RaxEdit.InsertSorted | ext/raygun/rax.c:300-388 | Putting a new byte at the first greater one keeps the edge bytes strictly sorted |
| RaxEdit.AddChildRecut | ext/raygun/rax.c:257-388 | A node with one more edge and nothing behind it stands for the same keys, all other edges leading where they led |
| RaxEdit.CompressRecut | ext/raygun/rax.c:398-431 | Turning a leaf into a compressed node above an empty child changes no key |
| RaxEdit.SplitLookup | ext/raygun/rax.c:678-783 | The split node of ALGO 1, with the postfix behind its edge, answers every key as the rest of the old node did |
| RaxEdit.PendingSplit | ext/raygun/rax.c:678-783 | After ALGO 1, trimmed or not and with or without postfix, the tree still holds exactly the old keys |
| RaxEdit.SplitNodes | ext/raygun/rax.c:747-774 | ALGO 1 adds one node for a trimmed part and one for a postfix, and no others |
| RaxEdit.PrefixDone | ext/raygun/rax.c:784-845 | ALGO 2 yields a well-formed tree that maps the key to the value and all other keys as before, with one more node, and keeps maximal compression |
| RaxEdit.GrowingStep | ext/raygun/rax.c:849-879 | A turn of the growth loop places the next bytes of the key and changes no other key; a turn cannot create a chain that could have been compressed |
| RaxEdit.GrowingDone | ext/raygun/rax.c:880-885 | When the key is used up, setting the data of the last node gives the old map with this key set, and the nodes are counted |
| Rax.Rax.constructor | ext/raygun/rax.c:204-213 | A new tree is empty, with one node and no element |
| Rax.Rax.LowWalk | ext/raygun/rax.c:460-501 | The walk stops at a node whose ancestors are exactly the stacked ones, having spelled the consumed bytes, at a byte that does not match or at the end of the key |
| Rax.WalkLookup | ext/raygun/rax.c:919-928 | Where the walk stops tells whether the key is in the tree, and with what value |
| Rax.OneStop | ext/raygun/rax.c:460-501 | The walk for a string stops at one node only, having consumed the same bytes |
| Rax.Rax.SplitForMismatch | ext/raygun/rax.c:678-783 | ALGO 1 on the objects: whatever the split position, what is linked in place of the old node holds the split tree, all new nodes are counted, and the insertion goes on at the split node |
| Rax.Rax.SplitForPrefix | ext/raygun/rax.c:784-845 | ALGO 2 on the objects: the trimmed node is linked in place of the old one and the postfix holds the new key |
| Rax.Rax.GrowPath | ext/raygun/rax.c:849-879 | The growth loop ends with the whole key placed, whatever its length, and creates only fresh nodes |
| Rax.Rax.GenericInsert | ext/raygun/rax.c:510-885 | Insertion refines map update: it reports whether the key was absent and its old value, sets the key unless it was present and may not be overwritten, changes no other key, keeps numele the number of keys and numnodes the number of nodes, and releases exactly the nodes that are no longer in the tree, each once; it keeps maximal compression if and only if what the walk does not consume of the key makes one node, or an edge and one node |
| Rax.Rax.Find | ext/raygun/rax.c:919-928 | A lookup returns the value the map gives the key, or that there is none |
| RaxRemoval.VacatedUp | ext/raygun/rax.c:1051-1059 | A parent that is no key and has only the freed child led to the removed key alone |
| RaxRemoval.VacatedDone | ext/raygun/rax.c:1061-1074 | Unlinking the topmost freed child leaves every key but the removed one as it was |
| RaxRemoval.Unkeyed | ext/raygun/rax.c:1036-1037 | Clearing the key of a node with children removes that key and no other |
| RaxRemoval.MergeLookup | ext/raygun/rax.c:1155-1215 | One compressed node above the end of a chain answers every key as the chain did |
| RaxRemoval.MergeBound | ext/raygun/rax.c:1164 | The bytes of a chain are part of some key, so chains of keys that fit a node fit a node |
| RaxRemoval.RemovedMerge | ext/raygun/rax.c:1155-1215 | Merging a chain keeps the contents and lowers the number of nodes by the merged ones but one |
| RaxRemove.Reclaim | ext/raygun/rax.c:1048-1060 | The upward loop frees exactly the nodes that led to the removed key alone and stops at the first one that has to stay |
| RaxRemove.Unlink | ext/raygun/rax.c:950-1019 | Removing a child takes the edge byte and the link with the same index, or the string of a compressed node |
| RaxRemove.Climb | ext/raygun/rax.c:1142-1153 | The climb stops at the uppermost node of the chain that can be compressed, with its parent |
| RaxRemoval.ScansDiffer | ext/raygun/rax.c:1155-1198 | The second scan, which has no cap, writes more bytes than were allocated exactly when the chain does not fit a node but its first two nodes do; otherwise both scans count the same nodes and bytes |
| RaxRemoval.ShortKeysFit | ext/raygun/rax.c:1155-1198 | In a tree whose keys all fit a node no removal meets such a chain |
| RaxRemoval.LongKeyOverruns | ext/raygun/rax.c:1155-1198 | One key of RAX_NODE_MAX_SIZE + 1 bytes is enough: a maximally compressed tree of two keys, of which the removal of the shorter one meets such a chain |
| RaxRemove.MeasureChain | ext/raygun/rax.c:1155-1168 | The first scan counts the nodes and bytes of the chain up to the first node that would not fit, for chains of any length |
| RaxRemove.CollectChain | ext/raygun/rax.c:1186-1198 | The second scan collects the same bytes as the first and frees every node of the chain |
| RaxRemove.Merge | ext/raygun/rax.c:1169-1215 | A chain that fits a node becomes one node with its string above the first node that stays, linked from the parent or the root; the tree holds what it held, and the nodes of the chain are released |
| RaxRemove.Remove | ext/raygun/rax.c:1023-1220 | Removal refines map deletion, for every tree and key unless the chain it leaves makes the two scans differ: it reports whether the key was present and its value, leaves all other keys and values intact, keeps numele and numnodes exact, releases exactly the nodes that are no longer in the tree, each once, leaves the tree that reclaiming, unlinking and recompression make of the position of the key, and keeps it compressed exactly under the condition of `RaxCompression.StaysCompressed` |
| RaxCompression.WithoutKeyRemoved | ext/raygun/rax.c:1048-1215 | Whatever is reclaimed, unlinked and merged, the tree afterwards is a well-formed tree of all other keys |
| RaxCompression.PlugTight | ext/raygun/rax.h:85-93 | A tree has no chain exactly when the context of a position has none, the subtree has none and the two make none |
| RaxCompression.RecompressedTight | ext/raygun/rax.c:1089-1215 | Recompression makes one node of the chain around a node; that node is in a chain again exactly when its parent is a key with a single child and key parents count |
| RaxCompression.TightExactly | ext/raygun/rax.c:1063-1087 | For keys that fit a node, whether or not chains below a key count: a removal leaves no chain exactly when, if the node of the key has one child, it is neither compressed with a parent or child it could be merged with nor plain below a key with a single child; and, if it has none, the node that loses a child is neither a key left with a child that could be merged nor left to be merged below a key with a single child |
| RaxCompression.CompressedExactly | ext/raygun/rax.h:91-93 | Maximal compression survives a removal exactly under that condition; and so does the promise that a chain of single-child nodes that are no keys is compressed back, which fails only when the node of the key is compressed and its parent or its child could be merged with it |
| RaxCompression.CompressedKeyLeavesChain | ext/raygun/rax.c:1084-1088 | Of the keys a and abc the removal of a leaves a chain of two nodes that are no keys, against the promise |
| RaxCompression.KeyAboveLeavesChain | ext/raygun/rax.c:1142-1153 | Of the keys "", x and xy the removal of x leaves a single child below a key that could be absorbed: the climb stops at the key, and nothing is merged |
| RaxCompression.ForkedKeyLeavesChain | ext/raygun/rax.c:1077-1082 | Of the keys "", ab and cd the removal of cd leaves a key with a single child that could be absorbed: a key is not looked at |
| RaxRuns.RecursiveFree | ext/raygun/rax.c:1224-1239 | The recursive free releases every node below its argument exactly once and lowers numnodes by their number |
| RaxRuns.Free | ext/raygun/rax.c:1243-1252 | Freeing a tree releases each of its nodes once and ends with numnodes 0, as the assertion demands |
| RaxRank.EntryAt | ext/raygun/rax.c:1314-1411 | The node of a key stands at the position in the tree whose count of preceding entries is the index of its entry |
| RaxRank.Sides | ext/raygun/rax.c:1301-1314 | All entries listed before a position are smaller than every string that continues its path, all listed after it are greater |
| RaxRank.SplitsOuter | ext/raygun/rax.c:1564-1570 | Where a string falls among the entries below a position is where it falls among all entries |
| RaxIterator.WalkSplits | ext/raygun/rax.c:1564-1570 | The node and the split position at which the walk for a string stops give the number of keys smaller than it and the number not greater |
| RaxIterator.WalkEndsInside | ext/raygun/rax.c:1666-1678 | The condition under which a backward seek keeps the node it stopped at holds exactly when the bytes of the element end inside the string of a key node |
| RaxIterator.BestForward | ext/raygun/rax.c:1629-1641 | Seeking forwards, the first entry not before the element is the nearest one the operator wants |
| RaxIterator.BestBackward | ext/raygun/rax.c:1642-1655 | Seeking backwards, the last entry before the element is the nearest one the operator wants |
| RaxIterator.RaxIterator.constructor | ext/raygun/rax.c:1259-1268 | A new iterator is at the end, with an empty key and no data |
| RaxIterator.RaxIterator.SeekGreatest | ext/raygun/rax.c:1415-1429 | Always going down the last child reaches the greatest key below the node; stack and key buffer spell the path to it |
| RaxIterator.RaxIterator.Advance | ext/raygun/rax.c:1314-1411 | The forward scan goes from the entry to the next one in the listing with its data, or reports the end and leaves key, node and stack as they were |
| RaxIterator.RaxIterator.Retreat | ext/raygun/rax.c:1434-1505 | The backward scan goes to the previous entry with its data, or reports the end and leaves everything as it was |
| RaxIterator.RaxIterator.Next | ext/raygun/rax.c:1696-1706 | raxNext moves from entry k to entry k + 1; right after a seek it stays, and at the end nothing changes |
| RaxIterator.RaxIterator.Prev | ext/raygun/rax.c:1711-1721 | raxPrev moves from entry k to entry k - 1; right after a seek it stays, and at the end nothing changes |
| RaxIterator.RaxIterator.Spell | ext/raygun/rax.c:1578-1602 | The edges between the nodes of the stack, each found by its link, spell the path from the head to the current node |
| RaxIterator.RaxIterator.SeekWithin | ext/raygun/rax.c:1657-1684 | An element that ends at the node or inside its string: the nearest entry in the direction of the operator; in the one branch that does not step, key and node are right and the data is the one from before |
| RaxIterator.RaxIterator.Seek | ext/raygun/rax.c:1511-1691 | For every tree, element and operator the iterator ends on the nearest entry the operator wants, with node, stack and key of it, and at the end exactly when there is none: the first key greater (or equal) for > (>=), the last one smaller (or equal) for < (<=), the key itself for =, the first and the last for ^ and $; the data is that of the entry except after a backward seek that ends inside the string of a key node, which leaves the data untouched |
| RaxIterator.RaxIterator.CollectForwards | ext/raygun/rax.c:1696-1706 | Seeking '^' and stepping with raxNext terminates having visited every key once, in increasing order, with its data |
| RaxIterator.RaxIterator.CollectBackwards | ext/raygun/rax.c:1711-1721 | Seeking '$' and stepping with raxPrev visits exactly the reverse |
| RaxRuns.StaleSeek | ext/raygun/rax.c:1666-1678 | For the keys f and foobar of the comment in the source, a new iterator that seeks "<=" of foo stops on f and reports NULL, although f is mapped to 1 |
| RaxNodeBytes.PaddingStep | ext/raygun/rax.c:155-160 | One more byte shortens the padding by one, or opens a new word of it |
| RaxNodeBytes.LengthAligned | ext/raygun/rax.c:155-171 | Four header bytes and the characters are padded to the next multiple of eight, where the pointers start; the length counts eight bytes for each of them and for stored data |
| RaxNodeBytes.RoomFor | ext/raygun/rax.c:178-184 | One more edge moves the pointers by a whole word or not at all, and the test for removing the word again is the exact inverse |
| RaxNodeBytes.AddedLayout | ext/raygun/rax.c:300-388 | The moves of raxAddChild insert into the character and pointer arrays at the same sorted position and keep the data pointer |
| RaxNodeBytes.CutLayout | ext/raygun/rax.c:979-1008 | The moves of raxRemoveChild delete from both arrays at the same index and keep the data pointer |
| RaxNodeBytes.RawNode.AddChild | ext/raygun/rax.c:257-388 | On the bytes: sorted insertion into both arrays, within a block of exactly the new length, with the data pointer kept under every padding |
| RaxNodeBytes.RawNode.RemoveChild | ext/raygun/rax.c:950-1019 | On the bytes: the first pointer to the child and the byte with its index go, or the whole string of a compressed node; the data pointer stays |
| RaxNodeBytes.RawNode.AddAndRemove | ext/raygun/rax.c:257-388 | Removing the child that was just added restores what the node holds |
| RaxNodeBytes.RawNode.CompressNode | ext/raygun/rax.c:398-431 | On the bytes: the string, the single pointer behind its padding, and the data pointer that was saved before, in a block of exactly that length |
| RaxNodeBytes.RawNode.InsertHere | ext/raygun/rax.c:526-551 | Making a node a key, or replacing its data, always finds room for the data pointer, whatever was left behind the node by earlier removals or NULL values |
| RaxNodeBytes.RawNode.GetData | ext/raygun/rax.c:240-246 | The data read is the data held, NULL included |
| RaxNodeBytes.RawNode.SetData | ext/raygun/rax.c:227-237 | Setting the data keeps characters and pointers, and needs no room for NULL |
| RaxNodeBytes.RawNode.ClearKey | ext/raygun/rax.c:1036 | Taking the key away leaves the edges in place, with a block longer than the node |
| RaxNodeObjects.AddChildTo | ext/raygun/rax.c:257-388 | Bytes and node object side by side: adding a child to both, at the position the byte scan finds, keeps the bytes an encoding of the object |
| RaxNodeObjects.RemoveChildOf | ext/raygun/rax.c:928-1019 | The first pointer to the child in the bytes and its first link in the object have the same index; removing both keeps the encoding |
| RaxNodeObjects.SetDataOf | ext/raygun/rax.c:227-237 | Setting the data of both keeps the encoding, the NULL flag included |
| RaxNodeObjects.CompressNodeOf | ext/raygun/rax.c:398-431 | Compressing both keeps the encoding |
| MethodFilter.WalkPrefix | ext/raygun/rax.c:460-501 | The bytes the walk consumes are a prefix of some key of a tree that is not empty |
| MethodFilter.WalkLongest | ext/raygun/rax.c:460-501 | The walk consumes exactly the longest prefix that the needle shares with any key |
| MethodFilter.NoneInside | ext/raygun/raygun_tracer.c:1074-1081 | No rule ends inside an edge, so going up node by node misses none |
| MethodFilter.NoneBeyond | ext/raygun/raygun_tracer.c:1068 | No rule that is a prefix of the needle lies beyond the node where the walk stopped |
| MethodFilter.DecidesUnique | ext/raygun/raygun_tracer.c:1054-1085 | The rules give at most one verdict on a string |
| MethodFilter.TwoVerdicts | ext/raygun/raygun_tracer.c:1054-1085 | With rules that only whitelist or blacklist: whitelisted exactly when some prefix is whitelisted, otherwise blacklisted exactly when some prefix is a rule, otherwise unlisted |
| MethodFilter.ShortestDecides | ext/raygun/raygun_tracer.c:1054-1085 | Of the rules F with 3 and Fo with 2 the shorter one decides on Foo, and a whitelisted Foo over both |
| MethodFilter.BlacklistedString | ext/raygun/raygun_tracer.c:1054-1085 | The answer is the verdict of the rules that are prefixes of the needle: a whitelisting one wins, otherwise the shortest decides; unlisted when the walk does not leave the root |
| MethodFilter.EmptyRule | ext/raygun/raygun_tracer.c:1069-1072 | The answer agrees with the rules exactly when the walk leaves the root or no empty rule says otherwise |
| MethodFilter.EmptyRuleMissed | ext/raygun/raygun_tracer.c:1069-1072 | An empty rule that blacklists everything is not seen for a string that starts like no other rule |
| MethodRules.StrncmpPrefix | ext/raygun/raygun_tracer.c:1124-1137 | Comparing over the length of a key without NULs tests whether the key is a prefix |
| MethodRules.ScanPaths | ext/raygun/raygun_tracer.c:1120-1145 | The loop over the path rules yields what a scan of the sorted rules from the greatest one not above the path yields, including the missing data of its first entry |
| MethodRules.GivingUpHarmless | ext/raygun/raygun_tracer.c:1124-1127 | When the full name starts with the path, no rule that matches it makes the loop give up |
| MethodRules.NoStopBefore | ext/raygun/raygun_tracer.c:1124-1127 | Nor does any rule the loop comes to before it: giving up at a key with a greater first byte skips no such rule |
| MethodRules.AllStop | ext/raygun/raygun_tracer.c:1124-1127 | When the first rule that matches starts with a greater byte than the path, all later ones do, so that the loop finds none of them |
| MethodRules.ScanMeans | ext/raygun/raygun_tracer.c:1120-1145 | The rule that decides is the shortest prefix of the full name that ends in "::" or "#" and does not start with a greater byte than the path, among those above the path and the nearest one before it, provided the loop has an entry to start from |
| MethodRules.BlacklistedMethod | ext/raygun/raygun_tracer.c:1089-1157 | The verdict on a method in terms of the three rule maps, whether or not the full name starts with the path: a rule for the full name decides whatever else there is, then one for the exact path, then one for the exact method; then the scan; and when it finds nothing, the prefixes of the path, whitelisting ones first, and only then those of the name |
| MethodRules.ExactRuleFirst | ext/raygun/raygun_tracer.c:1096-1110 | With F#b whitelisted and the path F blacklisted the method F#b is whitelisted |
| MethodRules.MarkedRuleDecides | ext/raygun/raygun_tracer.c:1121-1142 | A marked rule that the scan finds behind the path decides before all prefixes |
| MethodRules.EndsMeans | ext/raygun/raygun_tracer.c:1128-1142 | Marked rules have at least three bytes and end in "#" or "::" |
| MethodRules.InsideLeads | ext/raygun/rax.c:1666-1678 | A path that ends inside the string of a key node properly extends a rule all of whose longer rules go on like the path |
| MethodRules.StaleExactly | ext/raygun/rax.c:1666-1678 | In trees built by insertions the data of the first entry is missing exactly for the paths that the rules alone shadow in this way |
| MethodRules.FreshExactly | ext/raygun/raygun_tracer.c:1121-1142 | The verdict is the one the rules give exactly when the scan does not find a listed rule before the path whose data is missing |
| MethodRules.StaleRule | ext/raygun/raygun_tracer.c:1121-1142 | With the blacklist A:: and A::BC the method A::B#x is unlisted |
| MethodRules.HashRule | ext/raygun/raygun_tracer.c:1030-1034 | A rule such as Foo# decides for the methods of Foo exactly when the path has at least two bytes, the scan is not blind and the nearest rule before the path does not match |
| MethodRules.PathRulesUnseen | ext/raygun/raygun_tracer.c:1121-1123 | When all path rules are above the path none of them counts, not even one that is a prefix of the full name |
| MethodRules.HashRuleMissed | ext/raygun/raygun_tracer.c:1030-1034 | With Foo# as the only rule Foo#bar is unlisted, against the comment on the rule syntax |
| MethodRules.ShortHashRule | ext/raygun/raygun_tracer.c:1128-1142 | With the path rules A# and 0, both blacklisted, A#x is unlisted although the scan starts: keys of two bytes are not compared |
| MethodTable.LookedKeeps | ext/raygun/raygun_tracer.c:1664-1678 | A lookup keeps the table tied to the announcements, and the id it answers was announced for this method |
| MethodTable.CacheExactly | ext/raygun/raygun_tracer.c:1434-1462 | However calls, rule changes, library registrations and repetitions are mixed: the table answers nothing exactly for the methods the current rules blacklist, and it answers the right source exactly for those that were not known as user code when their library was registered, since the last flush |
| MethodTable.RegisteredTooLate | ext/raygun/raygun_tracer.c:2501-2522 | Registering libraries does not flush the table: a method called before its library is registered stays user code |
| MethodTable.StepInv | ext/raygun/raygun_tracer.c:1664-1728 | Every step keeps the ids of the table announced and the events in order; the BEGIN of a reported call carries an id announced for the called method |
| MethodTable.ResyncQuiet | ext/raygun/raygun_tracer.c:654-704 | Repeating the METHODINFO of every known method, in whatever order the table is walked, announces nothing new |
| MethodTable.AnnouncedBefore | ext/raygun/raygun_tracer.c:1434-1462 | Over all runs, rule changes and repetitions every BEGIN comes after a METHODINFO with its id, and all METHODINFO events with that id name the same method: ids are never reused |
| MethodTable.EntryStays | ext/raygun/raygun_tracer.c:266-269 | Until the blacklist changes a method keeps its entry and id |
| MethodTable.MethodCache.Discover | ext/raygun/raygun_tracer.c:1381-1500 | A new method gets the next id and is announced; entrypoints come before synchronization methods, and those before libraries |
| MethodTable.MethodCache.LookUp | ext/raygun/raygun_tracer.c:1664-1678 | The lookup of a call on the table in place does what the specification of the cache says |
| MethodTable.MethodCache.FlushCaches | ext/raygun/raygun_tracer.c:266-269 | After a flush nothing is cached, and the id counter goes on |
| MethodTable.MethodCache.EmitMethodInfos | ext/raygun/raygun_tracer.c:654-704 | The periodic walk over the table sends the METHODINFO of every known method exactly once and leaves the table as it is |
| MethodRules.RegisteringGrows | ext/raygun/raygun_tracer.c:2501-2522 | Registering a library never takes one away: a path that was a library path stays one |
| BipBuffer.OfferedQueue | ext/raygun/bipbuffer.c:76-95 | An accepted offer appends its bytes to the queue in one piece, in region B exactly when it is in use, and the regions stay apart |
| BipBuffer.PolledQueue | ext/raygun/bipbuffer.c:109-138 | A poll within region A takes that many bytes from the front, and when A is used up B takes its place |
| BipBuffer.PollExactly | ext/raygun/bipbuffer.c:109-138 | bipbuf_poll, which checks only the capacity, works as a queue exactly when asked for no more than region A holds |
| BipBuffer.PollTooMuch | ext/raygun/bipbuffer.c:114-119 | A poll past region A is let through and breaks the regions |
| BipBuffer.EmptyMeansEmpty | ext/raygun/bipbuffer.c:23-66 | The buffer reports empty exactly when both regions are, and then all of it is free; used and unused never exceed the capacity |
| BipBuffer.OfferedBehind | ext/raygun/bipbuffer.c:68-95 | After an accepted offer the space behind A is at least that in front of it unless B is in use, and B comes into use only when it is not |
| BipBuffer.PolledBehind | ext/raygun/bipbuffer.c:109-138 | The same after any poll; when A is used up B has taken its place and is free again |
| BipBuffer.WrapsAround | ext/raygun/bipbuffer.c:68-138 | Of eight bytes six are offered and three polled; three more are accepted, in front |
| BipBuffer.FramedOffer | ext/raygun/bipbuffer.c:76-95 | Offering a whole message keeps each region a row of whole messages |
| BipBuffer.FramedFirst | ext/raygun/bipbuffer.c:97-107 | The first message lies in region A in one piece |
| BipBuffer.FramedPoll | ext/raygun/bipbuffer.c:109-138 | Polling the size of the first message takes exactly that message and leaves rows of whole messages |
| BipBuffer.BipBuf.Offer | ext/raygun/bipbuffer.c:68-95 | In place: the offer succeeds exactly when the size is at most the bytes behind A, or between B and A when B is in use, otherwise nothing changes; after an accepted offer B is in use if it was or if the space in front of A is larger than that behind it |
| BipBuffer.BipBuf.Peek | ext/raygun/bipbuffer.c:97-107 | In place: a peek yields the start of region A exactly when the buffer is not empty and the capacity reaches that far, and changes nothing |
| BipBuffer.BipBuf.Poll | ext/raygun/bipbuffer.c:68-138 | In place: the poll does what the specification of the queue says, or nothing, depending on the capacity alone; afterwards B is in use if the space in front of A is larger than that behind it, or if it was and A is not used up |
| WireEncoder.LittleBack | ext/raygun/raygun_encoder.c:45-61 | Reading the bytes of a number of known width gives the number back |
| WireEncoder.LittleDigits | ext/raygun/raygun_encoder.c:45-61 | Numbers are sent least significant byte first, in one, two, four or eight bytes |
| WireEncoder.UnlittleTwo | ext/raygun/raygun_tracer.c:449-463 | Two bytes are read least significant first |
| WireEncoder.StringLimits | ext/raygun/raygun_encoder.c:64-411 | A string may have up to 4096 bytes, the verb of a request up to 255 |
| WireEncoder.EncodeSizeFits | ext/raygun/raygun_encoder.c:691-727 | The size of every event whose strings fit their buffers is at least the header and fits a positive signed 16-bit field and the scratch buffer |
| WireEncoder.SizeAgrees | ext/raygun/raygun_encoder.c:691-727 | For every event the size function is the header plus what the encoder copies |
| WireEncoder.FieldsBack | ext/raygun/raygun_encoder.c:45-411 | Reading fields by their layout undoes copying them one after the other, whatever follows |
| WireEncoder.RoundTrip | ext/raygun/raygun_encoder.c:456-688 | Decoding the bytes of any message returns its type, process, thread, time and every field, and the bytes behind it |
| WireEncoder.LengthPrefix | ext/raygun/raygun_encoder.c:45-61 | The first two bytes of a message are its own length |
| WireEncoder.HeaderAt | ext/raygun/raygun_encoder.c:45-61 | At their offsets the header holds the length, the type byte of each of the 14 events, process, thread and time in two's complement |
| WireEncoder.BeginAt | ext/raygun/raygun_encoder.c:369-387 | A BEGIN has 32 bytes: function id, instance id and an argument count of 0 |
| WireEncoder.EndAt | ext/raygun/raygun_encoder.c:303-411 | An END has 28 bytes: function id, then no tail call, an empty length, the void type and an empty name |
| WireEncoder.MethodInfoOnWire | ext/raygun/raygun_encoder.c:76-91 | METHODINFO: function id, class name and method name behind their lengths, source |
| WireEncoder.SqlOnWire | ext/raygun/raygun_encoder.c:113-139 | SQL: provider, host, database and query, each behind its encoding and length, then the duration |
| WireEncoder.HttpOnWire | ext/raygun/raygun_encoder.c:154-169 | HTTP requests: url behind two bytes of length, verb behind one, status, duration |
| WireEncoder.StringsOnWire | ext/raygun/raygun_encoder.c:182-195 | Process type: technology and process behind their lengths |
| WireEncoder.TransactionOnWire | ext/raygun/raygun_encoder.c:210-225 | The start of a transaction: api key, technology and process behind their lengths |
| WireEncoder.ExceptionOnWire | ext/raygun/raygun_encoder.c:584-598 | Exceptions: id, class name and correlation id |
| WireEncoder.FrequencyOnWire | ext/raygun/raygun_encoder.c:436-455 | Process frequency: one number of eight bytes |
| WireEncoder.ThreadOnWire | ext/raygun/raygun_encoder.c:534-542 | New threads: the id of the parent |
| WireEncoder.NothingOnWire | ext/raygun/raygun_encoder.c:691-727 | The end of a transaction, a thread or the process sends nothing behind the header |
| WireEncoder.EncodeHeader | ext/raygun/raygun_encoder.c:45-61 | The header writes its fields into the first 19 bytes and touches nothing behind them |
| WireEncoder.EncodeMessage | ext/raygun/raygun_encoder.c:642-665 | The helpers write the body first and the header with the total length afterwards; the buffer then starts with the encoded message of the returned size, with length, process and thread at their offsets, and a BEGIN and an END have the literal bytes of the protocol at theirs |
| WireEncoder.EncodeBody | ext/raygun/raygun_encoder.c:64-411 | Each event's encoder writes exactly its fields, in order, from the given position on, and nothing before it |
| Dispatch.EncodedIsEvent | ext/raygun/raygun_encoder.c:691-727 | What the encoder produces is what the sink takes: an event that starts with its own length |
| Dispatch.OverrunExactly | ext/raygun/raygun_tracer.c:574-595 | The last branch appends past the batch buffer exactly for events of the ten sizes 4084 to 4093, whatever the state of the sink, and by at most ten bytes |
| Dispatch.OverrunEvent | ext/raygun/raygun_encoder.c:691-727 | There are events of such a size: two strings of 4000 and 67 bytes, each within its buffer, encode to 4090 bytes |
| Dispatch.EmptyBatchHasRoom | ext/raygun/raygun_tracer.c:527-538 | The branch that returns early for an empty batch never drops an event |
| Dispatch.SinkBranches | ext/raygun/raygun_tracer.c:493-616 | Events that fit the 1400 bytes of the batch are collected; others of at most 1387 bytes start a new one; up to 4083 bytes they go out in a batch of their own behind the one under way; from 4094 on alone; a flush leaves exactly an empty batch as it is |
| Dispatch.ReturnsQueued | ext/raygun/raygun_tracer.c:493-616 | The result is positive exactly when the ring took what the call offered last: the batch under way, the large event, or the batch that holds the large event, and then it is its size |
| Dispatch.NextSizeSigned | ext/raygun/raygun_tracer.c:449-463 | The length prefix is read as a signed 16-bit number |
| Dispatch.PiecesOf | ext/raygun/raygun_tracer.c:449-463 | Walking length prefixes over the bytes of events gives back the events |
| Dispatch.BatchParses | ext/raygun/raygun_encoder.c:424-433 | A finished batch reads back as exactly its events, and at their offsets carries its length, the type byte 0xfa, the number of events, its sequence number modulo 2^32 and the process id, with the events from byte 13 on |
| Dispatch.ConsumeFramed | ext/raygun/raygun_tracer.c:883-917 | A turn of the consumer on a ring of whole messages takes exactly the first one, unchanged, and only an empty ring makes it stop |
| Dispatch.BatchedSink.EncodeIntoBatch | ext/raygun/raygun_encoder.c:416-421 | In place: the event is appended to the batch, whose buffer is large enough |
| Dispatch.BatchedSink.EncodeBatchHeader | ext/raygun/raygun_encoder.c:424-433 | In place: the 13 bytes of the header hold length, type, count, sequence number and process id at their offsets, and the sequence number counts on, wrapping at 2^32 |
| Dispatch.BatchedSink.Accept | ext/raygun/raygun_tracer.c:493-616 | In place, for every event and for the flush: the sink does what its specification says in all five branches and returns 1 or what the last offer took; it says so where the C code would append past its buffer, and stops there |
| Dispatch.BatchedSink.NextMessageSize | ext/raygun/raygun_tracer.c:449-463 | In place: the size read is the two-byte prefix at the front of the ring, or 0 |
| Dispatch.BatchedSink.TakeMessage | ext/raygun/raygun_tracer.c:883-917 | In place: one turn of the consumer does what its specification says |
| DispatchRuns.StepIsSink | ext/raygun/raygun_tracer.c:493-616 | The ledger only watches: its steps do to batch and ring what sink and consumer do, for every event the sink has room for |
| DispatchRuns.CloseKeeps | ext/raygun/raygun_tracer.c:543-569 | Finishing a batch keeps the ledger's invariant whether or not the ring takes it |
| DispatchRuns.SendRawKeeps | ext/raygun/raygun_tracer.c:577-583 | Sending a large event alone keeps the invariant, the pending events going to the losses |
| DispatchRuns.TurnKeeps | ext/raygun/raygun_tracer.c:883-917 | A turn of the consumer delivers the next packet if there is one, never leaves the loop, and changes nothing else |
| DispatchRuns.StepKeeps | ext/raygun/raygun_tracer.c:493-616 | Every step of sink, timer and consumer that does not overrun keeps the invariant; in particular the batch length stays between 13 and 1400 |
| DispatchRuns.FramedFifo | ext/raygun/raygun_tracer.c:449-616 | Over all runs that do not overrun the packets leave byte-identical and in the order they were queued, the ring holds the bytes of the others, and the consumer never reaches its error exits |
| DispatchRuns.DeliveredReadBack | ext/raygun/raygun_tracer.c:509-600 | Over the same runs every delivered packet is an event alone, or a batch that reads back as the events it was filled with, in order, with the type byte, its number and the process id of the run |
| DispatchRuns.LogPartition | ext/raygun/raygun_tracer.c:493-616 | Queued and lost chunks together hold every event that left the batch, each once |
| DispatchRuns.Conservation | ext/raygun/raygun_tracer.c:493-616 | Over the same runs every event given to the sink is in exactly one of the pending batch, the ring, the delivered packets and the losses |
| DispatchRuns.CloseLoses | ext/raygun/raygun_tracer.c:547-569 | A finished batch is lost exactly when the ring has less room than it needs |
| DispatchRuns.RefusedOnlyFull | ext/raygun/bipbuffer.c:68-95 | Over the same runs the ring refuses a chunk only when it does not fit between B and A, or, while B is not in use, is larger than both the space behind A and that in front of it |
| DispatchRuns.DiscardsOnlyRaw | ext/raygun/raygun_tracer.c:577-583 | Over the same runs pending events are thrown away only by an event that is sent alone, and then all of them |
| DispatchRuns.DeliveredNumbers | ext/raygun/raygun_encoder.c:424-433 | Over the same runs: of two batches delivered one after the other, at positions i < j, the packets carry increasing numbers, modulo 2^32 in bytes 5 to 8; when no batch was queued between them, the gap counts exactly the finished batches in between that the ring did not take |
| DispatchRuns.GapBetween | ext/raygun/raygun_encoder.c:424-433 | The same for two positions of the queue of what the ring took, by their positions in the log of all chunks |
| DispatchRuns.OverrunsExactly | ext/raygun/raygun_tracer.c:574-595 | A run is cut short exactly when it emits an event of one of the ten sizes; every other run of the sink is a run of the theorems here |
| DispatchRuns.SequenceAscends | ext/raygun/raygun_encoder.c:424-433 | In a log whose batches are numbered as they are made, later batches have greater numbers |
| DispatchRuns.SequenceGap | ext/raygun/raygun_encoder.c:424-433 | Between two batches of the log with no accepted batch between them, the gap of the numbers counts the lost ones |
| DispatchRuns.Drains | ext/raygun/raygun_tracer.c:880-917 | As many turns as there are packets in the ring deliver them all and leave the ring empty |
| ShadowStack.CleanExactly | ext/raygun/raygun_tracer.c:1653-1776 | A return right after its call restores the thread exactly under a condition on the call: stack and VM depth on the same side of the limit, and no synchronization method exactly one library frame deep |
| ShadowStack.CallKeeps | ext/raygun/raygun_tracer.c:1648-1728 | A clean call keeps the shadow stack equal to the open BEGINs, the level equal to the open library frames and the VM depth equal to the open frames |
| ShadowStack.ReturnKeeps | ext/raygun/raygun_tracer.c:1730-1804 | The return of the last frame keeps it too, reports an END exactly when the call reported a BEGIN, and pops the id it reports |
| ShadowStack.Balanced | ext/raygun/raygun_tracer.c:1644-1804 | Over all well-nested runs of clean calls BEGINs and ENDs match, and a run that has returned from every frame leaves the thread as it started |
| ShadowStack.ShallowBalanced | ext/raygun/raygun_tracer.c:1644-1804 | The same for runs within the depth limit without a synchronization method exactly one library frame deep |
| ShadowStack.BalancedExactly | ext/raygun/raygun_tracer.c:1690-1770 | Within the limits a completed run is balanced exactly when no synchronization method was called exactly one library frame deep; otherwise the shadow stack keeps one entry for each such call |
| ShadowStack.SyncLeaks | ext/raygun/raygun_tracer.c:1690-1770 | A library method that calls a synchronization method leaves an entry behind, and its END comes while the other BEGIN is open |
| ShadowStack.DeepRecursion | ext/raygun/raygun_tracer.c:1653-1739 | For runs of user code of any depth the shadow stack is the first 256 frames at every step, and the events are the run's projection onto them |
| ShadowStack.UserLimit | ext/raygun/raygun_tracer.c:1653-1739 | In runs of user code of any depth a call is reported exactly when fewer than 256 frames are open, a return when at most 256 are |
| ShadowStack.TracedThread.constructor | ext/raygun/raygun_tracer.c:1311-1314 | A new thread has no frames |
| ShadowStack.TracedThread.StackPush | ext/raygun/raygun_tracer.c:1568-1571 | A push stays within the 256 entries and appends the id |
| ShadowStack.TracedThread.StackPop | ext/raygun/raygun_tracer.c:1574-1577 | A pop returns the last id and leaves the others |
| ShadowStack.TracedThread.OnCall | ext/raygun/raygun_tracer.c:1648-1728 | In place: the call event does what its specification says, and the stack never overflows |
| ShadowStack.TracedThread.OnReturn | ext/raygun/raygun_tracer.c:1730-1804 | In place: the return event does what its specification says, and the stack never underflows |
| TracedCalls.StepKeeps | ext/raygun/raygun_tracer.c:1648-1804 | Over calls, returns, rule changes, registrations and repetitions the table is where its own log takes it, and every open frame is found as its call treated it, or with another id or not at all once the blacklist has changed |
| TracedCalls.SameIdExactly | ext/raygun/raygun_tracer.c:1730-1804 | Over all runs, for an open frame whose call was looked up and is not excluded: its return finds the method with the id and treatment of the call, announced for that method, exactly when the blacklist has not changed since the call |
| TracedCalls.CalmRefines | ext/raygun/raygun_tracer.c:1644-1804 | When the blacklist changes only while no call is open, and the shadow stack is full only that many frames deep, the thread and its events are those of the shadow stack alone and the table is that of the calls alone |
| TracedCalls.CalmBalanced | ext/raygun/raygun_tracer.c:1644-1804 | In such runs of clean calls BEGINs and ENDs match, and when all frames have returned the thread is as it was |
| TracedCalls.ReportsExactly | ext/raygun/raygun_tracer.c:1434-1770 | Over all runs of calls and returns within 256 frames and entries, whatever the rules: a call reports a BEGIN exactly when its method is not blacklisted and is an entrypoint, or a synchronization method at most one library frame deep, or a library method outside of libraries, or user code; a return an END under the same conditions with no library frame open for a synchronization method and exactly its own for a library method |
| TracedCalls.OutermostLibrary | ext/raygun/raygun_tracer.c:1682-1756 | When everything is library code, a call is reported exactly when no frame is open and a return exactly when it returns the only one |
| TracedCalls.SyncByDepth | ext/raygun/raygun_tracer.c:1690-1770 | A synchronization method is reported outside of libraries and not two library frames deep, whether or not it belongs to a library |
| TracedCalls.FullCall | ext/raygun/raygun_tracer.c:1648-1672 | A call that finds 256 entries on the shadow stack looks nothing up and discovers nothing; any other leaves its method in the table |
| TracedCalls.ChangedInside | ext/raygun/raygun_tracer.c:2445 | A blacklist change inside an open call of a method that calls itself: both ENDs carry the new id |

## Left out

- RaxRemove.Remove: asks `RemovalFits`, that the chain this removal leaves does not make the two scans of the recompression differ (`RaxRemoval.ScansDiffer` says when they do, `RaxRemoval.ShortKeysFit` that keys of at most `RAX_NODE_MAX_SIZE` bytes are safe); what the C code does after writing past the new node has no model. When the tree stays compressed is stated for keys of at most that size.
- RaxRuns.TwoOrders: that two orders of insertion build the same tree is claimed for keys of at most `RAX_NODE_MAX_SIZE` bytes; for longer ones only that the contents are the same.
- Rax.Rax.LowWalk: the node stack of the C code, which moves from a static array to the heap, is a sequence.
- RaxNodeBytes.RawNode.AddChild: the four header bytes are fields, not a packed bit field, and pointers are eight bytes; `RaxNodeObjects` joins bytes and objects node by node, not for a whole tree.
- RaxIterator.RaxIterator.Seek: the element does not alias the key buffer of the iterator, and the key buffer does not grow in steps.
- Node objects keep their identity where the C code reallocates them; links to moved nodes are rewritten only where the code links a new node.
- A key with NULL data is a key with value 0: the flags iskey and isnull are one optional value, except in the byte model.
- Out-of-memory paths, node callbacks, `raxRandomWalk`, `raxCompare`, `raxShow` and `raxTouch`.
- MethodRules.BlacklistedMethod: the byte in the iterator's buffer at an empty key is a parameter, and rules contain no NUL bytes, which Ruby refuses in such strings.
- MethodTable.MethodCache.Discover: classification by rules, libraries and synchronization methods is a parameter, methods are told apart by a number without collisions, function ids do not wrap at 32 bits, and the count of blacklisted methods and the stored encodings are not modelled; when the timer repeats METHODINFO is up to the run.
- Dispatch.BatchedSink.Accept: for an event of the ten sizes for which the C code writes past the batch buffer it says so and stops in the middle of the branch; nothing is claimed about what such a write does, and the runs of `DispatchRuns` end there (`DispatchRuns.OverrunsExactly`).
- DispatchRuns.FramedFifo: like the other theorems about runs, it is about runs that emit no event of the ten sizes, which are exactly those that do not write past the batch buffer (`DispatchRuns.OverrunsExactly`); a call of the sink and a turn of the consumer are atomic steps, in the order of the TCP thread, which polls and then copies; the UDP thread may sleep between the two.
- DispatchRuns.DeliveredNumbers: the order is that of the numbers before the wrap at 2^32; the bytes carry them modulo 2^32.
- Statistics counters of the sink, diagnostics, logging, sockets, reconnects and timers.
- WireEncoder.EncodeMessage: one encoder stands for the helpers, which differ in the event they fill in; the fields are values, not C structures, and the time comes from the caller.
- WireEncoder.EncodeEnd: the return value is void, as compiled; other variable types and the emission of arguments are compiled out.
- `rb_rg_event_encoded` for header-only events, which copies the C structure and not the wire format (ext/raygun/raygun_event.c:444-451).
- ShadowStack.Balanced: runs are well nested, and every call comes with its treatment, which `TracedCalls` takes from the table; beyond the depth limit the exact condition is stated for each call (`ShadowStack.CleanExactly`) and for runs of user code (`ShadowStack.DeepRecursion`).
- TracedCalls.CalmRefines: one thread, without calls of the tracer's own methods, which only count depth; what a return finds for a method that is not in the table is a parameter, because the C code does not set the variable then (ext/raygun/raygun_tracer.c:1592).
- The RAISE event, thread groups, and the delivery of PROCESS_ENDED on shutdown, which the code does not guarantee.
- Ruby objects, tracepoints, garbage collection, configuration and the Rails hooks.
