# What is proved about this repository

A firmware overlay for routers, whose C programs hold a few self-contained algorithms. This project
models twelve of them in Dafny and proves what they promise:

- **The firewall rule compiler** (`netfilter`, `rule_compiler`, `rule_builder`, `rule_meaning`,
  `rule_faithful`, `rule_exact`, `rule_cases`, `rule_examples`, `rule_intent`). A rule definition is a conjunction of categories, each
  "any of these tests" or "none of these tests". It becomes a linear iptables chain that computes on one
  byte of the connection mark, one bit per category. `rule_compiler` is the chain as a function,
  `rule_builder` the compiler as it is written, with its growing lists; `rule_meaning` runs chains,
  `rule_faithful` and `rule_exact` compare them with the definition, and `rule_intent` says what that
  asks for without any function of the compiler.
- **The balanced map** (`avl_tree`, `long_map`, `map_walks`): nodes on the heap that store only a balance,
  changed through slots that point into parents, with an explicit stack and early stops. A ghost tree
  mirrors the heap; the lemmas are about trees and paths.
- **The linked list and the priority queue** (`linked_list`, `priority_order`, `priority_queue`,
  `queue_runs`): a map from
  priorities to lists, an index from ids to places in them, and a cached first element.
- **Signed firmware** (`vboot_layout`, `vboot_verify`, `vboot_sign`, `vboot_chain`,
  `vboot_sound`): headers laid out byte by
  byte, makers that fill them in place, verifiers that check containment with 64-bit sums. Hashing and
  signing are functions given from outside, with the law that what is signed verifies.
- **The character set converter** (`utf8`, `iconv`): a loop over two bounded buffers that keeps no state.
- **The rollback record** (`rollback`): a state machine over TPM commands each of which may fail, over any
  sequence of runs.
- **The CRC-8** (`crc8`) of that record.
- **The congestion controller** (`link_limit`), which raises and lowers the limit of a link, and the
  **Internet checksum** of its pings (`internet_checksum`).
- **The bandwidth history files** (`bytes`, `history_files`), the converter from their older format, and the
  **upload** of records to the kernel in messages of a fixed size (`upload`).
- **The address filter** of restored quotas (`address_filter`): ranges and masks, and a list drained into
  another for each of them.

Objects that the sources change in place are classes here, and their loops are loops with invariants;
each such method is tied to a function of its inputs or of the old state, and the lemmas are about that
function.

## What the code does not do

Each of these is proved, with the exact condition under which the code does what it promises.

- The final rule of a chain with flags names no protocol. A chain in which every flag is preset by a
  negated category takes packets of every protocol (`RuleCases.UsuallyFaithful`, `RuleExamples.UncheckedExample`).
- Connection marks may be tested with masks that reach the scratch byte, where the flags of the rule
  itself are seen (`RuleExact.FaithfulExactly` for all masks, `RuleCases.UnmaskedMarkIsMissed`,
  `RuleExamples.MarkedExample`). The
  comment at line 893 of `make_iptables_rules.c` asks for a mask of 24 bits; line 682 passes 32.
- A list that is given but holds nothing its direction can test is ignored by a chain without flags, and
  an address list by every chain (`RuleCases.UselessAddressIsIgnored`, `RuleExamples.MacExample`).
- TCP-reset options make the final rule of a chain with flags one for TCP, whatever the protocol of the
  definition (`RuleCases.ResetOfUdp`, `RuleExamples.ResetExample`; for both protocols, `RuleExact.FaithfulExactly`).
- A chain with flags for both protocols rejects TCP packets without a reset (`RuleIntent.RejectedWith`), against
  the comment at line 491.
- A boot whose write is lost, though it reported success, hides a mode change from the next one
  (`Rollback.LostWriteIsMissed`); the read-back checks only that what is there is readable.
- The checks for overlong and refused UTF-8 never hold where plain char is signed (`Utf8.DecodesWellFormed`,
  `Iconv.SameEncodingCopies`).
- UTF-16 output lacks the offset of surrogate pairs (`Iconv.Utf16IsRightInBmp`).
- With the read-only flag the body is not verified (`VbootChain.ReadOnlyPathSkipsBody`).
- Measuring the ping limit again adds to the last result instead of the limit on the command line
  (`LinkLimit.MeasuresFromCommandLine`).
- A history file keeps one interval for all histories, and no times for one without samples
  (`HistoryFiles.RoundTrip`). Converting an older file cuts an accumulated value that needs more bits than
  its samples (`HistoryFiles.ConvertedLoads`).
- The upload of a record that does not fit into a message never ends (`Upload.EndsExactly`).
- A dotted mask that is not a prefix filters more addresses than agree under it (`AddressFilter.MaskIsExact`).

## Model

| member | source | states |
|---|---|---|
| RuleExact.FaithfulExactly | package/gargoyle-firewall-util/src/make_iptables_rules.c:157-606 | For every rule definition, direction, target and options, with no assumption: over all packets and all connection marks with a zero scratch byte, the compiled chain takes exactly the packets the definition asks for (or the white-list tail accepts) if and only if a condition holds that speaks only of the definition: for each protocol, the connection marks the chain lets pass, as its tests see them, are those the definition lets pass, and no packet of another protocol gets through |
| RuleFaithful.ChainEnds | package/gargoyle-firewall-util/src/make_iptables_rules.c:438-548 | Every chain of every definition, on every packet with a zero scratch byte: the low 24 bits of the connection mark are kept, the scratch byte is zero again unless the target is taken, and the target is taken exactly by the packets whose flags are all ready, or by the white-list tail |
| RuleMeaning.FlagsReady | package/gargoyle-firewall-util/src/make_iptables_rules.c:456-504 | However tests look at the scratch byte while it is being computed: the flags end at their final values if and only if each category is ready at the byte its tests find, which is the final value of the flags before it and the preset of the others |
| RuleMeaning.RunList | package/gargoyle-firewall-util/src/make_iptables_rules.c:582-604 | The rules of one flag overwrite it exactly if one of their tests holds at the mark they start from: a later test that sees the overwritten flag cannot undo it |
| RuleFaithful.IntendedByCategory | package/gargoyle-firewall-util/src/make_iptables_rules.c:256-420 | What the definition asks for, written as its documentation reads (lists of alternatives, negations, URL lists that hide their negations), is a conjunction over the categories, except that a list given but empty asks for something no packet has |
| RuleIntent.IntendedMeans | package/gargoyle-firewall-util/src/make_iptables_rules.c:157-431 | What the theorems hold the compiler to, said on the fields of the definition and the outcomes of the packet alone, for both directions: source and destination addresses by IP, range and MAC, ports, marks, URL lists, the four cases of time, layer7, ipp2p, packet sizes that have both bounds, and the protocol |
| RuleIntent.FaithfulMeans | package/gargoyle-firewall-util/src/make_iptables_rules.c:157-606 | A chain is faithful if and only if it takes exactly the packets that are meant in that sense, and those beside a white list |
| RuleIntent.HopelessMeans | package/gargoyle-firewall-util/src/make_iptables_rules.c:256-420 | On the fields, when some list is given and holds nothing that its direction can test |
| RuleIntent.RejectedWith | package/gargoyle-firewall-util/src/make_iptables_rules.c:428-537 | A rejected packet is answered by a TCP reset if and only if no options were given, it is TCP, and the chain has no flags or knows the protocol; other options are passed on as they are |
| RuleFaithful.AgreedTakes | package/gargoyle-firewall-util/src/make_iptables_rules.c:410-541 | Of the packets of an agreed protocol the chain takes those that pass the protocol match of the final rule and satisfy every category at the mark its tests see, unless some flag can never be set because its list is empty |
| RuleExact.StrangerTakes | package/gargoyle-firewall-util/src/make_iptables_rules.c:488-505 | Of the packets of other protocols the chain takes none unless no flag guards the protocol, and then a model packet of each such protocol is taken |
| RuleExact.ModelMeets | package/gargoyle-firewall-util/src/make_iptables_rules.c:256-420 | One packet per protocol meets everything that any packet can meet; nothing can be met only if a negated URL list holds the test that tells HTTP requests |
| RuleBuilder.ComputeRules | package/gargoyle-firewall-util/src/make_iptables_rules.c:157-606 | The compiler as written - growing rule lists, a string of single checks extended at its front, two mask lists that are drained from the front, loops over lists of tests - emits exactly the chain the theorems are about, for every definition |
| RuleBuilder.Builder.ComputeMultiRules | package/gargoyle-firewall-util/src/make_iptables_rules.c:558-606 | Returns 0, 1 or 2; a single test goes to the front of the single checks, and several become one rule each, or one per protocol, appended in order |
| RuleBuilder.Builder.DrainMasks | package/gargoyle-firewall-util/src/make_iptables_rules.c:439-478 | The loop over the two mask lists computes the match of the final rule and the preset mark: the sum of the bits of the flags that are compiled, and of those that are negated besides |
| RuleCases.UsuallyFaithful | package/gargoyle-firewall-util/src/make_iptables_rules.c:157-606 | If no list is empty, no mask reaches the scratch byte and TCP-only options are given only with TCP, compiling preserves meaning if and only if some rule checks the protocol, or the rule can never match |
| RuleCases.UnmaskedMarkIsMissed | package/gargoyle-firewall-util/src/make_iptables_rules.c:895-930 | A connection mark test with its full mask is never passed beside a flag: the chain then takes only what the white-list tail takes. It is right if and only if it has no flags, or asks for no packet: some list has no test, its URL list cannot be met, or the value has bits outside the mask |
| RuleCases.PlainIsFaithful | package/gargoyle-firewall-util/src/make_iptables_rules.c:506-541 | A chain without flags is right for every definition whose lists are not empty, whatever the masks |
| RuleCases.UselessAddressIsIgnored | package/gargoyle-firewall-util/src/make_iptables_rules.c:340-392 | A destination list without a usable test is ignored, with flags or without: nothing was asked for, and the chain is right exactly if the rest of it takes nothing |
| RuleCases.ResetOfUdp | package/gargoyle-firewall-util/src/make_iptables_rules.c:500-505 | With TCP-reset options a UDP rule with flags is right exactly if nothing is asked for and some flag guards the protocol |
| RuleCases.NothingIntendedExactly | package/gargoyle-firewall-util/src/make_iptables_rules.c:256-420 | A definition asks for no packet at all if and only if its URL list cannot be met, some list has no test to offer, or no connection mark will do |
| RuleExamples.MarkedExample | package/gargoyle-firewall-util/src/make_iptables_rules.c:895-930 | One such input: two local hosts on the connections marked 5 with a full mask, and nothing is dropped |
| RuleExamples.ResetExample | package/gargoyle-firewall-util/src/make_iptables_rules.c:500-505 | One such input: the UDP packets of two local hosts are not rejected with a TCP reset |
| RuleExamples.UncheckedExample | package/gargoyle-firewall-util/src/make_iptables_rules.c:488-505 | One such input: DROP for the TCP packets of all but two local addresses drops every non-TCP packet from elsewhere |
| RuleExamples.MacExample | package/gargoyle-firewall-util/src/make_iptables_rules.c:340-392 | One such input: ACCEPT for a remote host told by MAC accepts every packet, and no packet was asked for |
| RuleExamples.GoodExample | package/gargoyle-firewall-util/src/make_iptables_rules.c:157-606 | And one that compiles to the right chain: DROP for the TCP packets of two local hosts |
| LongMaps.LongMap.RemoveElement | package/libericstools/src/tree_map.c:417-600 | On the heap, with stored balances, slot pointers and an explicit stack: the map is the old one without the key, the tree is ordered and balanced with exact balances, the count drops exactly if the key was there, and the old value is returned |
| LongMaps.LongMap.SetElement | package/libericstools/src/tree_map.c:319-414 | The map is the old one with the key set, the tree is ordered and balanced with exact balances, the count grows exactly if the key is new, the old value is returned, at most one node is restructured, and then the height is as before |
| LongMaps.LongMap.GetElement | package/libericstools/src/tree_map.c:253-271 | Returns the value of the key or nothing, in at most as many steps as the tree is high |
| LongMaps.LongMap.Rebalance | package/libericstools/src/tree_map.c:769-863 | One call on a slot leaves in the heap exactly the restructured tree, and returns its new balance |
| LongMaps.LongMap.TakeOut | package/libericstools/src/tree_map.c:474-567 | The three ways to replace a removed node - left child, right child, smallest node of the right subtree - each leave a path on the stack along which only one subtree has shrunk by one, and the other entries in order |
| LongMaps.LongMap.ClimbShrunk | package/libericstools/src/tree_map.c:570-577 | The way back up after a removal may stop at the first balance that is not zero: the whole tree is then balanced |
| LongMaps.LongMap.ClimbGrown | package/libericstools/src/tree_map.c:388-397 | The way back up after an insertion may stop at the first balance that is zero: the whole tree is then balanced |
| AvlTree.RebalanceIsAvl | package/libericstools/src/tree_map.c:769-863 | A node whose stored balance is one step off gets exact balances again, and the height shrinks by one exactly if it is restructured to balance zero |
| AvlTree.RebalanceKeeps | package/libericstools/src/tree_map.c:769-884 | Restructuring keeps the nodes and the order of the entries |
| AvlTree.SmallestMovesUp | package/libericstools/src/tree_map.c:504-555 | Replacing a node by the smallest of its right subtree keeps the order of the others, and only the path to the old place of that node is one too high |
| MapWalks.LongMapsAreLow | package/libericstools/src/tree_map.c:253-271 | A map of n entries whose tree has height h satisfies n + 1 >= Fib(h + 2), so look-ups are short |
| MapWalks.FewNodesAreLow | package/libericstools/src/tree_map.c:769-884 | A tree with exact balances of height h has at least Fib(h + 2) - 1 nodes |
| MapWalks.OrderIsUnique | package/libericstools/src/tree_map.c:604-629 | The contents of a map determine the ordered list of its entries |
| MapWalks.GetSmallest | package/libericstools/src/tree_map.c:273-287 | The entry of the least key, or nothing if the map is empty |
| MapWalks.RemoveSmallest | package/libericstools/src/tree_map.c:305-309 | Takes exactly the first entry of the ordered list |
| MapWalks.Destroy | package/libericstools/src/tree_map.c:631-661 | Drains the map; the values come in ascending order of their keys |
| MapWalks.GetSortedKeys | package/libericstools/src/tree_map.c:604-615 | The recursive walk writes the keys of the ordered list into an array |
| MapWalks.KeysOf | package/libericstools/src/tree_map.c:604-615 | That list is strictly ascending and has exactly the keys of the map |
| LinkedLists.List.RemoveInternalNode | package/libericstools/src/list.c:175-204 | A node is unlinked wherever it is; the others stay linked both ways, in order |
| LinkedLists.List.ShiftNode | package/libericstools/src/list.c:72-90 | Takes the first node, and the list is the rest |
| LinkedLists.List.UnshiftNode | package/libericstools/src/list.c:92-110 | The node comes first, before the old list |
| LinkedLists.List.PopNode | package/libericstools/src/list.c:112-130 | Takes the last node, and the list is the rest |
| LinkedLists.List.PushNode | package/libericstools/src/list.c:132-151 | The node comes last, after the old list |
| LinkedLists.List.Destroy | package/libericstools/src/list.c:206-238 | Drains the list; the values come in order |
| LinkedLists.List.ElementAt | package/libericstools/src/list.c:240-280 | The walk, from whichever end the unsigned difference chooses, finds the value at the index, or nothing past the end |
| PriorityQueues.PriorityQueue.PushNode | package/libericstools/src/priority_queue.c:161-202 | On the map of lists, the id index and the cached first element: the queue is the old one with the element behind all that are not of a greater priority value |
| PriorityQueues.PriorityQueue.ShiftNode | package/libericstools/src/priority_queue.c:204-248 | Takes the front of the queue, and the queue is the rest, though the list of its priority leaves the map and returns |
| PriorityQueues.PriorityQueue.RemoveNodeWithId | package/libericstools/src/priority_queue.c:265-306 | Takes exactly the element of that id out of the queue, wherever it stands |
| PriorityQueues.PriorityQueue.SetPriorityForId | package/libericstools/src/priority_queue.c:308-316 | Moves exactly the element of that id behind those of its new priority, and leaves the queue as usable as before |
| QueueRuns.Run | package/libericstools/src/priority_queue.c:161-358 | Any run of pushes, shifts, removals and changes of priority on the heap ends with the queue, and has given back the values, that the same operations on a plain ordered list give |
| QueueRuns.Do | package/libericstools/src/priority_queue.c:161-316 | Each single operation on a queue is that operation on the list |
| QueueRuns.NextIsFifo | package/libericstools/src/priority_queue.c:161-316 | Every operation keeps the list ordered; within a priority a push and a change of priority go to the end, and a shift takes the first |
| QueueRuns.OfPriorityLess | package/libericstools/src/priority_queue.c:213-306 | A removal leaves the others of its priority in their order, and no other priority is touched |
| QueueRuns.AfterIsOrdered | package/libericstools/src/priority_queue.c:161-316 | After any run the queue is ordered by priority |
| PriorityQueues.QueueAgrees | package/libericstools/src/priority_queue.c:161-316 | At any time: the queue is ordered by priority, the cached first element is its front, ids are distinct, the length is the number of elements, and the index leads from exactly these ids to the elements |
| PriorityQueues.Destroy | package/libericstools/src/priority_queue.c:323-358 | Drains the queue; the values come in the order of the queue |
| PriorityQueues.SortByPriority | package/libericstools/src/priority_queue.c:161-358 | Pushing any list of items into a new queue and destroying it returns the values of a stable sort by priority: ordered, a permutation, and in order of arrival within a priority |
| PriorityOrder.StableSort | package/libericstools/src/priority_queue.c:161-202 | Inserting one after the other gives an ordered permutation in which items of one priority keep their order |
| PriorityOrder.FlatAdded | package/libericstools/src/priority_queue.c:161-202 | Adding to the bucket of a priority is inserting into the one ordered list that the buckets stand for |
| PriorityOrder.FlatRemoved | package/libericstools/src/priority_queue.c:265-306 | Taking an item out of its bucket takes just that item out of the list |
| PriorityOrder.FlatHasBuckets | package/libericstools/src/priority_queue.c:161-202 | The items of one priority stand in the list in the order in which they came into their bucket |
| VbootVerify.VerifyMemberInside | package/vboot_utils/src/firmware/lib/vboot_common.c:58-85 | With 64-bit sums that could wrap, accepts exactly if the member and its data lie inside the parent as unbounded integers |
| VbootVerify.KeyBlockVerify | package/vboot_utils/src/firmware/lib/vboot_common.c:187-306 | Accepts a key block exactly if its signature (or hash) is right, its areas lie inside it and the data key lies inside what is signed; tells missing keys and failed signatures or hashes from malformed blocks |
| VbootVerify.VerifyFirmwarePreamble | package/vboot_utils/src/firmware/lib/vboot_common.c:308-379 | Accepts a preamble exactly if its signature is right and the body signature and the kernel subkey lie inside what is signed |
| VbootVerify.Verify | package/vboot_utils/src/utility/fonrsa.c:12-146 | Accepts exactly if every link of the chain holds - key block, data key, preamble, body unless the read-only flag is set - and gives back the subkey and the body |
| VbootSound.AcceptedIsVerified | package/vboot_utils/src/utility/fonrsa.c:12-146 | Whatever is accepted has been verified, on the bytes at their offsets: the key verifies the key block, the data key inside the verified bytes verifies the preamble, and the same key verifies the body, unless the verified flags ask for the read-only path |
| VbootSound.AcceptedExactly | package/vboot_utils/src/utility/fonrsa.c:12-146 | A blob is accepted if and only if a list of conditions on its bytes holds: magic, versions, containment, shape of the keys, and the three signatures |
| VbootSound.NothingVerifies | package/vboot_utils/src/utility/fonrsa.c:12-146 | A signature scheme that verifies nothing has every blob refused |
| VbootSound.KeyBlockIsHashed | package/vboot_utils/src/firmware/lib/vboot_common.c:187-293 | A block accepted by its checksum holds the SHA-512 sum of the bytes it covers |
| VbootSound.OutputIs | package/vboot_utils/src/utility/fonrsa.c:82-146 | What is given back: the kernel subkey out of the verified bytes of the preamble, and the body |
| VbootSound.MadeBlockLaidOut | package/vboot_utils/src/host/lib/host_keyblock.c:15-70 | A made key block, field by field at its offsets: versions, size, flags, data key with algorithm and version, checksum, signature |
| VbootSound.MadePreambleLaidOut | package/vboot_utils/src/host/lib/host_common.c:17-71 | A made preamble, field by field at its offsets, with the firmware version, the flags, the subkey and the body signature |
| VbootVerify.ChainOfTrust | package/vboot_utils/src/utility/fonrsa.c:48-127 | Two accepted blobs with equal signed parts give the same data key, kernel subkey, flags and start of the body |
| VbootVerify.SignedBlockDeterminesKey | package/vboot_utils/src/firmware/lib/vboot_common.c:187-306 | The signed bytes of a key block determine its size and its data key |
| VbootVerify.SignedPreambleDetermines | package/vboot_utils/src/firmware/lib/vboot_common.c:308-379 | The signed bytes of a preamble determine the subkey, the flags, the body signature and the start of the body |
| VbootSign.KeyBlockCreate | package/vboot_utils/src/host/lib/host_keyblock.c:15-70 | Fills a header and its areas in place, then copies checksum and signature over them: the result is complete, its signature covers header and key as they finally stand |
| VbootSign.CreateFirmwarePreamble | package/vboot_utils/src/host/lib/host_common.c:17-71 | The same for preambles: copying the signature in leaves every signed byte as it was |
| VbootSign.SignatureCopy | package/vboot_utils/src/host/lib/host_signature.c:47-55 | Copies a signature that fits to where the header points, and nothing else; refuses one that does not fit |
| VbootSign.Vblock | package/vboot_utils/src/utility/vbutil_firmware.c:83-187 | The output is key block, preamble and body one after the other, with the body signature over the body |
| VbootChain.SignThenVerify | package/vboot_utils/src/utility/fonrsa.c:12-146 | For every pair of matching keys and every body, what the makers build is accepted, and gives back exactly the kernel subkey and the body, in the blob or in a file of its own |
| VbootChain.SignAndVerify | package/vboot_utils/src/utility/vbutil_firmware.c:83-187 | The whole tool chain run: KeyBlockCreate, CreateFirmwarePreamble, Vblock, then Verify, ends with exactly the subkey and the body |
| VbootChain.ReadOnlyPathSkipsBody | package/vboot_utils/src/utility/fonrsa.c:119-127 | With the read-only flag any body at all is let through in place of the signed one |
| VbootChain.MadeBlockIsHashed | package/vboot_utils/src/host/lib/host_keyblock.c:15-70 | A made block is also accepted by its checksum alone |
| VbootLayout.KeyBlockReadsBack | package/vboot_utils/src/firmware/lib/vboot_common.c:187-306 | A key block header whose fields fit their widths is read back from its bytes, whatever follows |
| VbootLayout.PreambleReadsBack | package/vboot_utils/src/firmware/lib/vboot_common.c:308-393 | The same for preamble headers, whose flags are there only from version 2.1 on |
| Utf8.DecodesWellFormed | package/libiconv/src/iconv.c:162-245 | Where plain char is unsigned, the decoder with the range check takes exactly the byte sequences that are well formed by section 4 of RFC 3629, but U+FFFE and U+FFFF; where it is signed, exactly these and also U+FFFE, U+FFFF and the overlong forms of scalar values. A sequence encodes to itself again if and only if it is not overlong |
| Utf8.EncodingDecodes | package/libiconv/src/iconv.c:132-160 | Every scalar value that is not refused decodes from its encoding, whatever follows; nothing is refused where plain char is signed |
| Utf8.DecodeFirst | package/libiconv/src/iconv.c:199-245 | The value and length of the first character, -1 if it is invalid, -2 if more input is needed; a byte that cannot lead counts as needing more |
| Iconv.Convert | package/libiconv/src/iconv.c:263-440 | The loop over two bounded buffers, with its temporary buffer for what may not fit, does what the specification says, for every input and every output size |
| Iconv.ConvertsWhatItConsumes | package/libiconv/src/iconv.c:263-440 | On every return, whatever the reason, the bytes written are exactly the encodings of the characters in the bytes consumed |
| Iconv.StopsForAReason | package/libiconv/src/iconv.c:371-440 | A call stops at the end, or because the next character is invalid, is incomplete, or does not fit, and says which |
| Iconv.Resumes | package/libiconv/src/iconv.c:263-440 | Taking up where a call stopped gives what one call with the used and the extra space together gives |
| Iconv.CallsAreOneCall | package/libiconv/src/iconv.c:263-440 | Any number of calls does what one call does whose space is what the earlier ones used and what the last was given |
| Iconv.EnoughCalls | package/libiconv/src/iconv.c:263-440 | However the output space is cut up, if any character fits into each piece, more calls than there are bytes give exactly what one call with space for everything gives |
| Iconv.MakesProgress | package/libiconv/src/iconv.c:263-440 | A call that stopped for space gets further when it is given space for any character |
| Iconv.SameEncodingCopies | package/libiconv/src/iconv.c:381-388 | From UTF-8 to UTF-8 the output is the input consumed, if and only if no character of it is overlong, which none can be where plain char is unsigned |
| Iconv.WideCharacters | package/libiconv/src/iconv.c:374-378 | To wide characters the output is one word of four bytes for each character consumed, and the word is its code point |
| Iconv.Utf16Characters | package/libiconv/src/iconv.c:404-419 | To UTF-16 without surrogate pairs the output is one unit for each character consumed, high byte first if it is big-endian, and the unit is its code point |
| Iconv.NextExactly | package/libiconv/src/iconv.c:199-371 | The loop goes on exactly if the input starts with one character, well formed or let through |
| Iconv.Utf16IsRightInBmp | package/libiconv/src/iconv.c:404-417 | UTF-16 output is that of section 2.1 of RFC 2781 if and only if the code point needs no surrogate pair |
| Rollback.Tpm.SetupTPM | package/vboot_utils/src/firmware/lib/rollback_index.c:344-475 | On the flags in the record, with TPM commands that may fail, writes that may leave the old record or a corrupt one, and any calls in between: if a successful run finds another mode than the last successful one, the owner has been cleared since that one started, and since it ended unless it lost a write; the mode and the flags stored are the switch or the virtual flag unless disabled. Without a change of mode or a request the owner is left alone, but for a write that ran out, and so is the record if its flags stay; a boot without faults succeeds, and clears the owner exactly once or not at all |
| Rollback.Tpm.ClearOwnerIf | package/vboot_utils/src/firmware/lib/rollback_index.c:452-460 | Clears the owner once if the mode has changed or it is asked to, and otherwise does nothing and succeeds; it fails only if a command fails |
| Rollback.Tpm.SetVirtualDevMode | package/vboot_utils/src/firmware/lib/rollback_index.c:155-179 | Changes just the virtual switch of the stored record, and keeps what later runs rely on |
| Rollback.Tpm.RollbackFirmwareWrite | package/vboot_utils/src/firmware/lib/rollback_index.c:574-585 | Changes just the versions of the stored record, and keeps what later runs rely on |
| Rollback.Tpm.WriteSpaceFirmware | package/vboot_utils/src/firmware/lib/rollback_index.c:124-153 | A write that reports success has left the record, or a readable old one; without a lost write it has left the record with a good checksum |
| Rollback.Tpm.OneTimeInitializeTPM | package/vboot_utils/src/firmware/lib/rollback_index.c:250-321 | A successful initialisation has cleared the owner and left a fresh record |
| Rollback.ClearsOnChange | package/vboot_utils/src/firmware/lib/rollback_index.c:431-475 | When the record is what the last run decided, the next clears the owner exactly if the mode has changed or it is asked to |
| Rollback.LostWriteIsMissed | package/vboot_utils/src/firmware/lib/rollback_index.c:431-475 | When the write of a run is lost, exactly the changes back to the mode in the record go unseen, unless clearing is asked for |
| Crc.Crc8 | package/vboot_utils/src/firmware/lib/crc8.c:14-30 | The loop on an unsigned word computes the checksum of the polynomial, and never uses more than bits 8 to 15 of the word |
| Crc.ChecksumIsLinear | package/vboot_utils/src/firmware/lib/crc8.c:14-30 | The checksum of a sum of messages is the sum of their checksums |
| Crc.ParityIsKept | package/vboot_utils/src/firmware/lib/crc8.c:14-30 | The checksum has the parity of all message bits |
| Crc.BitParityCounts | package/vboot_utils/src/firmware/lib/crc8.c:14-30 | That parity, which is computed by folding, is the number of set bits modulo 2 |
| Crc.OddErrorsAreNoticed | package/vboot_utils/src/firmware/lib/crc8.c:14-30 | Any odd number of flipped bits changes the checksum |
| Crc.BurstsAreNoticed | package/vboot_utils/src/firmware/lib/crc8.c:14-30 | Any burst of at most 8 bits, within a byte or over two, at any place in a message of any length, changes the checksum |
| LinkLimit.Monitor.Pass | package/qos-gargoyle/src/qosmon.c:911-1168 | Every pass keeps: the limits between 15% and 100% of the bandwidth, the filtered ping time between 0 and one period, the limit sent 1000 while measuring and the proposed one while running; and the limits are those of the control law, from the limit of the mode the realtime classes ask for |
| LinkLimit.Monitor.Run | package/qos-gargoyle/src/qosmon.c:911-1175 | Over a whole run of any length every limit sent, also two in one pass, is the one for measuring or between 15% and 100% of the bandwidth; the last sent is in force, and in the end it is the bandwidth |
| LinkLimit.AdjustedInRange | package/qos-gargoyle/src/qosmon.c:1133-1157 | The limit goes up only if pings are faster than their limit, and down if they are slower, strictly until the floor; in one pass by at most 0.8% and 2% |
| LinkLimit.RisesBy | package/qos-gargoyle/src/qosmon.c:1133-1146 | With fast pings and a load of at least 85% the new limit is the old one times 1 + 0.4% a second for each ping limit that pings are faster, rounded down and at most the bandwidth; with less load it is the old one |
| LinkLimit.FallsBy | package/qos-gargoyle/src/qosmon.c:1147-1155 | With slow pings it is the old one times 1 - 0.5% a second for each ping limit, up to two, that they are slower, rounded down and at least 15% of the bandwidth |
| LinkLimit.Recovers | package/qos-gargoyle/src/qosmon.c:1133-1146 | The link recovers from any congestion: enough busy passes with fast pings, each worth at least one bit, bring the limit back to the bandwidth |
| LinkLimit.ModesAre | package/qos-gargoyle/src/qosmon.c:1035-1128 | On whole numbers: when the link stays idle, becomes idle, and which mode it is in |
| LinkLimit.BulkMayWaitLonger | package/qos-gargoyle/src/qosmon.c:1101-1128 | Realtime traffic is held to the ping limit; without it 135% of the limit on the command line are added |
| LinkLimit.ModeIsRemembered | package/qos-gargoyle/src/qosmon.c:1043-1128 | A mode that comes back starts from the limit it was left with |
| LinkLimit.MeasuredIs | package/qos-gargoyle/src/qosmon.c:1015-1027 | In whole numbers: the ping limit is twice the measured time, or the old limit and 110% of it, rounded down, between 10000 and 800000 |
| LinkLimit.FilterMovesAFifth | package/qos-gargoyle/src/qosmon.c:968-971 | The filtered ping time moves by a fifth of the way, rounded towards where it is |
| LinkLimit.FilterStaysBetween | package/qos-gargoyle/src/qosmon.c:968-971 | With division that truncates, the filtered ping time moves towards the last one and not beyond |
| LinkLimit.Monitor.FullLinkIsBusy | package/qos-gargoyle/src/qosmon.c:1035-1040 | The controller cannot get stuck idle: a link that is full up to its limit is busy |
| LinkLimit.MeasuresFromCommandLine | package/qos-gargoyle/src/qosmon.c:1004-1028 | For every limit on the command line, exactly when a measurement gives what it would give from that limit |
| HistoryFiles.SaveHistory | package/libiptbwctl/src/ipt_bwctl.c:905-994 | The writer, with its loops over histories and samples, produces the file format; each history picks its own width |
| HistoryFiles.LoadHistory | package/libiptbwctl/src/ipt_bwctl.c:1062-1139 | The reader reads that format, and says so when a file ends too soon |
| HistoryFiles.LoadOfSave | package/libiptbwctl/src/ipt_bwctl.c:905-1139 | Whatever is saved, what is loaded again: the histories with the interval of the first, and without times where there are no samples |
| HistoryFiles.RoundTrip | package/libiptbwctl/src/ipt_bwctl.c:905-1139 | Loading gives back what was saved if and only if the histories share their interval and those without samples have no times, whatever widths were picked |
| HistoryFiles.ConvertFile | package/bwmon-gargoyle/src/bw_convert.c:69-129 | The converter reads samples up to the end of the older file, clamps negative ones, adds the one that was accumulating, and drains its list into the new format |
| HistoryFiles.ConvertedLoads | package/bwmon-gargoyle/src/bw_convert.c:69-129 | A converted file loads as one history with the old times and the old samples followed by the accumulated one, if and only if that fits into the width of the samples |
| HistoryFiles.ConvertedSamples | package/bwmon-gargoyle/src/bw_convert.c:69-129 | On the bytes of the older file: as many samples as it holds, each read with its sign and 0 if negative, then the accumulated value; times and interval as given |
| HistoryFiles.BlockLaidOut | package/libiptbwctl/src/ipt_bwctl.c:937-988 | Where the fields of a stored history lie, and each sample, in the width that was picked |
| HistoryFiles.HeadLaidOut | package/libiptbwctl/src/ipt_bwctl.c:912-923 | The number of histories and the interval of the first, at the start of the file |
| HistoryFiles.WidthIs | package/libiptbwctl/src/ipt_bwctl.c:958-964 | Samples are stored with 4 bytes if and only if all are below 0x7FFFFFFF, and with 8 otherwise |
| Upload.SetIpBlock | package/libiptbwctl/src/ipt_bwctl.c:474-563 | Writes a record behind what is there, or says that it does not fit and writes nothing |
| Upload.FillMessage | package/libiptbwctl/src/ipt_bwctl.c:599-618 | A message takes as many records as fit, from the one that comes next |
| Upload.SetBandwidthData | package/libiptbwctl/src/ipt_bwctl.c:565-629 | If every record fits into a message, the loop ends and sends the messages of the specification |
| Upload.UploadConserves | package/libiptbwctl/src/ipt_bwctl.c:565-629 | The bytes sent are those of the records, in order; no message is longer than 16384 bytes; each says how many records went before it |
| Upload.MessageFits | package/libiptbwctl/src/ipt_bwctl.c:599-618 | A message has at most 16384 bytes with its head of 72, and the record after it would not have fitted |
| Upload.UsageLaidOut | package/libiptbwctl/src/ipt_bwctl.c:541-560 | Address and usage read back from their places in a record |
| Upload.HistoryLaidOut | package/libiptbwctl/src/ipt_bwctl.c:476-538 | Address, number of samples, times and each sample read back from their places in a record |
| Upload.EndsExactly | package/libiptbwctl/src/ipt_bwctl.c:597-619 | The loop over messages ends if and only if every record fits into a message |
| InternetChecksum.InCksum | package/qos-gargoyle/src/qosmon.c:217-250 | The loop computes the checksum of a buffer of any length up to 65536 bytes, with an odd byte at the end, and no step leaves the range of an int |
| InternetChecksum.OverflowsExactly | package/qos-gargoyle/src/qosmon.c:217-250 | The sum of every buffer of n words fits into an int if and only if n is at most 32768 |
| InternetChecksum.FoldedIsOnesSum | package/qos-gargoyle/src/qosmon.c:243-248 | Adding up first and folding the carries twice at the end is ones' complement addition of all words |
| InternetChecksum.StoredChecks | package/qos-gargoyle/src/qosmon.c:267-283 | A packet with a value in the place of a zero word checks if and only if it is the checksum, or the other zero of ones' complement |
| InternetChecksum.SetChecksum | package/qos-gargoyle/src/qosmon.c:261-283 | A packet whose checksum has been set checks, and nothing else in it has changed |
| InternetChecksum.WrongWordIsNoticed | package/qos-gargoyle/src/qosmon.c:217-250 | One wrong word is noticed, unless it is exactly one zero of ones' complement for the other |
| InternetChecksum.ByteOrderDoesNotMatter | package/qos-gargoyle/src/qosmon.c:217-250 | Machines of both byte orders store the same two bytes, so the code need not turn words around |
| AddressFilter.FilterBackup | package/gargoyle-firewall-util/src/restore_quotas.c:797-827 | From the array to a list, through a new list for each piece of each group, and back into an array from its end: what is left are the records outside every range |
| AddressFilter.KeptPlaces | package/gargoyle-firewall-util/src/restore_quotas.c:834-902 | What is left, said without recursion: increasing places, and a place is among them if and only if its address is inside none of the ranges |
| AddressFilter.FilterPiece | package/gargoyle-firewall-util/src/restore_quotas.c:875-896 | Draining a list into a new one keeps exactly the records outside one range |
| AddressFilter.OutsideBoth | package/gargoyle-firewall-util/src/restore_quotas.c:875-896 | Filtering again is filtering by the pieces of both |
| AddressFilter.PrefixIsShared | package/gargoyle-firewall-util/src/restore_quotas.c:904-944 | The range of a prefix of 1 to 32 bits holds exactly the addresses that share it |
| AddressFilter.MaskIsExact | package/gargoyle-firewall-util/src/restore_quotas.c:904-944 | The range of a dotted mask holds exactly the addresses that agree under it if and only if the mask is a prefix; otherwise it holds more |
| AddressFilter.AddressIsItself | package/gargoyle-firewall-util/src/restore_quotas.c:935-938 | A single address filters itself and no other |
| AddressFilter.SpanIsBetween | package/gargoyle-firewall-util/src/restore_quotas.c:931-934 | A range from one address to another filters what lies between them |
| AddressFilter.FilteredExactly | package/gargoyle-firewall-util/src/restore_quotas.c:806-902 | An address is filtered out if and only if it lies in the range of some piece of some group |

## Left out

- Rule text: strings, quoting and escaping; a rule is its list of matches and its action. `iptables`, the
  kernel's matches and the weburl module are what `netfilter` says they are: a negated URL test needs an HTTP
  request, `CONNMARK --set-mark` clears the bits of its mask and sets those of its value, and a target ends
  the chain. Whether iptables would refuse a rule (a TCP reset without TCP) is not modelled.
- Parsing of options into a rule definition, case folding, and the connection mark left behind by a target.
  The chain starts with a zero scratch byte.
- `is_ingress` is a parameter, though the program's `main` always passes 0.
- Memory that cannot be allocated, and freeing.
- String maps and their hash function: the id index of the queue is a map value, as if no two ids had one
  hash. Values that are NULL, and setting the priority of an id that is not in the queue.
- `PriorityQueues.PriorityQueue.PushNode`: not for an id that is already in the queue. The source does not
  refuse it, but its index then leads to the later element only, and a shift of the earlier one drops the entry.
- `PriorityQueues.SortByPriority`: for the same reason, only for items with different ids; so `QueueRuns.Run`.
- `get_priority_queue_element_with_id`, which frees a node that stays in the queue, and the peek functions.
- `VbootVerify.Verify`: the source reads its inputs from files, and leaves open whether the body is longer
  than what its signature covers; neither is refused here.
- `VbootChain.SignThenVerify`: RSA and SHA-512 are functions given from outside; that a signature verifies
  with the matching key is a hypothesis on them. Kernel preambles, external signers and key files are left out.
- `Iconv.Convert`: input encodings other than UTF-8, the 8-bit tables and ASCII as targets, and UTF-32. For
  an incomplete character at the end of the input the code returns the count of replaced characters, where
  POSIX asks for -1; the model follows the code.
- `Rollback.Tpm.SetupTPM`: the kernel space, global locking, and the checksum, of which the record keeps only
  whether it is right. That it catches short bursts and odd errors is proved of the CRC-8 by itself.
- `LinkLimit.Monitor.Pass`: floating point numbers are reals, integers do not overflow, clocks do not step
  back, and ping limits on the command line are not negative. Reading classes, pinging and the status file
  are inputs of a pass.
- `HistoryFiles.LoadHistory`: a file that ends too soon is refused, where the source goes on with values
  that were never set. The scan at lines 924-934 of `ipt_bwctl.c`, whose result is not used, is left out.
- `HistoryFiles.ConvertFile`: an older file that ends before its 41 bytes of head are read, of which the source
  takes values that were never set. Times are 8 bytes; with a `time_t` of 4 the source leaves half of each unset.
- `Upload.SetBandwidthData`: requires that every record fits, because a method has to end; `Upload.EndsExactly`
  says what happens otherwise. The shift of times to the current offset from UTC, locking and the socket,
  the fields of the header that do not change, and the wrap-around of a record's length at 32 bits.
- Queries for bandwidth data, and the calendar.
- `InternetChecksum.InCksum`: only lengths whose sum cannot overflow, see `InternetChecksum.OverflowsExactly`;
  beyond them C leaves the result open.
- `AddressFilter.FilterBackup`: the text of groups and addresses. A prefix of length 0 or above 32 is a shift
  that C leaves open, and is not allowed here.
