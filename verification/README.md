# Verified model of JJS

JJS is a JavaScript engine. This project models the parts of it whose correctness
spans several functions, as the code has them, and proves what they promise.

- **Snapshots** (`Snapshot*.dfy`, `LiteralSort.dfy`): a recursive writer flattens a
  tree of functions and regular expressions into one buffer with relative child
  offsets, linear walkers patch literals block by block, a recursive loader rebuilds
  the tree, and a merger joins snapshots. A block is a record at a position and with
  an extent; the buffer is a map from positions to blocks. The literal table is
  modelled byte by byte. `LiteralSort.dfy` is the in-place heapsort of literals.
  `MachineWords.dfy` has the 32-bit arithmetic and the little-endian fields.
- **Case and interval tables** (`Case*.dfy`, `Intervals.dfy`): the passes of the
  Unicode table generator, which move entries from two dictionaries into tables, and
  the engine's searches in those tables.
- **Debugger protocol** (`Frames.dfy`, `ClientChannel.dfy`, `ServerTransport.dfy`,
  `ServerReceiver.dfy`, `DebuggerText.dfy`, `ScopeVariables.dfy`,
  `ServerMessages.dfy`, `Commands.dfy`, `ClientStrings.dfy`, `Breakpoints.dfy`): both ends, from the
  shared send buffer and its layers of headers to the messages that the other side
  puts together again. Framing is a simplification of section 5.2 of RFC 6455.
- **CommonJS loader** (`CommonJs.dfy`), **cell allocator** (`Cellocator.dfy`),
  **package maps** (`PackageMap.dfy`) and **file URLs** (`PathEncoder.dfy`; Unicode
  Technical Report 26, section 3 of RFC 3629, section 2.1 of RFC 3986).

Code that changes things step by step is imperative here too: classes with the
fields of the source, arrays for its buffers, loops for its loops. Their contracts
tie the new state to functions of the old one, and the lemmas say what those mean.
`dafny verify dfyconfig.toml` checks the project.

What the environment decides is a parameter: how the network cuts bytes into chunks
and when nothing arrives (`Event`, `sizes`), how much a socket takes (`limits`), how
long a connection lasts (`budget`), which blocks the heap gives, what a module body
does (`script`), whether an evaluation fails (`fails`), and what `realpath` answers.

## Where the code does less than it seems

Each of these is stated exactly by members of the table below; a member after a
semicolon shows a concrete input.

- A string literal of 65536 bytes or more is cut by the 16-bit length in the literal
  table, and a pattern by the 16-bit field of its block (`StoredExactly`,
  `RoundTripExactly`; `LongStringIsCut`).
- The literal map leaves out the BigInt `0n`, and the patching loop searches it
  without an end, so a function with the constant `0n` has no entry to find
  (`PatchableImage`; `BigIntZeroIsNotFound`).
- The padding after the last regular expression is not checked against the buffer,
  and the space left for the literal table is an unsigned difference, which wraps
  when the code ends behind the buffer. The literal table then starts up to 7 bytes
  behind the buffer, and success is returned. A snapshot ends inside its buffer
  exactly if its code does, and always if the buffer size is a multiple of 8
  (`InsideBuffer`, `EndsAligned`; `SavedPastTheEnd`).
- The merger stores offsets in 32 bits whatever the size of its output: from 4 GB of
  code on they wrap (`HeaderFits`).
- A code point that is a letter with a lower case and also the lower case of another
  letter is found in the two-way tables once for each; the engine takes the first
  (`LowerCase`, `EndToEnd`; `ChainIsBroken`).
- A regular expression with the `s` flag carries the bit that marks a tagged
  template, and the snapshot of such a script is refused (`DotAllIsRefused`).
- Cutting a long run of code points stops before the end: if the span is a multiple
  of limit + 1, its last code point is in no table (`Intervals.CreateTables`;
  `LongRunLosesItsEnd`).
- The flag that ends waiting for client sources is never cleared, so a source that
  arrives in a later wait is dropped (`WaitForClientSource`; `LateSourceIsDropped`).
- The comment on package maps shows a `main` without a leading `./`, which the
  validator refuses (`DocumentedMainIsRefused`). The code is followed.
- The package with the empty name is not validated but is found at a leading slash
  (`EmptyNameIsNotValidated`).

## Model

| member | source | states |
|---|---|---|
| SnapshotLiterals.AppendValue | jjs-core/ecma/base/ecma-literal-storage.c:413-440 | A literal enters the pool at its end, and only if it is not in the pool already. |
| SnapshotLiterals.SaveLiterals | jjs-core/ecma/base/ecma-literal-storage.c:524-651 | The table is accepted exactly when its size is at most the space that a size_t subtraction leaves, and at most 2^27 - 1; then it is the encoding of the pool with one map entry per literal, and ends inside the buffer if it starts there. An offset less than 8 bytes behind the buffer wraps the subtraction: only the 27 bits are checked. |
| SnapshotLiterals.ReadBack | jjs-core/ecma/base/ecma-literal-storage.c:596-646 | One literal, encoded anywhere inside a table, is read back from its position as its stored form, whatever surrounds it. |
| SnapshotLiterals.TableDecodes | jjs-core/ecma/base/ecma-literal-storage.c:663-703 | For every pool and every entry: getting the literal at the saved offset gives the stored form of the literal. |
| SnapshotLiterals.StoredExactly | jjs-core/ecma/base/ecma-literal-storage.c:627-640 | The stored form is the literal itself exactly when it is not a string of 65536 bytes or more (the length field has 16 bits). |
| SnapshotLiterals.LongStringIsCut | jjs-core/ecma/base/ecma-literal-storage.c:632-637 | A string of exactly 65536 bytes is read back as the empty string. |
| SnapshotImage.ImageWithin | jjs-core/api/jjs-api-snapshot.c:187-222 | The blocks that the recursion writes for a tree lie inside the extent of the tree, and those of the children behind the parent's own bytes. |
| SnapshotImage.PositionsAreKeys | jjs-core/api/jjs-api-snapshot.c:232-288 | The depth-first positions of a tree are exactly the positions at which the writer puts blocks. |
| SnapshotImage.Tiling | jjs-core/api/jjs-api-snapshot.c:450-523 | Stepping by the size field from the start of a written tree visits its blocks in depth-first order, each once, and stops exactly at its end, padded regular expressions included. |
| SnapshotImage.WalkJoins | jjs-core/api/jjs-api-snapshot.c:1231-1266 | Walks over adjacent areas join to a walk over both. |
| SnapshotImage.WalkOrdered | jjs-core/api/jjs-api-snapshot.c:1068-1118 | A walk that succeeds is strictly increasing, starts at the first position and never leaves the area. |
| SnapshotWriter.Writer.AddCompiledCode | jjs-core/api/jjs-api-snapshot.c:137-289 | Writing a tree from any state either reports the first error that the recursion meets, or advances the offset by the extent of the tree, adds exactly its blocks and sets the class and regular-expression flags exactly if the tree contains such code. |
| SnapshotWriter.Writer.AddRegExp | jjs-core/api/jjs-api-snapshot.c:176-226 | A regular expression is a block of header and pattern padded to the alignment, or an error if header and pattern do not fit. |
| SnapshotWriter.Writer.AddFunction | jjs-core/api/jjs-api-snapshot.c:224-289 | A function and everything below it are written, or the first error of a child is kept. |
| SnapshotWriter.Writer.AddKid | jjs-core/api/jjs-api-snapshot.c:270-286 | A literal slot becomes zero for the function itself and otherwise the distance to the child that was just written, also when the child was written with an error. |
| SnapshotWriter.Writer.StoreSlot | jjs-core/api/jjs-api-snapshot.c:274-285 | The slot is overwritten in place in a block that was copied before the children; every other block stays. |
| SnapshotRoundTrip.WritesExactly | jjs-core/api/jjs-api-snapshot.c:137-226 | The writer succeeds exactly when the tree fits the buffer and no block carries flag bit 6. |
| SnapshotRoundTrip.DotAllIsRefused | jjs-core/api/jjs-api-snapshot.c:165-170 | A script whose only regular expression has the s flag is refused as a tagged template literal, whatever the buffer: the two flags share a bit. |
| SnapshotRoundTrip.EndsAligned | jjs-core/api/jjs-api-snapshot.c:181-216 | Code that passes the writer's checks ends at most at the next aligned address behind the buffer: the final padding of a regular expression is not checked. |
| SnapshotRoundTrip.InsideBuffer | jjs-core/ecma/base/ecma-literal-storage.c:540-546 | A snapshot whose table was accepted ends inside its buffer exactly if its code does, and always if the buffer size is a multiple of the alignment. |
| SnapshotRoundTrip.SavedPastTheEnd | jjs-core/ecma/base/ecma-literal-storage.c:540-580 | A script with one string and one regular expression whose snapshot of 68 bytes is saved into a buffer of 63. |
| SnapshotGenerate.AppendCodeCovers | jjs-core/ecma/base/ecma-literal-storage.c:446-512 | The collected pool contains every literal of the tree that is not a zero BigInt, which has no literal to collect, keeps what it held and stays valid. |
| SnapshotGenerate.PatchOne | jjs-core/api/jjs-api-snapshot.c:458-518 | The searches of one block all succeed exactly when every literal of the block has an entry; then each constant and tail slot holds its offset. |
| SnapshotGenerate.SetOffsets | jjs-core/api/jjs-api-snapshot.c:444-524 | The patching walk succeeds exactly when every block is patchable, and then every block of the area is patched exactly once. |
| SnapshotRoundTrip.PatchableImage | jjs-core/api/jjs-api-snapshot.c:475-492 | For every tree whose pool was collected from it, the searches stay inside the map exactly when no constant of the tree is the BigInt zero. |
| SnapshotRoundTrip.BigIntZeroIsNotFound | jjs-core/api/jjs-api-snapshot.c:475-492 | A script whose only constant is 0n: its search runs off the map, whatever the size of the buffer. |
| SnapshotRoundTrip.GenerateSnapshot | jjs-core/api/jjs-api-snapshot.c:742-858 | Generating gives the first error among writing, literals and patching, or the snapshot of the tree; that ends inside the buffer exactly if its code does, and always for an aligned buffer size. |
| SnapshotRoundTrip.SavesExactly | jjs-core/api/jjs-api-snapshot.c:742-858 | A tree is saved exactly if it fits as the writer checks it, carries no bit 6 and no zero BigInt, and its table has less than 2^27 bytes and fits behind code that ends inside the buffer; otherwise the error is true. |
| SnapshotRoundTrip.GeneratedHeader | jjs-core/api/jjs-api-snapshot.c:793-814 | The header of a generated snapshot tells the truth: it announces regular expressions exactly if a block of the image is one, and classes exactly if a function of the image is a class constructor. |
| SnapshotLoader.LoadCompiledCode | jjs-core/api/jjs-api-snapshot.c:543-729 | The copying loader, with its loops over constants, children and tail slots, computes the same tree as the recursive reference reading of the image, and sets in every function the flags that LoadedSameFlags speaks of. |
| SnapshotLoader.LoadChildren | jjs-core/api/jjs-api-snapshot.c:696-713 | Slots of children are loaded in order: zero is the function itself, any other value a child at that distance. |
| SnapshotLoader.PatchedLoads | jjs-core/api/jjs-api-snapshot.c:688-694 | A value that was patched with its table offset loads as the stored form of the literal. |
| SnapshotLoader.LoadImage | jjs-core/api/jjs-api-snapshot.c:543-729 | Loading the patched blocks of any tree, wherever they stand in an image, gives the tree back. |
| SnapshotRoundTrip.RoundTrip | jjs-core/api/jjs-api-snapshot.c:742-858 | Loading function 0 of the snapshot of any well-formed tree gives the same tree: constants, child order, tail slots and self-references; every function keeps kind and flags, but for one reference, the line info that a build clears and the ignore flag that a debugger build sets. |
| SnapshotRoundTrip.LoadedSameFlags | jjs-core/api/jjs-api-snapshot.c:606-683 | In every function of the loaded tree the kind and each flag are the written ones, line info only without the line-info build, the ignore flag also in a debugger build; stated flag by flag for the function, its children, and theirs. |
| SnapshotRoundTrip.ErrorsAreTrue | jjs-core/api/jjs-api-snapshot.c:137-226 | The error that the writer reports first is true: some block carries flag bit 6, or the code does not fit the buffer, or the range of its offsets. |
| SnapshotRoundTrip.LoadedExactly | jjs-core/api/jjs-api-snapshot.c:187-289 | The loaded tree equals the original up to references and flags exactly when every string and pattern is shorter than 65536 bytes. |
| SnapshotRoundTrip.RoundTripExactly | jjs-core/api/jjs-api-snapshot.c:137-289 | The whole round trip is the identity, flags as named field by field, exactly on trees with strings and patterns shorter than 65536 bytes. |
| SnapshotMerge.ScanFunctions | jjs-core/api/jjs-api-snapshot.c:1060-1119 | The linear scan collects the literals of every block that the walk by size fields visits, in order. |
| SnapshotMerge.PoolOfServes | jjs-core/api/jjs-api-snapshot.c:1231-1262 | The pool collected over all inputs holds every literal that any input refers to. |
| SnapshotRebase.RelitLoads | jjs-core/api/jjs-api-snapshot.c:1125-1198 | A literal offset that was looked up in the old table and replaced by its new offset loads as the same literal from the new table. |
| SnapshotRebase.LoadRebased | jjs-core/api/jjs-api-snapshot.c:1302-1330 | A block of a copied area loads from its new position, with the new table, as the same tree as before. |
| SnapshotMergeRun.UpdateBlock | jjs-core/api/jjs-api-snapshot.c:1140-1192 | One block's constants and tail slots get their new offsets and nothing else changes. |
| SnapshotMergeRun.Merger.UpdateLiteralOffsets | jjs-core/api/jjs-api-snapshot.c:1125-1198 | The update walk changes each block of the new area once and leaves the areas before it alone. |
| SnapshotMergeRun.Merger.AddSnapshot | jjs-core/api/jjs-api-snapshot.c:1302-1330 | One input is copied, updated and its function offsets are appended, shifted by the distance that its code moved and cut to 32 bits. |
| SnapshotMergeRun.WrapTwice | jjs-core/api/jjs-api-snapshot.c:1319-1325 | Re-basing an offset in 32 bits gives the moved offset modulo 2^32, although the intermediate difference may wrap. |
| SnapshotMergeRun.HeaderFits | jjs-core/api/jjs-api-snapshot.c:1280-1328 | The 32-bit header fields hold the offsets of the merged snapshot exactly if its code ends within 4 GB. |
| SnapshotMergeRun.Survey | jjs-core/api/jjs-api-snapshot.c:1231-1266 | The first loop reports the first bad input and what is wrong with it, or the number of functions, the code size, the union of the flags and the pool of all inputs. |
| SnapshotMergeRun.BadInputIs | jjs-core/api/jjs-api-snapshot.c:1231-1248 | The input that is reported is the first bad one, and it has the fault that is reported. |
| SnapshotMergeRun.UnionOfFlags | jjs-core/api/jjs-api-snapshot.c:1250 | The merged header announces regular expressions exactly if some input does, and classes exactly if some input does. |
| SnapshotMergeRun.MergedHeader | jjs-core/api/jjs-api-snapshot.c:1250-1279 | If the header of every input tells the truth about its image, so does the merged header. |
| SnapshotMergeRun.PlaceAll | jjs-core/api/jjs-api-snapshot.c:1302-1330 | The areas are placed one after another, and the last one ends exactly where the literal table begins. |
| SnapshotMerger.OffsetsAt | jjs-core/api/jjs-api-snapshot.c:1319-1325 | Function j of input i gets the index that counts the functions of the inputs before it, and the offset of its moved code. |
| SnapshotMerger.AreasTile | jjs-core/api/jjs-api-snapshot.c:1302-1330 | One walk by size fields covers the areas of all inputs without a gap and stays valid for the scanners. |
| SnapshotMerger.MergePreserves | jjs-core/api/jjs-api-snapshot.c:1209-1345 | For any valid inputs, function j of input i loads from the merged snapshot as the same tree as from the input. |
| SnapshotMerger.MergedIsValid | jjs-core/api/jjs-api-snapshot.c:1209-1345 | A merged snapshot is a valid snapshot, so merges of merges are covered. |
| SnapshotMergeRun.GeneratedIsValid | jjs-core/api/jjs-api-snapshot.c:742-858 | Every generated snapshot is a valid input of the merger. |
| SnapshotMergeRun.MergeSnapshots | jjs-core/api/jjs-api-snapshot.c:1209-1345 | Merging reports exactly the first error in the order of the checks, or produces the merged snapshot with its offsets in 32-bit fields: the merged snapshot itself exactly if its code ends within 4 GB. It always ends inside the output buffer. |
| SnapshotMergeRun.MergesExactly | jjs-core/api/jjs-api-snapshot.c:1209-1345 | The merger succeeds exactly with two or more inputs whose sizes and headers are right, if the code ends before the end of the output, the table fits behind it and has less than 2^27 bytes; otherwise the error is true. |
| SnapshotMergeRun.HeadersAreOk | jjs-core/api/jjs-api-snapshot.c:64-73 | Generated and merged snapshots pass the header check of loader and merger. |
| LiteralSort.LessIsStrictTotalOrder | jjs-core/api/jjs-api-snapshot.c:1360-1373 | Ordering by size and then bytes is irreflexive, transitive and total, so the sorted order is unique. |
| LiteralSort.SizeIs | jjs-core/api/jjs-api-snapshot.c:1364-1365 | The size that is compared is the number of bytes of the string. |
| LiteralSort.LexicographicIs | jjs-core/api/jjs-api-snapshot.c:1369 | Among strings of one size a proper prefix comes first, or the one with the smaller code unit where they first differ. |
| LiteralSort.HeapMax | jjs-core/api/jjs-api-snapshot.c:1381-1401 | The largest of a node and its children that lie inside the heap. |
| LiteralSort.RootIsMax | jjs-core/api/jjs-api-snapshot.c:1448-1458 | In a heap of any size no element is larger than the root. |
| LiteralSort.DownHeap | jjs-core/api/jjs-api-snapshot.c:1407-1427 | Sifting restores the heap from the node on and permutes only the first n elements; the loop variable never overflows. |
| LiteralSort.Sort | jjs-core/api/jjs-api-snapshot.c:1433-1459 | The array ends sorted and as a permutation of the input; the first loop leaves by wrapping below zero. |
| CaseExtraction.ScanRanges | tools/gen-unicode.py:370-409 | The runs of the scan are disjoint, agree with the mapping, and hold exactly the letters that join their neighbour and those neighbours. |
| CaseExtraction.ExtractRanges | tools/gen-unicode.py:356-421 | The letters of the range table leave the dictionary and nothing else does; in the two-way pass the reverse dictionary loses exactly the mirrored runs, and no two neighbours at equal distance stay bidirectional. |
| CaseExtraction.ReverseRuns | tools/gen-unicode.py:413-419 | Read backwards, the runs are disjoint and hold what the reverse mapping holds, so every deletion finds its key. |
| CasePairs.NoPairNeighbours | tools/gen-unicode.py:438-456 | What the first pass leaves: a letter that maps to the letter after it has no such letter directly before it. |
| CasePairs.ScanPairRanges | tools/gen-unicode.py:438-458 | Because of that the runs are separated and consist only of letters that map to the next letter, two by two. |
| CasePairs.ExtractCharacterPairRanges | tools/gen-unicode.py:424-469 | The pair ranges take exactly what they decode to from both dictionaries. |
| CasePairs.ExtractCharacterPairs | tools/gen-unicode.py:472-492 | The pairs take exactly what they decode to from both dictionaries, and no bidirectional letter stays. |
| CasePipeline.ExtractWidth | tools/gen-unicode.py:568-596 | One section of the conversions takes exactly the letters whose values have its width, in increasing order. |
| CasePipeline.ExtractConversions | tools/gen-unicode.py:554-598 | The sections, cut by their counters, hold every remaining letter once, and the dictionary ends empty. |
| CasePipeline.GenerateLowerTables | tools/gen-unicode.py:667-702 | For every mapping with values of one to three code points the lower-case tables together hold every letter exactly once with its own value and leave the lower dictionary empty; the two-way tables hold exactly the bidirectional letters, and what the upper dictionary lost is what they say backwards. |
| CaseReader.SearchCaseRanges | jjs-core/lit/lit-char-helpers.c:566-644 | The search stops at the first run that holds the code point on either side and answers with its conversion in the direction asked for, or finds nothing if no run holds it. |
| CaseReader.SearchPairRanges | jjs-core/lit/lit-char-helpers.c:646-675 | The binary search over the pair ranges gives what a search from the first range on gives. |
| CaseReader.SearchBidirectional | jjs-core/lit/lit-char-helpers.c:566-700 | The three searches together stop at the first element of all two-way tables that mentions the code point. |
| CaseReader.SearchedMeans | jjs-core/lit/lit-char-helpers.c:566-700 | On tables that hold a mapping that result is the mapping of the letter, or the code point itself where the mapping lacks it or the first element has it as a target. |
| CaseReader.TargetIsLedTo | jjs-core/lit/lit-char-helpers.c:566-700 | A code point that is found as a target has a two-way letter that maps to it. |
| CaseReader.SearchSection | jjs-core/lit/lit-char-helpers.c:720-760 | The binary search over entries of several numbers looks only at entry starts and finds the entry of a letter whenever there is one. |
| CaseReader.LowerCase | jjs-core/lit/lit-char-helpers.c:779-844 | On generated tables the engine's lower case of a letter is its original mapping, unless the first element of the two-way tables that mentions it has it as a target; then, and without a mapping, it stays as it is. |
| CaseReader.EndToEnd | jjs-core/lit/lit-char-helpers.c:779-844 | Generator and engine together: every letter that is not the lower case of a bidirectional letter gets its original mapping, title-case letters included; for the others the position in the tables decides. |
| CaseReader.ChainIsBroken | jjs-core/lit/lit-char-helpers.c:566-700 | With 0x105 to 0x109 to 0x120, both steps bidirectional, the engine leaves 0x109 as it is. |
| Intervals.GroupRanges | tools/gen-unicode.py:139-147 | Grouping by value minus index gives the maximal runs of consecutive code points. |
| Intervals.CutRun | tools/gen-unicode.py:165-169 | A long run is cut into intervals within the limit that hold all of it, without the last code point exactly if the span is a multiple of limit + 1. |
| Intervals.CreateTables | tools/gen-unicode.py:148-174 | For every increasing list, intervals and single characters decode to the list without the last code point of each maximal run whose span exceeds the limit and is a multiple of limit + 1, and the intervals are ordered for a binary search. |
| Intervals.LostIsMissing | tools/gen-unicode.py:165-169 | What is lost depends on the list alone: the condition speaks of maximal runs, not of the grouping. |
| Intervals.LongRunLosesItsEnd | tools/gen-unicode.py:166 | A run of 257 code points under the limit 255 loses its last one. |
| Intervals.IsMember | jjs-core/lit/lit-char-helpers.c:80-117 | The engine's searches in the generated tables find a code point exactly if it is in the list and not one of the missing ones. |
| Frames.MessagesOfStream | jjs-debugger/jjs_client_rawpacket.py:64-90 | Cutting a stream of frames into messages gives back the messages, whatever bytes follow, for both framings. |
| Frames.ServerReadsFrame | jjs-main/debugger/debugger-ws.c:306-401 | The server reads from a client frame the message that was sent, for any masking key. |
| Frames.FrameHeader | jjs-main/debugger/debugger-ws.c:289-300 | The header bytes of a frame bit by bit: final, binary, unmasked, with a 7-bit length. |
| Frames.ClientFrameHeader | jjs-debugger/jjs_client_websocket.py:91-102 | The same from the client, with the mask bit, the key, and each byte combined with its key byte. |
| Frames.MaskedTwice | jjs-main/debugger/debugger-ws.c:384-398 | Unmasking undoes masking for every key. |
| ClientChannel.RawPacket.GetMessage | jjs-debugger/jjs_client_rawpacket.py:64-90 | A message, or an exception, that depends only on the bytes and not on how they arrive; a non-blocking call may only answer that nothing is there yet. What is not returned stays. |
| ClientChannel.WebSocket.GetMessage | jjs-debugger/jjs_client_websocket.py:104-133 | The same for WebSocket frames; a closed connection stays closed. |
| ClientChannel.ReadAll | jjs-debugger/jjs_client_rawpacket.py:64-90 | The sequence of messages up to the end of the connection is a function of the byte stream, for every chunking and blocking mode. |
| ClientChannel.SendAll | jjs-debugger/jjs_client_websocket.py:81-89 | The data arrives as it was, however little the socket takes at a time. |
| ServerTransport.Transport.Add | jjs-core/api/jjs-debugger-transport.c:38-89 | Adding a layer keeps the room for all headers in front of the payload and sets both limits to what the layer and the buffer leave, stored in a byte. |
| ServerTransport.Transport.LayerSend | jjs-main/debugger/debugger-ws.c:289-300 | Every layer writes its header directly in front of the message inside the shared buffer, and the socket gets the message in all its frames. |
| ServerTransport.Transport.SendData | jjs-core/api/jjs-debugger-transport.c:157-184 | A long message is sent in pieces within the limit; it is complete exactly if the connection lasts for all of them. |
| ServerTransport.PiecesJoin | jjs-core/api/jjs-debugger-transport.c:157-184 | The pieces joined give the message, and none is empty or longer than the limit. |
| ServerTransport.WrappedIsStream | jjs-main/debugger/debugger-rp.c:59-69 | What the layers send for a list of messages is the stream of their frames. |
| ServerReceiver.Receiver.TcpReceive | jjs-main/debugger/debugger-tcp.c:216-251 | Receiving keeps the byte stream; it fails exactly when the buffer is full. |
| ServerReceiver.Receiver.Receive | jjs-main/debugger/debugger-ws.c:306-401 | A message is delivered exactly when its frame is complete in the buffer; the connection closes only at a full buffer or a header that is to be refused, and such a header is never passed over; frames that fit leave room for the next receive. |
| ServerReceiver.Receiver.Unmask | jjs-main/debugger/debugger-ws.c:384-398 | The payload is unmasked in place and no other byte changes. |
| ServerReceiver.Receiver.ReceiveCompleted | jjs-core/api/jjs-debugger-transport.c:216-240 | The bytes behind the message move to the start of the buffer, so the rest of the stream is kept. |
| DebuggerText.SendString | jjs-core/debugger/debugger.c:1281-1327 | A string and its subtype are sent as full fragments and one last fragment of the next type; the call succeeds exactly if the connection lasts for all fragments. |
| DebuggerText.CollectFragments | jjs-core/debugger/debugger.c:1281-1327 | Collecting the fragments of any string gives the string and its subtype, and takes exactly the fragments, whatever messages follow. |
| DebuggerText.ProcessIncomingText | jjs-debugger/jjs_client_main.py:1125-1143 | The text, subtype and remaining messages that the client ends with are those of the message sequence; a missing or foreign message is an exception. |
| DebuggerText.EndToEnd | jjs-core/debugger/debugger.c:1281-1327 | Any text with a subtype goes through fragmenting, either framing and any cutting of the bytes and arrives as it was. |
| ScopeVariables.Append | jjs-core/debugger/debugger.c:333-419 | Writing bytes into the send buffer keeps what was sent and what is kept equal to the bytes written so far, and the position within the maximum. |
| ScopeVariables.CopyVariables | jjs-core/debugger/debugger.c:333-419 | A name or value adds its type, its length and at most 255 bytes to the stream; a function adds no bytes. |
| ScopeVariables.SendScopeVariables | jjs-core/debugger/debugger.c:472-529 | The messages sent are the fragments of the encoded list, the last one with the end type. |
| ScopeVariables.PayloadsJoin | jjs-core/debugger/debugger.c:472-529 | The payloads of the fragments, joined, are the encoded list. |
| ScopeVariables.ProcessScopeVariables | jjs-debugger/jjs_client_main.py:1171-1209 | The table that the client reads from a stream, or an exception if the stream breaks off. |
| ScopeVariables.RowsOfEncoded | jjs-debugger/jjs_client_main.py:1171-1209 | Reading the encoded list gives one row per variable, names and values cut to 255 bytes, function values empty. |
| ScopeVariables.EndToEndVariables | jjs-debugger/jjs_client_main.py:806-815 | Any list of variables, through either framing and any cutting of the bytes, is shown as exactly its rows: name and value cut to 255 bytes, brackets exactly around arrays. |
| ScopeVariables.RowIs | jjs-debugger/jjs_client_main.py:1171-1209 | The row of one variable, without the parser: the first 255 bytes of its name, its kind, and its value, which is empty for a function and stands in brackets for an array. |
| ServerMessages.Server.ProcessMessage | jjs-core/debugger/debugger.c:651-1085 | Every message and its size checks: what is accepted, how flags, the frame to stop in, data block, breakpoint bytes and resumption change, and which requests are passed on, equal to one step of the protocol. What the steps mean is in Commands. |
| Commands.WantedFrame | jjs-core/vm/vm.c:5325-5333 | Over any events of a running program the frame to stop in is the one that was asked for until it ends, and then none. |
| Commands.StepStops | jjs-core/debugger/debugger.c:820-828 | After STEP the engine runs and stops at the next position at any depth. |
| Commands.NextStops | jjs-core/debugger/debugger.c:830-838 | After NEXT it stops at a disabled position exactly if that is in the frame where the command was given, or that frame has ended: not in the functions that it calls. |
| Commands.FinishStops | jjs-core/debugger/debugger.c:840-852 | After FINISH it stops at a disabled position exactly if that is in the calling frame, or that has ended too; without a caller it stops at the next position. |
| Commands.ContinueStops | jjs-core/debugger/debugger.c:810-818 | After CONTINUE it stops at enabled breakpoints and nowhere else. |
| Commands.StopStops | jjs-core/debugger/debugger.c:800-808 | STOP does not resume, and a running engine stops at the next position. |
| Commands.EvalStops | jjs-core/debugger/debugger.c:539-584 | A thrown exception resumes the engine, which stops at the next position; any other evaluation only records its text. |
| Commands.Execute | jjs-core/vm/vm.c:4650-4690 | The engine runs to the first position where it stops by the state at the start, and enters breakpoint mode there and only there. |
| Commands.StepOver | jjs-debugger/jjs_client_main.py:430-432 | Client command, message and execution together: stepping over stops at the first of an enabled breakpoint, a position of the same frame, and any position after its return. |
| Commands.ConfigurationArrives | jjs-debugger/jjs_client_main.py:633-645 | The two configuration messages set exactly their flag, as the user asked; the message says which exceptions stop, the flag which are ignored. |
| Commands.SizesAreChecked | jjs-core/debugger/debugger.c:738-1079 | A message is accepted only with a known type and the size of its structure. |
| Commands.EndOfWaiting | jjs-core/debugger/debugger.c:918-1074 | Parser resume, end of sources and context reset are accepted exactly while the engine waits for them, and end that wait. |
| Commands.BreakpointArrives | jjs-debugger/jjs_client_main.py:617-624 | An update message sets exactly the byte that the client names to exactly its state. |
| Commands.ReleasesArrive | jjs-debugger/jjs_client_main.py:626-631 | Answers in the order of the reports release all the waiting byte code and nothing else. |
| Commands.ReleaseOutOfOrder | jjs-core/debugger/debugger.c:745-750 | A release is accepted exactly if it names the code that was reported first. |
| ServerMessages.ProcessKeeps | jjs-core/debugger/debugger.c:651-1085 | Every step keeps the data block consistent with the part that is awaited, and every refusal closes the connection. |
| ServerMessages.RunModeMessages | jjs-core/debugger/debugger.c:661-666 | Outside breakpoint mode no message from CONTINUE on is accepted and nothing is evaluated. |
| ClientStrings.SendString | jjs-debugger/jjs_client_main.py:559-604 | The first message announces the size and the parts follow; together they are the packets of the string, and their number is exact. |
| ClientStrings.RunPackets | jjs-core/debugger/debugger.c:667-732 | After any number of its messages the server holds exactly that much of the string. |
| ClientStrings.StringArrives | jjs-core/debugger/debugger.c:933-1040 | Every packet passes the size checks of the server, which ends with exactly the original bytes, for every message size from 10 on. |
| ClientStrings.Receive | jjs-core/debugger/debugger.c:1098-1151 | The receiving loop processes a prefix of the messages in order and stops only between strings. |
| ClientStrings.WaitAtBreakpoint | jjs-core/debugger/debugger.c:1165-1190 | A text for evaluation is evaluated once, with exactly its bytes. |
| ClientStrings.NameOf | jjs-core/api/jjs-debugger.c:152-163 | The first zero byte splits a source into the original name and text. |
| ClientStrings.WaitForClientSource | jjs-core/api/jjs-debugger.c:108-192 | A source that arrives is handed over exactly when neither ending flag is set; after an earlier end of the sources, whose flag is never cleared, it is dropped. |
| ClientStrings.EndToEndEval | jjs-debugger/jjs_client_main.py:559-604 | Client, socket, framing, receive buffer and message processing together: the evaluated text is the one that was sent. |
| ClientStrings.EndToEndSource | jjs-debugger/jjs_client_main.py:648-661 | The same for a source file with its name. |
| ClientStrings.LateSourceIsDropped | jjs-core/api/jjs-debugger.c:108-192 | A client that has ended its sources sends one more: the engine takes it in and reports the end of the sources. |
| Breakpoints.InsertLists | jjs-debugger/jjs_client_main.py:230-234 | Inserting adds one breakpoint under its line to a multimap that lists each once. |
| Breakpoints.DeleteLists | jjs-debugger/jjs_client_main.py:236-242 | Deleting removes just that breakpoint, also when it is the last one of its line. |
| Breakpoints.Debugger.EnableBreakpoint | jjs-debugger/jjs_client_main.py:1037-1060 | An inactive breakpoint gets exactly the next number and its byte is enabled; an active one, and every other, keeps its number. |
| Breakpoints.Debugger.SetBreakpoint | jjs-debugger/jjs_client_main.py:1062-1104 | Exactly the breakpoints that match the line and source, or start a function of the name, become active, and those active before keep their numbers; a pending one is added only if nothing was found and the user wants it, and never twice. |
| Breakpoints.SourceMatchesIs | jjs-debugger/jjs_client_main.py:1062-1104 | A source is found by its whole name or by what follows a slash or backslash in it, and by nothing else. |
| Breakpoints.Debugger.DeleteAll | jjs-debugger/jjs_client_main.py:392-412 | Deleting all, active or pending breakpoints empties exactly those lists. |
| Breakpoints.Debugger.Delete | jjs-debugger/jjs_client_main.py:414-428 | A number deletes the active or the pending breakpoint that has it, and nothing else. |
| Breakpoints.Debugger.ReleaseFunction | jjs-debugger/jjs_client_main.py:1021-1034 | Exactly the released function, its breakpoints and its bytes leave the tables, and the others keep their numbers; an unknown one is an exception. |
| Breakpoints.Debugger.ParseCompleted | jjs-debugger/jjs_client_main.py:976-1015 | New functions enter the tables; the active breakpoints are exactly those active before, with their numbers, and the matches of the pending ones that left the list. A pending breakpoint leaves only if it matched and a new source of its name has its line, and none that is reachable is left behind. |
| Breakpoints.SettledNext | jjs-debugger/jjs_client_main.py:988-1018 | Trying one pending breakpoint after another keeps this account of what became active and why. |
| Breakpoints.NewCode | jjs-debugger/jjs_client_main.py:976-982 | New functions bring disabled bytes and do not disturb the agreement of the others. |
| Breakpoints.Run | jjs-debugger/jjs_client_main.py:392-428 | After any sequence of commands, parses and releases a byte is enabled exactly if its breakpoint is active, the server waits after parsing exactly if something is pending, every listed number is the number of its breakpoint, and the line list holds exactly the lines of live functions. |
| CommonJs.Loader.Require | jjs-core/api/jjs-annex-commonjs.c:256-346 | Every way a require can end: errors, a circular one, exports of a loaded module without running anything, or a new module: that gives what its body, with the answers that its own requires got, ends with, and is cached with these exports or leaves no entry. Cached modules stay as they are and do not run again. |
| CommonJs.Loader.LoadModule | jjs-core/api/jjs-annex-commonjs.c:373-402 | Running a body makes its requires in order up to the first uncaught failure, which is the result; without one it ends with the exports or the exception of the body. Nested requires keep all of this, and recursion ends because the uncached files become fewer. |
| CommonJs.Leaving | jjs-core/api/jjs-annex-commonjs.c:318-345 | Failure removes the entry and success completes it with the exports of the run; both restore the stack that was active before, and the log stays truthful about every run. |
| CommonJs.LoadedRan | jjs-core/api/jjs-annex-commonjs.c:318-345 | Every loaded module was run to its end by some run of its file, which gave just these exports. |
| CommonJs.KeptTwice | jjs-core/api/jjs-annex-commonjs.c:256-346 | What two runs in a row keep, both together keep. |
| CommonJs.Loader.Session | jjs-core/api/jjs-annex-commonjs.c:256-346 | Over any requests from outside no module is left half loaded, and every result is what a completed run of the module gave. |
| Cellocator.Allocator.AddPage | jjs-core/jmem/jmem-cellocator.c:42-78 | All cells of a block become free, each once and the last one first, in front of the old list; live cells are untouched. |
| Cellocator.Allocator.Alloc | jjs-core/jmem/jmem-cellocator.c:81-91 | The first cell of the free list, which is a cell of some page and was not live, or none exactly if every cell is live. |
| Cellocator.Allocator.CellFree | jjs-core/jmem/jmem-cellocator.c:94-101 | A live cell becomes free and is the first to be given again. |
| Cellocator.Allocator.Write | jjs-core/jmem/jmem-cellocator.c:81-91 | Whatever a program writes into a live cell does not disturb the free list. |
| Cellocator.Allocator.Find | jjs-core/jmem/jmem-cellocator.c:104-119 | The page whose cells the address lies between, or none if there is none; for a cell it is the only page that holds it. |
| Cellocator.GiveCell | jjs-core/jmem/jmem-cellocator.c:94-101 | Free and live cells stay disjoint, cover the pages and keep their sum after a cell is freed. |
| Cellocator.Run | jjs-core/jmem/jmem-cellocator.c:42-119 | Over any operations of a program that frees and writes only what it holds: every allocation gives a cell that it does not hold, or none exactly if it holds all cells of all blocks; no cell is ever held twice. |
| PackageMap.ValidatorIsExact | jjs-core/api/jjs-annex-pmap.c:423-573 | The validator accepts exactly the packages of the documented shapes. |
| PackageMap.ValidatePmap | jjs-core/api/jjs-annex-pmap.c:578-639 | A map is accepted exactly if it is an object with an object of packages of which every validly named one is accepted; otherwise the reason is true, and that of a package that is refused. |
| PackageMap.DocumentedMainIsRefused | jjs-core/api/jjs-annex-pmap.c:36-60 | The documented example with a main that lacks the leading ./ is refused. |
| PackageMap.PathsAreSound | jjs-core/api/jjs-annex-pmap.c:377-418 | Every string that the resolver takes from an accepted package starts with ./, for main and path and each module type. |
| PackageMap.PathIs | jjs-core/api/jjs-annex-pmap.c:377-418 | What the resolver takes from an accepted package, by module type and property names: an ES module the entry module, a CommonJS module the entry commonjs, a package without either the same for both. |
| PackageMap.TypesDiffer | jjs-core/api/jjs-annex-pmap.c:377-418 | A package with a file for each type gives each type its own. |
| PackageMap.FileIs | jjs-core/api/jjs-annex-pmap.c:680-745 | A package gives a file exactly if it has a path for the module type and the file exists below it. |
| PackageMap.MapsAre | jjs-core/api/jjs-annex-pmap.c:578-600 | What can be a package map at all: an object that is no array, with an object of packages that is none either. |
| PackageMap.NamesAre | jjs-core/annex/annex-util.c:330-392 | The accepted names, by the fixed alphabet, and the accepted paths, by their first characters. |
| PackageMap.FindNearest | jjs-core/api/jjs-annex-pmap.c:680-745 | The search ends with the longest registered prefix before a slash, also when that package has no path, and tells apart how it found nothing. |
| PackageMap.NearestIsSound | jjs-core/api/jjs-annex-pmap.c:680-745 | Every package found before a slash was validated if its own name is valid, whatever follows the slash. |
| PackageMap.PrefixIsValid | jjs-core/api/jjs-annex-pmap.c:680-745 | In a validly named specifier the part before a slash is a valid name exactly if the slash is not leading. |
| PackageMap.EmptyNameIsNotValidated | jjs-core/api/jjs-annex-pmap.c:613-617 | At a leading slash the package with the empty name is found, which the validator skips. |
| PackageMap.Context.SetPmap | jjs-core/api/jjs-annex-pmap.c:96-192 | The map is replaced exactly if it is accepted and its root exists, and the root becomes the real path of the given one or the current directory; otherwise both stay. |
| PackageMap.Context.Resolve | jjs-core/api/jjs-annex-pmap.c:310-372 | An exact name resolves to its main, any other specifier to a file below its nearest package, and nothing without one; the file lies under a path that starts with ./ whenever the name of the package is valid. |
| PathEncoder.EncodePath | jjs-core/annex/annex-path.c:491-601 | The result is an error exactly if a surrogate is unpaired; otherwise it is the prefix and the percent-encoded UTF-8 of the code points, never longer than the prefix and three times the path, and the strict size check holds at every step. |
| PathEncoder.ReadUnitBytes | jjs-core/lit/lit-strings.c:603-648 | The reader gives back every code unit and its size at any place in a string. |
| PathEncoder.CharactersAre | jjs-core/annex/annex-path.c:451-488 | Which characters are left as they are, and the three characters that stand for any other byte. |
| PathEncoder.Utf8Ranges | jjs-core/lit/lit-strings.c:964-1025 | How many bytes a code point takes and which values they may have, as in the table of the standard. |
| PathEncoder.PercentRoundTrip | jjs-core/annex/annex-path.c:451-488 | Percent-decoding gives the UTF-8 bytes of the path. |
| PathEncoder.Utf8IsUnique | jjs-core/lit/lit-strings.c:964-1025 | Different code points have different UTF-8 bytes. |
| PathEncoder.UrlsDiffer | jjs-core/annex/annex-path.c:491-601 | Two paths have the same encoding exactly if they are the same path. |
| PathEncoder.PathToFileUrl | jjs-core/annex/annex-path.c:321-387 | An absolute path with paired surrogates, and no other, has a file URL. |

## Left out

- SnapshotRoundTrip.RoundTrip: byte code, argument types and other bytes of a function are one opaque body that is copied as a whole.
- SnapshotLoader.LoadCompiledCode: only the copying mode; loading without copying and static snapshots depend on compressed pointers and VM opcodes.
- SnapshotRoundTrip.GenerateSnapshot: block sizes are assumed to fit their 16-bit field, and a function refers to itself only directly, as the writer assumes; compiling the pattern of a regular expression again is the identity on pattern and flags.
- SnapshotWriter.Writer.AddCompiledCode: padding bytes and the byte image of a block are not modelled, only its fields and its extent.
- SnapshotLiterals.TableDecodes: numbers and lengths are stored with the byte order of the machine, which both sides share.
- SnapshotLiterals.SaveLiterals: the 32-bit sum of the table size wraps only at a single literal of almost 4 GB, which is not modelled.
- SnapshotGenerate.AppendCode: argument_end is cut at the number of constants; the source reads argument_end slots, which for well-formed code with mapped arguments are constants.
- SnapshotMergeRun.MergeSnapshots: for fewer than 2^32 functions in all inputs, the range of their 32-bit count.
- SnapshotMerger.MergedIsValid: for merged code of less than 4 GB, the range of its 32-bit offsets.
- LiteralSort.Sort: for at most 2147483647 literals; above that the child index of the 32-bit heap overflows.
- CasePipeline.GenerateLowerTables: the widths of the table cells (8 and 16 bits) and extract_special_ranges with the upper-case tables behind it, which are right only for particular Unicode data.
- CaseReader.LowerCase: for the basic plane only.
- ServerMessages.Server.ProcessMessage: what is answered to memory, backtrace and scope requests; that the byte of an update is a breakpoint byte, which the source asserts, is in Breakpoints.
- Commands.Execute: positions that are passed while an evaluation runs, messages polled between two stops, and the frames of generators.
- ClientStrings.Receive: a client that stops in the middle of a string makes the engine wait without end; the model reports it instead.
- ClientStrings.WaitForClientSource: the client is silent after the source until the wait returns.
- DebuggerText.ProcessIncomingText: splitting printed output into lines and the prompt.
- ServerTransport.Transport.Add: the serial port and the WebSocket handshake; a layer of framing stands on one socket.
- Breakpoints.Debugger.SetBreakpoint: breakpoints are known by function and line, so the order in which several get their numbers and the texts shown are not modelled.
- Breakpoints.Debugger.ParseCompleted: reading the messages of the parser; a pending line stays if the first function found for its source has fewer lines.
- CommonJs.Loader.Require: virtual modules, the resolution of a request to a path, and bodies that edit require.cache, module.loaded or delete module.exports.
- Cellocator.Allocator.AddPage: at least one cell per page; a page count of zero makes the end address wrap.
- PackageMap.Context.SetPmap: reading a map from a file; the map is plain data that is not changed afterwards.
- PathEncoder.PathToFileUrl: the Windows branches, and paths so long that three times their length does not fit 32 bits.
- Reference counts, ownership and freeing of memory are not modelled anywhere.
- Display of a scope chain in several fragments: the client keeps only the last one.
- The VM, the parser, the garbage collector, streams and ES module linking.
