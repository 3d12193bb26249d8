# Verification of Headquarter's core algorithms

This project models the parts of Headquarter whose correctness is hard to see from
reading one function, in the form the C code has (heap nodes, arrays, buffers, loops),
and proves what they compute.

* **The intrusive red-black tree and the timer queue on it** (`code/common/rbtree.c`,
  `code/common/timer.c`): `RbShape`, `RbStore`, `RbTree`, `Timers`. Nodes live on the
  heap; a ghost tree says what shape their pointers have. Rotations, insertion, deletion
  and both fix-up loops keep the parent links, the colours, the black heights and the
  order. Nothing is assumed of the root's `parent` (insertion into an empty tree sets it,
  deletion may leave it stale) or of the sentinel's `parent`, which deletion uses as
  scratch space. The in-order sequence is what the operations are stated on: insertion
  puts a node behind all nodes with a key up to its own, deletion takes out one node.
* **The Guild Wars decompressor** (`docs/compress.c`): `Bits`, `BitReader`, `Huffman`,
  `HuffmanTables`, `Decoder`, `Inflate`, `SourceTables`, `TenBit`,
  `Overfull`, and the write side of the format in `Compress`, `CompressHeaders`,
  `CompressFile`. The two-word bit reader is an
  infinite zero-padded bit stream; the builder assigns canonical codewords and fills the
  256-entry table and the table of long codes; the decoder with these tables is plain
  prefix-code decoding; a whole file is the list of tokens that plain decoding reads; and
  any text, cut into literals and copies in any way and written with any such codes, is
  decompressed to itself.
* **The wire codec and the receive path** (`code/client/network.c`,
  `code/client/arc4.c`): `Bytes`, `Arc4`, `WireFormat`, `WireLayout`, `WireNumbers`, `Codec`, `Unpack`,
  `Connection`, `ServerFormats`. `pack` and `unpack` are loops over field descriptors and byte buffers,
  each proved against what a message is: its wire bytes and its struct in memory. The
  connection decrypts chunk after chunk and hands on packets; its state is always that of
  decoding the whole stream received so far. The tables of formats are arbitrary; what
  the decoding does with the authentication server's own table is shown row by row.
* **Callback lists** (`code/common/list.h`, `code/client/event.c`): `List`, `Events`.
* **Skill templates** (`code/client/skill.c`): `Template`, `TemplateMemory`,
  `TemplateSettled`, `TemplateUnsettled`, `TemplateDecode`, `TemplateLayout`. Encoding and reading are
  defined on bits; the decoder works on an array of signed chars that is never cleared.
* **Re-hashing tables** (`include/vars.c`, `code/common/hash.h`, `code/client/item.c`):
  `Hashing`, `VarTable`.

Time, received chunks, what handlers and callbacks do, and the contents of uninitialised
memory are parameters or are left arbitrary. An `assert` of the C code is an outcome of its own
(`Aborted`, or `ok == false`), not an assumption, unless it is a demand on the caller.

Seven results are about where the code does not do what one would expect of it:

* The packet buffer has 4096 bytes (`code/client/network.c:132`) but is cleared over the
  `unpack_size` of the format that arrives (`code/client/network.c:788`). Some stream
  makes it run past the end if and only if some row that a header can name is larger
  (`PacketStream.NeverOverruns`), and a stream of packed messages does so if and only if
  one of them is (`PacketStream.PackedOverruns`); two bytes that name such a row are
  enough, behind any messages that fit (`PacketStream.StreamOverruns`). In the table of
  the authentication server these are the headers 4 and 23, with 4102 bytes
  (`ServerFormats.AuthFormats`, `ServerFormats.AuthOverruns`).
* `template_decode` never clears its buffer and compares its cursor with the end of the
  text for skills only. Whatever the buffer holds, a text is refused or gives a valid
  template if and only if its bits settle it: they reach through the attributes, or are
  refused before they end (predicate `Settled`, `TemplateUnsettled.SettledExactly`).
  With the text "ABEA" and chars of -1 behind it a template with the attribute -4 comes
  out (`TemplateDecoding.AbeaBreaks`).
* A callback may unregister any entry except the one that is due right after its own, on
  which the cursor of `broadcast_event` already stands: the entries called are those not
  removed before their turn if and only if no callback does that
  (`Events.EventManager.Broadcast`, predicate `Clear`). `Events.SecondRemoved` is a list
  of two where it goes wrong.
* The shift at `docs/compress.c:394` drops the top bit when no codeword has 9 bits or
  fewer: the first row of the long-code table then starts at 0 and catches every stream.
  So a complete code decodes if and only if some codeword has at most 9 bits
  (`Decoders.GetNextCode`, predicate `ShortEnough`). `TenBitStream.TenBitHeader` is a
  stream that spells a complete code of which nothing decodes, and a file that starts
  with it stops (`TenBitStream.TenBitFails`, `TenBitStream.TenBitFileStops`).
* `pack` steps over the elements of a nested struct by `MsgField.size`
  (`code/client/network.c:1017`), which the tables leave at 0. Every message of a format
  survives unpacking and packing if and only if that size is the element's size, or at
  most one element fits, or elements are empty (`WireLayout.StrideNeeded`); `WireLayout.Client112Repeats` shows
  the client message 112 of the tables losing its second element.
* `unicode16_len` stops at a zero, so a text that holds one is packed shorter than it was
  unpacked: with a suitable size, unpacking and packing gives a message back if and only
  if no text in it holds a zero (`WireLayout.ViewImage`). What is packed has every text
  up to its first zero (`WireLayout.ViewCut`); `ServerFormats.ZeroInText` is a message
  with header 7 that loses its text.
* The early return of `SetupNodesandTree` on over-subscribed lengths answers `true`
  (`docs/compress.c:319`); it is taken exactly when Kraft's inequality fails
  (`HuffmanTables.HuffmanData.BuildTables` with `CanonicalCode.KraftComplete`).
  `OverfullStream.OverfullHeader` is a stream of 32 bits that spells three codewords of
  one bit, for which it is taken (`OverfullStream.OverfullBuilds`).

## Model

| member | source | states |
|---|---|---|
| RbTrees.RbTree.Insert | code/common/rbtree.c:57-119 | keeps the tree linked, ordered and red-black, adds exactly the node, and places it behind every node with a key up to its own, so equal keys keep insertion order |
| RbTrees.RbTree.InsertFixup | code/common/rbtree.c:75-118 | from a red node that may have a red parent, the loop ends with a red-black tree of the same nodes in the same order |
| RbTrees.RbTree.InsertCore | code/common/rbtree.c:121-144 | hangs the node at the place the search finds, and nothing else moves |
| RbTrees.RbTree.RotateLeft | code/common/rbtree.c:169-191 | rotates the subtree at the node, links and root included |
| RbTrees.RbTree.RotateRight | code/common/rbtree.c:146-167 | the mirror image |
| RbShape.RotateOrder | code/common/rbtree.c:146-191 | no rotation changes the in-order sequence |
| RbTrees.RbTree.Delete | code/common/rbtree.c:193-338 | removes exactly the node from the in-order sequence and keeps the tree linked, ordered and red-black |
| RbTrees.RbTree.DeleteFixup | code/common/rbtree.c:274-337 | from a subtree that lacks one black node, the loop ends with a red-black tree in the same order |
| RbShape.InsertEntryAt | code/common/rbtree.c:121-144 | insertion at the place between smaller-or-equal and greater keys is `InsertEntry` |
| RbShape.RemoveSubstOrder | code/common/rbtree.c:199-262 | moving the in-order successor into the place of a node removes that node from the order |
| RbShape.HeightBound | code/common/rbtree.c:57-338 | a red-black tree of n nodes has height at most 2 log2(n + 1) |
| RbTrees.RbTree.Min | code/common/rbtree.c:20-29 | the leftmost node of the subtree |
| RbTrees.RbTree.Next | code/common/rbtree.c:31-55 | the in-order successor, or null behind the last node, whatever the root's `parent` holds |
| RbTrees.RbTree.Traverse | code/common/rbtree.c:20-55 | calling min and then next until null ends, and visits every node once, in order |
| Timers.TimerQueue.Add | code/common/timer.c:52-65 | the timer ends up armed, once: it is due for a time `now` exactly when `clock + timeout`, less 2^64 if that is reached, is at most `now`; the other entries keep their order |
| Timers.TimerQueue.Del | code/common/timer.c:46-50 | the timer leaves the queue; `timerSet` holds exactly for the timers in the tree |
| Timers.TimerQueue.Process | code/common/timer.c:18-44 | terminates when handlers do not re-arm into the past; the calls made and the queue left are those of `Pass` |
| TimerSpec.PassFires | code/common/timer.c:26-43 | who fires in a pass depends on the due timers only: they are taken in order, without those that earlier handlers of the pass named; none is left due |
| TimerSpec.FiresUnlessTouched | code/common/timer.c:26-43 | a due timer fires in a pass exactly when no due timer in front of it that fires has a handler that disarms or re-arms it |
| TimerSpec.SurvivesUntouched | code/common/timer.c:26-43 | a due timer fires exactly when none of the handlers called before its turn names it, and these are as many as fire among the due timers in front of it |
| TimerSpec.FiresInOrder | code/common/timer.c:26-43 | those that fire do so in the order of the queue |
| TimerSpec.PassFiresExactlyDue | code/common/timer.c:18-44 | when handlers leave the other due timers alone, exactly the due timers fire, each once, in order of deadline and insertion |
| TimerSpec.DueIsExact | code/common/timer.c:32-37 | the due part of the sorted queue is exactly the timers with a deadline up to now |
| BitReaders.DecompressState.ConsumeBits | docs/compress.c:124-153 | drops exactly that many bits of the zero-padded stream, across refills and past the end |
| BitReaders.DecompressState.GetBits | docs/compress.c:155-159 | the next bits of the stream, as a number |
| BitReaders.ShowsRefill | docs/compress.c:136-146 | shifting in a fresh word shows the stream advanced |
| CanonicalCode.RoomClosed | docs/compress.c:304-344 | what `nextBitEncoding + 1` counts at each length: 2^l minus the scaled Kraft sum of the shorter lengths |
| CanonicalCode.CodewordValue | docs/compress.c:304-344 | the j-th codeword of length l is, as a number, 2^l - 1 - j less the scaled Kraft sum of the shorter lengths |
| CanonicalCode.KraftComplete | docs/compress.c:315-320 | lengths fit exactly when their Kraft sum is at most 1, and are complete exactly when it is 1 |
| CanonicalCode.PrefixFree | docs/compress.c:305-399 | at most one assigned codeword starts any stream |
| CanonicalCode.DecodeMeaning | docs/compress.c:161-207 | decoding gives the symbol of the codeword that starts the stream |
| CanonicalCode.DecodeExists | docs/compress.c:181-182 | for a complete code some codeword starts every stream |
| CanonicalCode.EncodeDecode | docs/compress.c:161-207 | decoding a string of codewords gives its symbols back, whatever follows |
| HuffmanTables.HuffmanData.BuildTables | docs/compress.c:285-403 | ends early exactly when the lengths are over-subscribed; for a complete code every entry of both tables is right |
| HuffmanTables.HuffmanData.ShortTable | docs/compress.c:304-344 | the 256 entries name the codeword of up to 8 bits that starts their index |
| HuffmanTables.HuffmanData.LongTable | docs/compress.c:354-399 | long codewords are marked in the fast table, stored in order, and their rows hold the bounds and offsets |
| Decoders.FastEntry | docs/compress.c:165-168 | the fast entry of the next 8 bits agrees with plain decoding |
| Decoders.LongSymbol | docs/compress.c:184-196 | the row of the right length gives the symbol by subtracting and shifting |
| Decoders.RowFound | docs/compress.c:175-182 | the first row that matches is the row of the codeword's length |
| Decoders.FirstRowWraps | docs/compress.c:394 | with no codeword of up to 9 bits the first row wraps to 0 and catches every stream |
| Decoders.TenBitCodeComplete | docs/compress.c:361-399 | a complete code of which nothing decodes |
| Decoders.GetNextCode | docs/compress.c:161-207 | for complete codes: succeeds if and only if some length is at most 9, and then gives the symbol of plain decoding and consumes exactly its codeword |
| Inflating.SetupNodesandTree | docs/compress.c:209-404 | reads exactly the code lengths that the stream spells and builds tables that decode them |
| TenBitStream.TenBitRead | docs/compress.c:209-283 | the stream of 1024 and 128 equal groups is read as the lengths of that code, whatever follows |
| TenBitStream.TenBitFails | docs/compress.c:161-404 | on that stream the tables are built and then no symbol can be decoded |
| TenBitStream.TenBitFileStops | docs/compress.c:406-541 | a file with these headers stops at a failed assert as soon as one byte is asked of it |
| OverfullStream.OverfullRead | docs/compress.c:209-283 | a stream of 32 bits is read as three codewords of one bit, which do not fit |
| OverfullStream.OverfullBuilds | docs/compress.c:315-320 | on that stream the answer is true although the lengths do not fit |
| Inflating.CopyBytes | docs/compress.c:509-514 | a copy with overlap |
| InflateSpec.CopyPeriodic | docs/compress.c:509-516 | byte i of a copy is the byte at i modulo the distance, and what was written before stays |
| Inflating.DecodeBlock | docs/compress.c:467-520 | a block writes what its tokens expand to, or stops where a token's symbol or copy fails an assert |
| Inflating.DecompressFile | docs/compress.c:406-541 | as long as the codes in the stream are complete: it stops at a failed assert exactly when plain decoding of the stream does, and otherwise the output is what the tokens expand to and the loop ends exactly at the output's end |
| TokenStreams.TokenBack | docs/compress.c:467-520 | a literal, or a copy of `first4 + 1 + v` bytes from `w + 1` bytes back, written with codewords and extra bits, is read back |
| TokenStreams.LengthSymbol | docs/compress.c:494-500 | every v below 256 has its symbol and extra value |
| TokenStreams.DistanceSymbol | docs/compress.c:500-508 | every w below 32768 has its symbol and extra value |
| TokenStreams.BlockBack | docs/compress.c:467-520 | a block of tokens is read back to the text that they cut up: a literal is the next byte, and each byte of a copy equals the byte `distance` before it |
| LengthStreams.RunBack | docs/compress.c:242-258 | each of the 256 runs of code lengths, written with its code, is read back |
| LengthStreams.CodeBack | docs/compress.c:209-283 | the code lengths of any symbols, written run by run from the last symbol down, are read as the increasing lists of the symbols of each length, absent ones left out |
| LengthStreams.NoneBack | docs/compress.c:285-293 | when every symbol is absent the last one gets the empty codeword |
| LengthStreams.OneBack | docs/compress.c:265-283 | a single symbol keeps its length, also length 0 |
| FileStreams.FileBack | docs/compress.c:406-541 | any text, cut into literals and copies in any way, in blocks of 4096 tokens a unit, is read back from its file whatever follows |
| FileStreams.Decompresses | docs/compress.c:406-541 | the decompressor returns that text |
| FileStreams.FileBit | docs/compress.c:124-153 | the bits of the file are those of its words, each from the highest bit down |
| SourceTables.SourceTablesOk | docs/compress.c:7-101 | the tables of the file meet what the decoder relies on |
| Arc4.Context.constructor | code/client/arc4.c:24-49 | the key schedule, and that `m` is a permutation |
| Arc4.Context.Crypt | code/client/arc4.c:54-81 | output and new state are those of the cipher, also in place; `m` stays a permutation and nothing else is written |
| Arc4.KeyOf | code/client/arc4.c:24-49 | every permutation of the bytes is the table of some key of 256 bytes |
| Arc4.StillKeyStays | code/client/arc4.c:24-49 | the key 0, 0, 255, 254, .., 2 gives the identity table |
| Arc4.ShortKey | code/client/arc4.c:40-42 | a shorter key is used over and over |
| Arc4.SecondByteStays | code/client/arc4.c:66-75 | with a 0 at place 2 and no 2 at place 1 the second byte of a stream comes out unchanged |
| Arc4.IdentityKeystream | code/client/arc4.c:66-75 | from the identity table the keystream starts with 2, 5, 7 |
| Arc4.PermutationMeaning | code/client/arc4.c:35-48 | `m` holds every byte exactly once |
| Arc4.CryptConcat | code/client/arc4.c:54-81 | crypting a concatenation is crypting the pieces in turn |
| Arc4.CryptUndone | code/client/arc4.c:73-74 | crypting twice from the same state gives the text back |
| Arc4.ChunkingsInvert | code/client/arc4.c:24-81 | two contexts with the same key invert each other, for any two ways of cutting the stream |
| WireFormat.WireParse | code/client/network.c:925-1131 | a packed message is read back, and exactly its bytes are used, whatever follows |
| WireFormat.ParseWire | code/client/network.c:1028-1131 | bytes that parse are the wire form of what was read |
| WireFormat.SelfDelimiting | code/client/network.c:1028-1131 | the same result on every extension, and too few bytes on every proper prefix |
| WireFormat.RejectedStays | code/client/network.c:1070 | a count that is too large stays so, whatever follows |
| WireNumbers.FixedField | code/client/network.c:872-1026 | the fixed kinds take 2, 4, 4, 8, 12, 1, 2, 4 or `param` bytes, on the wire and in memory |
| WireNumbers.CountedField | code/client/network.c:872-1026 | n elements of 2, 1, 2 or 4 bytes: on the wire behind n in two bytes, low one first; in memory behind n in four bytes, except for texts, and filled up with zeros; n is at most `param` and 65535 |
| WireNumbers.NestedField | code/client/network.c:895-1026 | n nested structs: behind n in one byte on the wire and in four in memory; n is at most `param` and 255 |
| WireNumbers.CountHeld | code/client/network.c:959-964 | the count that packing finds in memory, in bytes |
| WireNumbers.CountedParse | code/client/network.c:1028-1131 | with the first two bytes as the count: refused exactly above `param`, incomplete below the bytes it asks for, otherwise on to the next field |
| WireNumbers.NestedParse | code/client/network.c:1028-1131 | the same with one byte of count |
| WireLayout.RoundTrip | code/client/network.c:925-1131 | from any struct whose counts fit: the wire form parses to its content, and the unpacked struct keeps every live byte and is zero elsewhere |
| WireLayout.ViewImage | code/client/network.c:925-1131 | packing reads back what unpacking stored if and only if no text holds a zero |
| WireLayout.ViewCut | code/client/network.c:925-1154 | what is packed of an unpacked message: every text up to its first zero, and all the rest |
| WireLayout.StrideNeeded | code/client/network.c:1017 | that holds for all messages of a format if and only if the nested struct's size is set to its element's size, or at most one element fits, or elements are empty |
| WireLayout.Client112Repeats | code/client/packets.c:1391-1397 | the second element of this client message is lost |
| ServerFormats.ZeroInText | code/client/packets.c:465-472 | a message of this row whose text starts with a zero is packed with an empty text |
| Codec.Pack | code/client/network.c:925-1026 | succeeds exactly when counts fit their fields and the bytes fit the buffer, and then writes exactly the wire form |
| Codec.TextLen | code/client/network.c:1146-1154 | the number of units in front of the first unit whose two bytes are zero |
| Unpacking.Unpack | code/client/network.c:1028-1131 | result and failure are those of parsing, and cleared memory becomes the struct of the message, nothing outside it |
| PacketStream.DecodeConcat | code/client/network.c:774-819 | for every table of formats: decoding a stream can stop after any byte and go on with what is left, and a fault is final |
| PacketStream.FaultsExactly | code/client/network.c:774-797 | clearing overruns the packet buffer exactly where decoding meets a header whose struct is larger, before the rest of its message has come; the model ends exactly at a smaller format outside it |
| PacketStream.FaultCauses | code/client/network.c:774-804 | decoding fails an assert exactly at an unknown header or a count that is too large, and closes exactly at a complete message without a handler slot |
| PacketStream.NeverOverruns | code/client/network.c:774-788 | no stream overruns the packet buffer if and only if every row of the table that a header can name fits it |
| PacketStream.StreamOverruns | code/client/network.c:774-788 | behind any messages that fit, two bytes that name a larger struct overrun the buffer; the messages before have been delivered |
| PacketStream.PackedOverruns | code/client/network.c:774-788 | a stream of messages that can be packed overruns the buffer if and only if the struct of one of them is larger than the buffer |
| PacketStream.StreamDecodes | code/client/network.c:774-819 | a stream of packed messages decodes to their structs, in order and with nothing over; only the formats of these messages must be modelled and fit the packet buffer |
| Connections.Connection.Recv | code/client/network.c:748-772 | for every table: after any chunk, the handlers have been called with exactly those packets of the whole stream whose header has a handler, in order; closed, aborted and undefined outcomes by their causes; the buffer holds exactly the undecoded rest |
| Connections.Connection.Dispatch | code/client/network.c:774-819 | for every table: delivers exactly the packets of the buffer whose header has a handler, in order, keeps the rest, and ends by the causes of decoding |
| Connections.EndToEnd | code/client/network.c:748-819 | whatever the cuts, what handlers got are the structs of exactly those of the sender's first n messages that have a handler, in order; all messages, with an empty buffer, once all has arrived |
| ServerFormats.AuthFormats | code/client/packets.c:5179-5220 | every row declares the size of its struct, and all but the rows 4 and 23 fit the packet buffer |
| ServerFormats.Header4Overruns | code/client/network.c:788 | with this table the header 4 alone overruns the packet buffer |
| ServerFormats.AuthStops | code/client/network.c:774-797 | with this table decoding overruns the buffer exactly where it meets header 4 or 23, and no row is outside the model |
| ServerFormats.AuthOverruns | code/client/network.c:774-788 | with this table a stream of packed messages overruns the buffer if and only if one of them has the header 4 or 23 |
| ServerFormats.GameRowsUnmodelled | code/client/packets.c:4546-4641 | the messages 401 and 412 of the game server nest a text and are outside the model |
| Lists.Add | code/common/list.h:187-195 | a new node between two neighbours of a circle: the circle with the node there |
| Lists.InsertHead | code/common/list.h:200-204 | the circle with the node first |
| Lists.Remove | code/common/list.h:238-243 | the circle without the node |
| Lists.Split | code/common/list.h:117-135 | two circles: the nodes before the given one, and the rest |
| Lists.Concat | code/common/list.h:140-157 | one circle with the nodes of both |
| Lists.SetHead | code/common/list.h:169-180 | the same nodes under the new head, as initialising and concatenating would give |
| Events.EventManager.AddEntry | code/client/event.c:13-20 | the entry is first of its event; every list stays a circle and an entry is in at most one |
| Events.EventManager.RemEntry | code/client/event.c:22-34 | exactly this entry leaves its list |
| Events.EventManager.RegisterEvent | code/client/api.c:134-145 | refused exactly for unknown events and registered entries |
| Events.EventManager.UnRegisterEvent | code/client/api.c:147-160 | the entry is in no list afterwards |
| Events.EventManager.Broadcast | code/client/event.c:41-57 | the entries registered at the start that no earlier callback removed are called once, newest first, if and only if no callback removes the entry under the cursor; otherwise the loop calls an entry that was removed before its turn |
| Events.CalledUnlessRemoved | code/client/event.c:41-57 | an entry is among those exactly when no entry called before it unregisters it |
| Events.SecondRemoved | code/client/event.c:49-51 | with two entries, the first of which unregisters the second, the cursor stands on the removed one |
| Hashing.HashInjective | code/common/hash.h:9-23 | no two words have the same hash |
| Hashing.HashStages | code/common/hash.h:9-23 | the hash of any word, stage by stage, in sums, quotients and exclusive ors |
| Hashing.HashIsPolynomial | code/common/hash.h:44-91 | the hash of a string is the number its characters spell in base 31, modulo 2^32 |
| Hashing.HashStrI | code/common/hash.h:79-91 | hashing without regard to case is hashing the lower-case string |
| Hashing.Stricmp | include/str.h:173-189 | zero exactly when the strings differ at most in the case of letters; otherwise the difference of the characters where they part |
| Probing.InsertKeeps | include/vars.c:342-363 | taking the first free slot on its path gives an entry its place and moves no other |
| Probing.SearchEnds | include/vars.c:392-404 | the first slot on a path that is free or matches answers the search |
| VarTables.VarSection.CreateTable | include/vars.c:335-365 | if it returns, every variable has its place behind earlier ones |
| VarTables.VarSection.FindVar | include/vars.c:387-405 | if it returns, it is the first declared variable of that name ignoring case, or there is none |
| BagTables.BagTable.CreateBag | code/client/item.c:305-316 | if it returns, the new bag has its place and the others keep theirs |
| BagTables.BagTable.FindBag | code/client/item.c:259-269 | if it returns, the bag with that id is found, or its assert fails and no such bag was created |
| TemplateFormat.TemplateBack | code/client/skill.c:600-668 | every valid template is read back from every admissible form, omitted trailing skills as zero, whatever stood in the buffer |
| TemplateLayout.FieldsAt | code/client/skill.c:600-668 | the place and width of every field of a template in its bits, in numbers |
| TemplateLayout.TemplateNumbers | code/client/skill.c:577-662 | the bounds of a valid template, in numbers |
| TemplateLayout.Alphabet | code/client/skill.c:547-556 | the alphabet: capital letters, small letters, digits, plus and slash |
| TemplateLayout.TextBit | code/client/skill.c:558-565 | bit j of character i of the text is bit j of its value |
| TemplateFormat.OnlyTemplates | code/client/skill.c:600-668 | whatever is read of a buffer full of bits is a valid template, and the bits start with an admissible form of it |
| TemplateMemory.ValueBits | code/client/skill.c:567-574 | or-ing shifted chars gives the number of the bits when they are bits |
| TemplateMemory.ValueNegative | code/client/skill.c:567-574 | a negative char behind the bits makes the number negative |
| TemplateSettled.SettledReads | code/client/skill.c:600-668 | a settled text is decoded as its bits say, whatever signed chars lie behind them |
| TemplateUnsettled.UnsettledBreaks | code/client/skill.c:586-668 | behind a text that is not settled there are chars with which a template with a negative attribute id or value comes out |
| TemplateUnsettled.SettledExactly | code/client/skill.c:586-668 | a text is refused or gives a valid template for all contents of the buffer if and only if it is settled |
| TemplateDecoding.AbeaBreaks | code/client/skill.c:567-636 | the text "ABEA" is not settled: with chars of -1 behind it the attribute -4 is returned |
| TemplateDecoding.TemplateDecode | code/client/skill.c:576-668 | the result is that of reading the uncleared buffer; every text of a valid template decodes to it, a settled text to a valid template or none, and a text with a character outside the alphabet to none |
| TemplateDecoding.TextDecodes | code/client/skill.c:547-668 | the text of any valid template, in the alphabet of section 4 of RFC 4648, decodes to the template whatever the buffer holds behind it |

## Left out

- Timers.TimerQueue.Process: a handler disarms a timer only after testing its `timer_set`, as the action `DisarmIfSet` does; `code/common/timer.c:46-50` does not test it, and disarming a timer that is not armed runs the deletion on a node outside the tree.
- Timers.TimerQueue.Add: the clock is read once per call; `time_get_ms` and the struct that surrounds the node are parameters.
- RbTrees.RbTree.Delete: the branch for a substitute with a left child (`code/common/rbtree.c:208-209`) cannot be taken and is not modelled.
- Inflating.DecompressFile: says nothing once a code in the stream is incomplete or over-subscribed, or a distance symbol is 32 or more and the source reads outside its table; the input is given as 32-bit words, at least two of them; freeing of memory and the `int` sizes are not modelled.
- Inflating.DecodeBlock: promises nothing either once a code of the block is incomplete or a distance symbol is 32 or more.
- HuffmanTables.HuffmanData.BuildTables: the assert at `docs/compress.c:329` on alignment and the unreachable `return false` at `docs/compress.c:383` are not modelled.
- The Python twin `tools/inflate.py`: it tests another variable at its line 170 than `docs/compress.c:277`; the C file is followed.
- Codec.Pack: a nested struct holds fields of fixed size only, and texts have room for at least one unit; `int` and `size_t` are unbounded, which the buffer sizes of at most 5840 bytes allow.
- Codec.PackField: when a count is too large for its field and the buffer is too small as well, which of the two failures is reported is left open.
- Unpacking.Unpack: the same restriction; with counted fields inside a nested struct the source advances by wire bytes in memory. Reading counts byte by byte models little-endian machines only.
- Connections.Connection.Recv: nothing is said of what follows an overrun of the packet buffer, or a message whose format is outside the model, as the game server's 401 and 412 are (a text inside a nested struct). The other rows of that table are not written out. Also, handlers do not close the connection (closing frees the receive buffer), errors of `recv` and the mutex are not modelled, and `secured` is given.
- `NetConn_Send` and `SendPacket`: after a partial send the buffer is encrypted again (`code/client/network.c:730-742`), so no stream property holds there.
- The key exchange, sockets, name resolution, threads, files and logging.
- The login and zone-transfer state machines: their asserts depend on what the server does.
- Events.EventManager.Broadcast: callbacks act through the two API functions; what the loop does after it has called a removed entry depends on the build (`code/client/event.c:22-34`) and is not modelled.
- Events.EventManager.RemEntry: the links of a removed node are cleared as in a debug build; no other contract depends on it.
- VarTables.VarSection.FindVar: termination of the probing loops is not established by the code, so each takes a number of steps and says when it ends within them; names are ASCII, and the parsing that makes them lower-case is not modelled. `find_section` is the same search over section names.
- VarTables.VarSection.CreateTable: an empty section, for which the source would divide by zero on lookup, is excluded.
- BagTables.BagTable.FindBag: bag ids are distinct and positive; what is kept of a bag beside its id is not modelled.
- Hashing.HashStrI: `unsigned long` is reduced to the 32 bits that are used of it.
- TemplateDecoding.TemplateDecode: characters above 127 index outside the table and are excluded; memory exhaustion is not modelled. Chars are signed; a field of more than 24 chars (a shift that may leave the range of `int`), a read behind the buffer and an array of negative size are one outcome, `Undefined`; comparing the cursor with the end is comparing positions.
- Packet handlers, float movement, plugins, command line, `array.c`, `prf.c`, uuid and string helpers: they would add only easy members.
