# Verification of PerfectLib's HPACK, multipart, JSON, routing, HTTP, WebSocket and cache code

This project models seven parts of PerfectLib and proves what they promise, or exactly when
they keep the promise.

* **HPACK** (RFC 7541): the encoder, the resumable decoder, and everything under them. The
  encoder keeps its dynamic table as 17 chains of entries threaded through a circular doubly
  linked list; the decoder keeps its own as a ring buffer. Both are classes here, proved
  against one first-in, first-out list. The Huffman coder packs bits into a machine word and
  the Huffman decoder walks a 256-way tree built in place. `HpackEncoder` and `HpackDecoder`
  hold the two objects; `HpackFormat` and `HpackDecode` are the specifications they are
  proved equal to; `LockStep`, `LockStepExact`, `LockStepRuns`, `HpackStream`, `HpackBound`, `HpackOver` and `TableSize`
  are what is proved about whole runs; `HpackWire`, `HuffmanBits` and `HuffmanOrder` say by number what the bytes mean.
* **Multipart forms** (RFC 2046, section 5.1.1): `MimeReader` reads a form from fragments
  of any size. `MimeForm` is the specification, `MimeReader` the class, `MimeLetters` says what
  is taken for a key, `MimeRoundTrip` and `MimeExact` what feeding it a form gives.
* **JSON**: two decoders, one recursive and one with a stack of half-built containers, and
  their encoders. `JsonText` says how values are written and how scalars are read,
  `JsonReading` and `JsonMachine` what the two decoders do with any text and that they agree,
  `JsonLax` exactly what the second takes in addition, `JsonReuse` what one decoder makes of many texts,
  `JsonSpelling` and `JsonGrammar` what both make of any text anyone may write,
  `JsonCharacters`, `JsonDecoders` and `JsonEncoders` hold the loops over characters.
* **HTTP request heads**: lines found in a buffer that grows with every read. `HeaderScan` is
  the specification and what is proved about it, `HttpConnection` the object.
* **Routing**: a tree of mutable nodes searched with backtracking. `RouteList` says what is
  looked for in the list of registered routes, `Routing` holds the nodes and the map.
* **WebSocket framing** (RFC 6455, sections 5.2 to 5.5): `WebSocketFrame` is about single frames,
  `WebSocketPeer` about what is answered and handed on, `WebSocketWire` gives the bytes by number,
  `WebSocketHandler` is the object.
* **RWLockCache**: every interleaving of its calls, as blocks on a queue with barriers.

## Where the code departs from what it is for

Each of these is a lemma here, with the exact condition where there is one.

* The Huffman decoder stores a symbol's whole code length in its terminal nodes instead of
  what is left of it on the last level (`PerfectLib/HPACK.swift:737`). It decodes an encoding
  correctly if and only if every symbol's code has at most eight bits
  (`HuffmanDecode.RoundTrip`); with the code of RFC 7541, that is, for texts of spaces, letters,
  digits and `% & * , - . / : ; = _` (`HuffmanRfc.RfcRoundTrip`).
* A literal that follows an indexed name is charged for the length of the last name that was
  spelled out, which may belong to an earlier header (`PerfectLib/HPACK.swift:1403` and `1436`).
  `LockStepExact.HeaderExact` has the exact condition for one header to come through,
  `LockStepRuns.RunExactly` for whole runs, and `LockStepRuns.LeftoverRefuses` is a run of two
  headers, each in a block of its own, of which the second is refused.
* The encoder treats an entry whose index field is -1, which happens after 2^31 insertions,
  as missing (`PerfectLib/HPACK.swift:926-931`), and sends the index of the last static entry
  but one. Names that are not UTF-8 are looked up by their readable beginning (`HPACK.swift:258-264`).
  Both are clauses of `LockStep.HeaderOk`.
* Without incremental indexing the encoder still adds the field to its own table
  (`PerfectLib/HPACK.swift:841-843`). `LockStepExact.WithoutIndexingExact` says when that shows,
  and `LockStepExact.WithoutIndexingFails` what a peer sees: the second time the header is sent
  as an index that the decoder refuses.
* A sensitive header past the limit and larger than the decoder's table empties that table
  (`PerfectLib/HPACK.swift:1410-1416`), although it is never kept and the encoder's table is left
  alone: `HpackOver.PlainLiteralOver` and `HpackOver.SensitiveOverExactly`.
* Changing the capacity of a ring whose entries wrap traps (`PerfectLib/HPACK.swift:107-113`):
  `TableSize.ResizeKeeps` and `TableSize.SizeUpdateExact` say for which rings it does not. A
  ring filled with empty fields reads as empty: `DynamicTable.FullExactly`. The decoder accepts
  a size update of any size, also above the limit it was given (`TableSize.ReadSize`).
* `MimeReader` counts its boundary in characters and compares it in bytes. A new reader is
  indifferent to how its input is cut if and only if the two are equal: `MimeExact.SplitExactly`,
  with an upload cut inside its last boundary for the other half. It looks
  for `filename=` inside a field's name as well, and ends a quoted name at a semicolon:
  `MimeLayout.DispositionExact`.
* A control frame sent between the fragments of a message is labelled a continuation, and
  the next fragment is not: `WebSocketFrame.FragmentsExact`.
* A line feed that a read begins with is skipped, also where it begins a line of its own. All
  divisions of a head agree if and only if skipping it makes no difference wherever a line that
  is reached begins with one: `HeaderScan.SplitExactly`, and `HeaderScan.ReadsExactly` for the
  reads of a program; `HeaderScan.LineFeedSplits` is a head refused in one read and accepted in
  two. Nothing that one read accepts depends on the division:
  `HeaderScan.AcceptedHoweverCut`. A continuation line traps: its
  bytes are looked for from index 0, which the slice does not have
  (`PerfectLib/HTTPServer.swift:619-620`): `HeaderScan.ContinuationExact`.
* A number or a word at the very end of a text is refused by both JSON decoders, and a
  dictionary that names a registered class comes back as an object of it:
  `JsonReading.RoundTripExact`. The decoder with a stack does without commas and colons and
  does not tell the two closing brackets apart (`JsonMachine.TakesMore`). What it takes is, for
  every text, what a reader without a stack takes that passes them over:
  `JsonLax.MachineIsLax`. It answers a text of white space and other characters that are passed
  over, and no other, with what it decoded last (`JsonLax.StaleResult`).
* The decoder with a stack does not clear it in front of a text (`PerfectLib/JSON.swift:292-304`).
  What a refused text left open waits for the next: `JsonReuse.BrokenTextStays`. When a decoder
  that has been used is as good as new, and when it decodes back what is encoded:
  `JsonReuse.ReusedExactly`; which texts leave something open: `JsonReuse.OpenExactly`.
* With both a generator and a validator, `valueForKey` returns a value its validator has not
  approved if and only if its first look found nothing: `RWLockCache.UnapprovedExactly`.

## Conventions

Bytes are integers below 256. Masks and shifts are written as remainders, products and
quotients by powers of two, and the word they are done in is kept: the Huffman accumulators
are 64-bit words that drop what is shifted out, as Swift's `Int` does. Exceptions are
outcomes; `Crashed`, `Crash`, `Fault`, `Trap` and `Trapped` stand for a runtime trap, under one
name in each type, since types that are used together must not share it. A listener records what it is
told; writing to a file is appending to a sequence. A method of a class is proved equal to a
function of the state before, and the lemmas are about those functions.

A JSON dictionary is given with the order it is walked in. The two decoders' own copies of the
methods that read strings, numbers and words are one class here, and the two encoders one set
of methods with a flag, for they differ only in whether they take objects.

The Huffman table, the static table and the hash are parameters. `HuffmanCode.Good` asks of
the first that no code is a prefix of another, that every bit string is decided and that the
end-of-string code is all ones. `HuffmanData` holds the 257 codes of the program and
`HuffmanRfc.RfcIsGood` proves that they are such a table. The hash is any function to the
naturals.

## Model

| member | source | states |
|---|---|---|
| PrefixInteger.EncodeInteger | PerfectLib/HPACK.swift:1005-1022 | appends exactly the prefix byte and the groups of seven bits of section 5.1 |
| PrefixInteger.DecodeULE128 | PerfectLib/HPACK.swift:1213-1234 | the value and the position behind it; -1 with the position restored when bytes are missing; an exception with the position restored past 2^31 |
| PrefixInteger.GroupsRoundTrip | PerfectLib/HPACK.swift:1005-1022 | reading undoes writing, between any bytes, exactly for values below 2^31; the rest are refused |
| PrefixInteger.PrefixIsIncomplete | PerfectLib/HPACK.swift:1213-1234 | no strict prefix of an integer is taken for one |
| PrefixInteger.ULEBound | PerfectLib/HPACK.swift:1213-1234 | whatever the input, what is read is below the Int32 limit |
| PrefixInteger.ULEStable | PerfectLib/HPACK.swift:1213-1234 | more input does not change a verdict once given |
| PrefixInteger.PrefixByte | PerfectLib/HPACK.swift:1005-1022 | flag bits and prefix come apart again, for every valid mask and width |
| HpackWire.ContinuationExactly | PerfectLib/HPACK.swift:1213-1234 | what is read of up to five bytes is their low seven bits, added up with the first byte's the lowest |
| HpackWire.ExamplesOfIntegers | PerfectLib/HPACK.swift:1005-1022 | 10, 1337 and 42 are written as section C.1 has them |
| HuffmanCode.HuffmanEncoder.Encode | PerfectLib/HPACK.swift:604-629 | the bit accumulator writes the bytes whose bits are the codes followed by ones up to a whole byte |
| HuffmanCode.HuffmanEncoder.GetEncodedLength | PerfectLib/HPACK.swift:631-637 | the length of that encoding, computed without encoding |
| HuffmanCode.EncodingIsUnique | PerfectLib/HPACK.swift:604-629 | only one byte string is the encoding of a text |
| HuffmanCode.EncodedLengthIsLength | PerfectLib/HPACK.swift:631-637 | the announced length is the length of the encoding |
| HuffmanBits.EncodingBits | PerfectLib/HPACK.swift:604-629 | bit for bit: each byte's code in its place, the highest bit first, and ones behind the last |
| HuffmanBits.PaddingExactly | PerfectLib/HPACK.swift:698-713 | behind codes of at most eight bits, fewer than eight bits that begin with no code are padding if they are all ones, and an exception if not |
| HuffmanTree.BuildTree | PerfectLib/HPACK.swift:718-744 | every slot of the finished tree holds the node its path asks for, and for a complete code no slot of it is empty |
| HuffmanTree.Insert | PerfectLib/HPACK.swift:726-744 | one symbol more: no terminal is entered and no other symbol's slot overwritten |
| HuffmanTree.HuffmanDecoder.Step | PerfectLib/HPACK.swift:686-700 | a child lookup never fails, whatever the byte; it finds the next level or the leaf of the one matching symbol |
| HuffmanTree.HuffmanDecoder.Decode | PerfectLib/HPACK.swift:674-716 | the tree walk over a 64-bit word that drops bits is the walk over the whole bit string |
| HuffmanDecode.FindUnique | PerfectLib/HPACK.swift:718-744 | at most one symbol's code begins or contains a path |
| HuffmanDecode.EncodingDecodes | PerfectLib/HPACK.swift:604-629 | bit-by-bit prefix decoding undoes the encoding of every byte string; the padding is no symbol |
| HuffmanDecode.DecodeExactlyShort | PerfectLib/HPACK.swift:674-716 | on every buffer that section 5.2 decodes to s, the decoder as written gives s if and only if all codes in s fit in a byte |
| HuffmanDecode.RoundTrip | PerfectLib/HPACK.swift:604-716 | decoding an encoding gives the text back if and only if all its codes fit in a byte |
| HuffmanRfc.RfcIsGood | PerfectLib/HPACK.swift:306-586 | the program's 257 codes are prefix-free, decide every bit string, and end with ones for EOS |
| HuffmanRfc.RfcRoundTrip | PerfectLib/HPACK.swift:588-745 | with those codes a text comes back if and only if it keeps to the space, letters, digits and eleven marks |
| HuffmanOrder.CodesInOrder | PerfectLib/HPACK.swift:306-600 | in the program's table, of two symbols with codes of one length the smaller has the smaller code |
| HuffmanOrder.ShorterFirst | PerfectLib/HPACK.swift:306-600 | and a shorter code, filled up with zeros, is a smaller number than a longer one |
| HuffmanKraft.KraftIsComplete | PerfectLib/HPACK.swift:718-744 | a prefix-free table with Kraft sum 1 decides every bit string |
| HeaderTable.EvictFits | PerfectLib/HPACK.swift:91-96 | eviction leaves the newest entries, and they fit |
| HeaderTable.EvictIsMinimal | PerfectLib/HPACK.swift:156-171 | one entry more would not have fitted |
| HeaderTable.EvictTwice | PerfectLib/HPACK.swift:835-843 | making room and then adding evicts no more than adding |
| HpackWire.EvictExactly | PerfectLib/HPACK.swift:107-117 | what is left is the longest run of newest entries whose octets, 32 more for each than in its strings, fit |
| DynamicTable.DynamicTable.Add | PerfectLib/HPACK.swift:156-171 | the ring after an insertion holds exactly the entries of section 4.4, and where |
| DynamicTable.DynamicTable.GetEntry | PerfectLib/HPACK.swift:148-154 | the k-th newest entry |
| DynamicTable.DynamicTable.Remove | PerfectLib/HPACK.swift:135-146 | the oldest entry is returned and gone |
| DynamicTable.DynamicTable.Clear | PerfectLib/HPACK.swift:122-133 | nothing is left |
| DynamicTable.DynamicTable.SetCapacity | PerfectLib/HPACK.swift:57-120 | whether a new capacity keeps the entries, traps or loses them, and the table when it keeps them |
| DynamicTable.FullExactly | PerfectLib/HPACK.swift:66-72 | a ring is full, and so reads as empty, exactly when empty fields use up its capacity |
| DynamicTable.ResizeIsValid | PerfectLib/HPACK.swift:81-120 | a kept table is a valid one again |
| TableSize.ResizeKeeps | PerfectLib/HPACK.swift:81-120 | with named entries, a resize keeps them if and only if the slots stay, nothing is left, or what is left does not wrap; it never loses them |
| TableSize.UnwrappedResizes | PerfectLib/HPACK.swift:81-120 | a ring that does not wrap survives every capacity |
| TableSize.WrappedResizeTraps | PerfectLib/HPACK.swift:107-113 | six insertions into a new ring after which it traps on growing |
| TableSize.ReadSize | PerfectLib/HPACK.swift:1145-1149 | an update of any size, whatever the decoder's limit, is read whole and resizes the ring, or the run is over if the ring does not survive it, by a trap or with its entries lost |
| TableSize.SizeUpdateExact | PerfectLib/HPACK.swift:1058-1065 | a size update leaves both ends equal if and only if the ring survives it |
| TableSize.RefusedExactly | PerfectLib/HPACK.swift:1240-1246 | while a smaller table is asked for, input is refused, with nothing delivered, exactly when its first byte is no size update |
| TableSize.Negotiated | PerfectLib/HPACK.swift:1126-1132 | both ends told of the smaller table are in step again after the encoder's update, if the ring survives |
| HpackDecoder.HPACKDecoder.SetMaxHeaderTableSize | PerfectLib/HPACK.swift:1126-1132 | the limit, the flag and the resized table, or the trap |
| EncoderTable.EncoderTable.Add | PerfectLib/HPACK.swift:904-924 | chains and list stay consistent; the table as a list makes section 4.4's move |
| EncoderTable.EncoderTable.Remove | PerfectLib/HPACK.swift:875-902 | the oldest entry leaves its chain and the list, and nothing else changes |
| EncoderTable.EncoderTable.EnsureCapacity | PerfectLib/HPACK.swift:985-992 | evicts the oldest until there is room, and no more |
| EncoderTable.EncoderTable.Clear | PerfectLib/HPACK.swift:866-873 | empty chains and an empty list |
| EncoderTable.EncoderTable.GetIndex | PerfectLib/HPACK.swift:933-948 | for any hash, the place a newest-first linear search finds, with the -1 sentinel |
| EncoderTable.EncoderTable.GetEntry | PerfectLib/HPACK.swift:956-973 | for any hash, the entry a newest-first linear search finds; none for an empty name or value |
| EncoderTable.EncoderTable.IndexFieldOf | PerfectLib/HPACK.swift:768-795 | index fields are consecutive in order of insertion |
| EncoderTable.PushChains | PerfectLib/HPACK.swift:914-922 | a new entry in front of its chain keeps all chains right |
| EncoderTable.PopChains | PerfectLib/HPACK.swift:875-902 | taking the oldest entry off its chain keeps all chains right |
| StaticTable.StaticTable.GetFieldIndex | PerfectLib/HPACK.swift:266-281 | the first entry with this name and value in the run its name leads to |
| StaticTable.FieldIndexComplete | PerfectLib/HPACK.swift:258-281 | a field whose name is text is found if and only if it is in the table |
| HpackEncoder.HPACKEncoder.EncodeHeader | PerfectLib/HPACK.swift:811-846 | the bytes and the table of the representation the branches choose, through chains, dictionary and bit packing |
| HpackWire.FirstByteExactly | PerfectLib/HPACK.swift:807-850 | the first byte is 16 to 31 for a sensitive header, 128 or more for one in the tables, 64 to 127 for one that both ends are to keep, and below 16 for the rest; the table takes a header exactly when it is not sensitive, not known, and fits |
| HpackEncoder.HPACKEncoder.EncodeLiteral | PerfectLib/HPACK.swift:1035-1056 | a literal of section 6.2 in each of its three forms |
| HpackEncoder.HPACKEncoder.EncodeStringLiteral | PerfectLib/HPACK.swift:1024-1033 | Huffman coding when, and only when, it is shorter |
| HpackEncoder.HPACKEncoder.GetNameIndex | PerfectLib/HPACK.swift:994-1003 | the static table first, then the dynamic one behind it |
| HpackEncoder.HPACKEncoder.SetMaxHeaderTableSize | PerfectLib/HPACK.swift:1058-1065 | the update's bytes and what is left of the table |
| HpackDecode.Decode | PerfectLib/HPACK.swift:1237-1470 | every call ends, and unless the program traps or the ring loses its entries, also after an exception, with a position in range and a decoder ready for the next |
| HpackDecode.Turn | PerfectLib/HPACK.swift:1237-1470 | each turn of the loop consumes a byte or leaves a pending state |
| HpackDecoder.HPACKDecoder.Decode | PerfectLib/HPACK.swift:1237-1470 | the loop over the twelve states, on the ring, the tree and the buffer, gives the specification's headers, position, state and exception |
| HpackDecoder.HPACKDecoder.Switch | PerfectLib/HPACK.swift:1239-1468 | one turn of it |
| HpackDecoder.HPACKDecoder.ReadStringLiteral | PerfectLib/HPACK.swift:1201-1211 | the raw or Huffman-decoded bytes, or the coder's exception |
| HpackDecoder.HPACKDecoder.InsertHeader | PerfectLib/HPACK.swift:1183-1191 | delivery within the limit, and the table's move |
| HpackDecoder.HPACKDecoder.SetDynamicTableSize | PerfectLib/HPACK.swift:1145-1149 | the resized table, or the trap |
| HpackDecoder.HPACKDecoder.EndHeaderBlock | PerfectLib/HPACK.swift:1114-1124 | whether the block was cut, and a decoder ready for the next, wherever it stood |
| HpackWire.IndexExactly | PerfectLib/HPACK.swift:1162-1172 | an index is refused, with nothing delivered and the table unchanged, if and only if it is beyond the static table followed by the dynamic one from its newest entry; otherwise the field in its place is meant |
| HpackWire.NameIndexExactly | PerfectLib/HPACK.swift:1151-1160 | the same for the name of a literal in its three forms |
| HpackWire.PlainLiteral | PerfectLib/HPACK.swift:1237-1470 | a literal given byte by byte, 64, 0 or 16 and two strings behind their lengths, is delivered, and kept if and only if it begins with 64 |
| HpackOver.PlainLiteralOver | PerfectLib/HPACK.swift:1330-1470 | the same past the limit: nothing is delivered, and the table is as it would have been, except that a literal that begins with 16 and is larger than the table empties it |
| HpackOver.SensitiveOverExactly | PerfectLib/HPACK.swift:1410-1416 | past the limit a sensitive header leaves the tables equal if and only if it is no larger than the table, or that was empty |
| HpackStream.DecodeInTwo | PerfectLib/HPACK.swift:1201-1470 | a call on some input and one on more is one call on all of it: same headers, position and exception |
| HpackStream.SplitIndependence | PerfectLib/HPACK.swift:1201-1470 | the same for every division of every byte stream |
| HpackBound.DecodeCounts | PerfectLib/HPACK.swift:1173-1199 | for every input the delivered bytes never pass the limit, the account is their total or one past the limit, and after that nothing more is delivered |
| LockStep.HeaderStep | PerfectLib/HPACK.swift:811-846 | the decoder reads back one encoded header from any two equal tables and stops where the next begins |
| LockStep.StaysInStep | PerfectLib/HPACK.swift:904-924 | the two tables make the same move |
| LockStep.RunInStep | PerfectLib/HPACK.swift:811-846 | for every run of headers exactly these are delivered, in order, and the tables are equal after it |
| LockStep.HpackRoundTrip | PerfectLib/HPACK.swift:1237-1470 | the same from two new objects and for every way of cutting the bytes into pieces |
| LockStep.BlocksRoundTrip | PerfectLib/HPACK.swift:1114-1124 | any number of header blocks, each with its own limit, over tables that go on |
| LockStepExact.HeaderExact | PerfectLib/HPACK.swift:811-846 | one header is delivered as it was given if and only if a condition on it and the room left holds |
| LockStepExact.WithoutIndexingExact | PerfectLib/HPACK.swift:841-843 | without incremental indexing the tables stay equal if and only if nothing was added, or it was added to a table full of copies of it; for a header with a value, if and only if nothing was added |
| LockStepExact.CopiesHaveNoValue | PerfectLib/HPACK.swift:807-850 | such a table is one of headers without a value, which the encoder does not find again |
| LockStepExact.SameTableExactly | PerfectLib/HPACK.swift:904-924 | an insertion leaves a table as it is if and only if that is full and holds nothing else |
| LockStepExact.WithoutIndexingFails | PerfectLib/HPACK.swift:841-843 | from two new objects: a header sent twice without indexing is delivered once and then refused as an illegal index |
| LockStepRuns.RunExactly | PerfectLib/HPACK.swift:807-850 | for every run of headers with and without indexing, sensitive or not, ends of blocks and size updates: each header is delivered and the tables stay equal if and only if each operation meets a condition on the encoder, the peer's ring and two counts, without looking at a byte |
| LockStepRuns.LeftoverRefuses | PerfectLib/HPACK.swift:1395-1440 | from two new objects: a header within the limit is refused for the length of a name in an ended block, and taken by a decoder that has not seen it |
| MimeForm.RunInTwo | PerfectLib/MimeReader.swift:202-426 | two calls on the halves of an input are one call on it: parts, state, pending bytes |
| MimeForm.SplitIndependence | PerfectLib/MimeReader.swift:415-426 | the same for every division of every input |
| MimeExact.SplitExactly | PerfectLib/MimeReader.swift:309-318 | a new reader gives the same for every division of every input if and only if its boundary has as many bytes as characters |
| MimeLayout.RunBody | PerfectLib/MimeReader.swift:290-325 | a body is what precedes the first line end followed by the boundary, whatever looks like one before |
| MimeLayout.DispositionExact | PerfectLib/MimeReader.swift:156-200 | the Content-Disposition line, its keys in any letter case, gives back both names if and only if neither has a quote or semicolon and none is hidden in the other |
| MimeLayout.TypeRead | PerfectLib/MimeReader.swift:262-270 | the Content-Type line, in any letter case, gives back the type and is not taken for a Content-Disposition |
| MimeRoundTrip.RunItem | PerfectLib/MimeReader.swift:202-411 | from one boundary to the next, the entry is the next part |
| MimeRoundTrip.MultipartRoundTrip | PerfectLib/MimeReader.swift:202-426 | feeding a serialised form, each item's keys in a letter case of its own and however cut, gives exactly its parts and ends in StateDone |
| MimeExact.MultipartExact | PerfectLib/MimeReader.swift:290-411 | with headers in order, the parts come back if and only if no body contains its own end and every field's value is UTF-8 text |
| MimeExact.RunKeeps | PerfectLib/MimeReader.swift:202-411 | whatever follows, finished parts stay as they are and a file only grows |
| MimeReader.MimeReader.AddToBuffer | PerfectLib/MimeReader.swift:415-426 | one call's parts, state and kept bytes are the specification's, or a trap there too |
| MimeReader.MimeReader.InternalAddToBuffer | PerfectLib/MimeReader.swift:202-411 | the position-driven loop over body specs changed in place |
| MimeReader.MimeReader.ReadHeader | PerfectLib/MimeReader.swift:238-288 | header lines one by one, and the blank line that opens a value or a file |
| MimeReader.MimeReader.ReadFile | PerfectLib/MimeReader.swift:327-402 | writing in batches is writing byte by byte |
| MimeReader.MimeReader.ReadFieldValue | PerfectLib/MimeReader.swift:290-325 | gathers the value up to its end, or keeps what cannot be decided |
| MimeReader.IsBoundaryStart | PerfectLib/MimeReader.swift:140-154 | true exactly when the boundary stands there in full |
| MimeReader.IsField | PerfectLib/MimeReader.swift:156-177 | the colon's position when what precedes it begins the name |
| MimeReader.RangeOf | PerfectLib/Utilities.swift:416-438 | the first place a key stands, letter case aside |
| MimeReader.Pull | PerfectLib/MimeReader.swift:179-200 | the parameter's value up to a quote or semicolon; a trap when nothing follows the key |
| MimeLetters.AtExactly | PerfectLib/MimeReader.swift:416-438 | a key stands where its letters stand, each by its number or by that of its other case |
| MimeLetters.FindColonExactly | PerfectLib/MimeReader.swift:159-177 | a field is recognised exactly by a beginning of its name, in either case, up to the line's first colon |
| MimeLetters.KeysByNumber | PerfectLib/MimeReader.swift:42-43 | the keys, by the numbers of their letters |
| MimeLetters.OtherLineIsPassed | PerfectLib/MimeReader.swift:256-278 | a line of any other field says nothing of the part |
| MimeLetters.BareFieldTraps | PerfectLib/MimeReader.swift:256-278 | a line that ends with its colon traps |
| MimeLetters.QuotedIsPulled | PerfectLib/MimeReader.swift:179-200 | behind the first place of a key, a value in quotes is what stands up to a quote or semicolon |
| MimeLetters.BareIsPulled | PerfectLib/MimeReader.swift:179-200 | and so is a value without quotes |
| MimeLetters.NothingPulledTraps | PerfectLib/MimeReader.swift:179-200 | a key at the very end of a line traps |
| JsonText.StringReadsBack | PerfectLib/JSON.swift:165-189 | every string, whatever characters it holds, is read back from its escaped form, and nothing behind it |
| JsonText.NumberReadsBack | PerfectLib/JSON.swift:461-507 | every 64-bit integer is read back in front of whatever may follow one, and refused at the end of a text |
| JsonText.AnyEnd | PerfectLib/JSON.swift:461-507 | how a number is read does not depend on which character ends it |
| JsonSpelling.SpelledIsRead | PerfectLib/JSON.swift:408-459 | a string is read for what its text spells, in every spelling: a character, a backslash with b, t, n, f or r for 8, 9, 10, 12 or 13, with u and four digits for that number, or with any other character for that character |
| JsonSpelling.ReadWasSpelled | PerfectLib/JSON.swift:408-459 | whatever string is read was spelled so |
| JsonSpelling.SurrogateTraps | PerfectLib/JSON.swift:435-443 | the number of a surrogate traps |
| JsonSpelling.EncoderSpells | PerfectLib/JSON.swift:165-189 | the encoder writes a backslash in front of quote, backslash and the five named controls and of nothing else |
| JsonSpelling.WholeIsRead | PerfectLib/JSON.swift:461-507 | digits with a sign or none are read for what they are worth to the base ten, and trap if no Int holds that |
| JsonSpelling.FractionIsRead | PerfectLib/JSON.swift:461-507 | with a fraction or an exponent, what the runtime makes of exactly this text |
| JsonSpelling.WordIsRead | PerfectLib/JSON.swift:509-573 | true, false and null, each letter in either case |
| JsonReading.ReadsBack | PerfectLib/JSONConvertible.swift:288-378 | every encoded value, nested as it may be, is read as that value in front of any text, and exactly its own text is consumed |
| JsonReading.RevivedExactly | PerfectLib/JSONConvertible.swift:355-360 | what decoding makes of a value is the value if and only if every dictionary names a registered class exactly when it is an object of it |
| JsonReading.RoundTripExact | PerfectLib/JSONConvertible.swift:257-267 | decoding undoes encoding if and only if the value is no bare number or word and stands for itself |
| JsonGrammar.GrammarIsRead | PerfectLib/JSONConvertible.swift:288-378 | every text of the grammar, with any spelling of the scalars and any blanks, tabs and line ends between the tokens, is read as what it means, and nothing behind it is |
| JsonGrammar.DocumentIsRead | PerfectLib/JSON.swift:292-346 | both decoders give its meaning |
| JsonGrammar.ObjectMeans | PerfectLib/JSONConvertible.swift:340-360 | of a key given more than once the last value counts |
| JsonGrammar.MadeExactly | PerfectLib/JSONConvertible.swift:355-360 | a dictionary becomes an object if and only if it names a registered class under _jsonobjid |
| JsonMachine.Agrees | PerfectLib/JSON.swift:306-405 | at any place of any text and with anything open, where the recursive decoder reads a value the machine reads it too and puts it where it belongs |
| JsonMachine.Agreement | PerfectLib/JSON.swift:292-304 | every text the recursive decoder takes whole is taken by the other as the same value; where the recursive decoder traps, the other traps |
| JsonMachine.MachineReads | PerfectLib/JSON.swift:306-405 | an encoded value moves the machine as the value itself would, inside any stack of containers and waiting keys |
| JsonMachine.MachineRoundTrip | PerfectLib/JSON.swift:292-304 | from an empty stack, decoding an encoded array or dictionary gives it back, with an empty stack |
| JsonMachine.TakesMore | PerfectLib/JSON.swift:306-346 | texts the machine takes and the recursive decoder refuses |
| JsonLax.MachineIsLax | PerfectLib/JSON.swift:306-405 | for every text and every last result, from an empty stack, the machine answers as a recursive reader without a stack that passes over separators and unknown characters |
| JsonLax.EntryMeans | PerfectLib/JSON.swift:355-388 | between a key and its value the machine takes any colons and nothing else that has a meaning |
| JsonLax.StaleResult | PerfectLib/JSON.swift:292-304 | a text gives back the last result, whatever that is, if and only if it has only characters that are passed over; no other text depends on the last result |
| JsonReuse.ReusedExactly | PerfectLib/JSON.swift:275-304 | after any texts, a decoder answers every text as a new one if and only if nothing is open in it, or its last open dictionary is about to be closed by a bracket that was pushed back and closes to the last result; it decodes back whatever is encoded if and only if nothing is open, or the last dictionary is about to be closed |
| JsonReuse.OpenExactly | PerfectLib/JSON.swift:292-304 | from an empty stack, a text that does not trap leaves something open if and only if it comes to a bracket that begins no value |
| JsonReuse.BrokenTextStays | PerfectLib/JSON.swift:292-304 | a refused text behind which the encoding of an empty array is refused |
| JsonReuse.ClosesToTheSame | PerfectLib/JSON.swift:576-583 | two texts behind which a decoder with a dictionary open is as new all the same |
| JsonCharacters.Characters.PushBack | PerfectLib/JSON.swift:576-583 | the slot is never written while it is full |
| JsonCharacters.Characters.ReadString | PerfectLib/JSON.swift:408-459 | the loop over characters and escapes reads what the specification reads |
| JsonCharacters.Characters.ReadNumber | PerfectLib/JSON.swift:461-507 | the number, the trap or the exception, with the character behind it pushed back |
| JsonDecoders.JSONDecodeState.ReadObject | PerfectLib/JSONConvertible.swift:288-378 | the recursive decoder over the pushed-back character gives the specification's value and leaves its text |
| JsonDecoders.JsonDecode | PerfectLib/JSONConvertible.swift:256-268 | the value at the start of a text, or the exception or trap |
| JsonDecoders.JSONDecoder.HandlePop | PerfectLib/JSON.swift:355-396 | a finished value goes into the array on top, becomes a key, or ends a pair and goes into the dictionary under it |
| JsonDecoders.JSONDecoder.ReadObjects | PerfectLib/JSON.swift:306-346 | the loop over a text leaves the stack, the result or the exception of the specification |
| JsonDecoders.JSONDecoder.Decode | PerfectLib/JSON.swift:292-304 | the answer, and the stack, the last result and the pushed-back character it leaves, from whatever an earlier call left |
| JsonEncoders.EncodeString | PerfectLib/JSON.swift:165-189 | the escaped string in quotes |
| JsonEncoders.EncodeArray | PerfectLib/JSON.swift:96-110 | the encoding, or an exception exactly when an object is in the way |
| JsonEncoders.EncodeDictionary | PerfectLib/JSON.swift:119-135 | the same for the entries in the order they are walked |
| HeaderScan.ScanInTwo | PerfectLib/HTTPServer.swift:629-687 | a scan taken up again with more behind what it left is one scan of all |
| HeaderScan.SplitExactly | PerfectLib/HTTPServer.swift:629-706 | every division of a head is taken as one read is if and only if no line that is reached changes its meaning with a line feed in front |
| HeaderScan.ReadsExactly | PerfectLib/HTTPServer.swift:629-706 | the same for the reads of a program, which skip a line feed at the very start |
| HeaderScan.SplitIndependence | PerfectLib/HTTPServer.swift:629-706 | for every division of such a head, each line is taken once with the same parameters, verdict and first body byte |
| HeaderScan.TidyIsSteady | PerfectLib/HTTPServer.swift:629-635 | a head in which no line begins with a line feed is one |
| HeaderScan.AcceptedHoweverCut | PerfectLib/HTTPServer.swift:629-706 | what one read accepts is accepted alike in every division |
| HeaderScan.LineFeedSplits | PerfectLib/HTTPServer.swift:633-635 | a head that is refused in one read and accepted in two |
| HeaderScan.ContinuationExact | PerfectLib/HTTPServer.swift:612-627 | a line that begins with white space traps if and only if there is a header for it to continue, and is refused otherwise |
| HeaderScan.HeadReadInPieces | PerfectLib/HTTPServer.swift:543-706 | a request written out is read back, however cut: its line, all its headers, and the body where it begins |
| HeaderScan.RequestRead | PerfectLib/HTTPServer.swift:543-590 | the request line's parts come back under their names |
| HeaderScan.HeaderRead | PerfectLib/HTTPServer.swift:592-610 | a header's value, behind any blanks and tabs, is stored under its name's key |
| HeaderScan.NoColonIsRefused | PerfectLib/HTTPServer.swift:592-610 | a header line without a colon is refused |
| HeaderScan.LoneReturnIsRefused | PerfectLib/HTTPServer.swift:629-687 | so is a return without a line feed behind it |
| Utf8.WhiteExactly | PerfectLib/ICU.swift:27-29 | white space among the characters of one byte, by number |
| Utf8Exact.TextExactly | PerfectLib/Utilities.swift:57-75 | text is the UTF-8 of scalar values, up to the first place where none begins |
| HttpConnection.HTTPWebConnection.ScanWorkingBuffer | PerfectLib/HTTPServer.swift:629-687 | the loop over the working buffer gives the specification's lines, verdict and offset |
| HttpConnection.HTTPWebConnection.ProcessRequestLine | PerfectLib/HTTPServer.swift:543-590 | three passes over the characters are the specification's cuts |
| HttpConnection.HTTPWebConnection.ReadHeaders | PerfectLib/HTTPServer.swift:629-706 | reads until the head is done are the specification's run over these pieces |
| RouteList.Found | PerfectLib/Routing.swift:212-246 | the search finds a route exactly when one matches, and then the one that wins: variables oldest first, then literals, then wildcards, of equals the last; with this route's bindings |
| RouteList.ParseExactly | PerfectLib/Routing.swift:270-296 | a registered component is a wildcard exactly when it is a star, a variable exactly when it is a name in braces, and else itself |
| RouteList.PatternExactly | PerfectLib/Routing.swift:252-268 | a registered path is its components without the slashes, one segment each |
| Routing.WritesVariables | PerfectLib/Routing.swift:358-365 | each variable of a matching path is set to the component at its outermost place, decoded if it can be and as it is if not; nothing else is written |
| Routing.RouteNode.FindHandler | PerfectLib/Routing.swift:212-250 | the backtracking search of the tree is the search of the list; an abandoned branch writes nothing |
| Routing.RouteNode.AddPathSegments | PerfectLib/Routing.swift:252-296 | the tree after a registration stands for the list with one route more |
| Routing.RouteNode.NodeForComponent | PerfectLib/Routing.swift:270-296 | the child a component leads to, the others untouched |
| Routing.RouteNode.SuccessfulRoute | PerfectLib/Routing.swift:358-365 | a variable's component is stored, decoded when it can be |
| Routing.RouteMap.Get | PerfectLib/Routing.swift:39-53 | the routes of the method first, then those of any; the winning route's handler, with each of its variables set to the component at the variable's outermost place, decoded if it can be, and nothing else written |
| Routing.RouteMap.SetForMethod | PerfectLib/Routing.swift:81-95 | one route more for this method, the others as they were |
| Routing.RouteMap.Set | PerfectLib/Routing.swift:57-64 | one route more for all methods |
| WebSocketFrame.ClientRoundTrip | PerfectLib/WebSocketHandler.swift:78-137 | a client's masked frame is read back whole in all three length forms, for every key and whatever follows |
| WebSocketFrame.PartOfFrameWaits | PerfectLib/WebSocketHandler.swift:107-136 | no strict prefix is taken for a frame, also with part of the length there |
| WebSocketFrame.StreamDrains | PerfectLib/WebSocketHandler.swift:78-137 | from a stream of frames, looking for one again and again gives their unmasked payloads in order and keeps the part of one more |
| WebSocketFrame.StreamArrives | PerfectLib/WebSocketHandler.swift:78-155 | the same for every division of the bytes |
| WebSocketFrame.DrainSplits | PerfectLib/WebSocketHandler.swift:139-155 | for any bytes and every division of them, the frames taken as they arrive are those taken at the end, and the same is kept |
| WebSocketPeer.StreamServed | PerfectLib/WebSocketHandler.swift:157-183 | from every sequence of masked frames the ones before the first close that are no pings are handed on in order, each ping is answered with its payload, a close with a close |
| WebSocketPeer.SplitIndependence | PerfectLib/WebSocketHandler.swift:139-183 | for any bytes and every division of them, what is handed on, what is written and what is kept are the same |
| WebSocketPeer.StreamServedInPieces | PerfectLib/WebSocketHandler.swift:139-183 | the two together, from an empty buffer |
| WebSocketFrame.ServerLayout | PerfectLib/WebSocketHandler.swift:225-257 | what the server sends, once masked, is read back as that frame |
| WebSocketFrame.FragmentsExact | PerfectLib/WebSocketHandler.swift:228-230 | fragments are labelled as section 5.4 asks if and only if no control frame comes between them |
| WebSocketFrame.MaskedTwice | PerfectLib/WebSocketHandler.swift:126-128 | unmasking undoes masking |
| WebSocketWire.XorAt | PerfectLib/WebSocketHandler.swift:126-128 | masking sets a bit exactly when it is set in one of the two bytes and not in both |
| WebSocketWire.WireIsRead | PerfectLib/WebSocketHandler.swift:78-137 | a frame given by its bytes and bits, in any of the three length forms, is read as that frame whatever follows it |
| WebSocketWire.ReadWasOnWire | PerfectLib/WebSocketHandler.swift:78-137 | and whatever is read as a frame was that frame on the wire |
| WebSocketWire.HelloIsRead | PerfectLib/WebSocketHandler.swift:78-137 | the masked message of section 5.7 is read as Hello |
| WebSocketWire.HugeLengthTraps | PerfectLib/WebSocketHandler.swift:112-116 | a length no Int holds traps |
| WebSocketWire.SentIsOnWire | PerfectLib/WebSocketHandler.swift:225-257 | what is sent, by its bytes and bits: unmasked, with the shortest length form |
| WebSocketWire.UnmaskedCloses | PerfectLib/WebSocketHandler.swift:92-102 | a frame that is not masked closes an open socket, with a close frame written and nothing handed on |
| WebSocketHandler.WebSocket.FillFrame | PerfectLib/WebSocketHandler.swift:78-137 | a frame and the buffer behind it; nothing changed when it is not all there; the connection closed, with a close frame, when it is not masked |
| WebSocketHandler.WebSocket.ReadFrame | PerfectLib/WebSocketHandler.swift:157-183 | the next frame to hand on, pings answered before it, or that reading waits or is over |
| WebSocketHandler.WebSocket.Close | PerfectLib/WebSocketHandler.swift:63-70 | an open socket gets a close frame and is closed; a closed one nothing |
| WebSocketHandler.WebSocket.SendMessage | PerfectLib/WebSocketHandler.swift:225-257 | the frame written and the flag left for the next |
| ByteBuffer.Bytes.Export64Bits | PerfectLib/Bytes.swift:140-163 | the eight bytes at the position, lowest first |
| ByteBuffer.Bytes.Import64Bits | PerfectLib/Bytes.swift:70-81 | appends the eight bytes, lowest first |
| ByteBuffer.Bytes.ExportBytes | PerfectLib/Bytes.swift:166-174 | the bytes at the position, which moves past them |
| RWLockCache.RunsAreSerial | PerfectLib/RWLockCache.swift:51-86 | in every interleaving each block gets what it gets when the blocks run one at a time in the order submitted |
| RWLockCache.BarrierIsAlone | PerfectLib/RWLockCache.swift:67-75 | a running barrier has nothing beside it |
| RWLockCache.OneFillPerRemoval | PerfectLib/RWLockCache.swift:67-75 | in every run the generator's values for a key number at most one more than its removals |
| RWLockCache.RefillNeedsRemoval | PerfectLib/RWLockCache.swift:107-126 | between two generated values for a key it was removed |
| RWLockCache.RemovedOnlyWhenRejected | PerfectLib/RWLockCache.swift:76-84 | a value leaves the dictionary only when the validator was shown it inside the barrier and rejected it |
| RWLockCache.ReadsSeeWrites | PerfectLib/RWLockCache.swift:128-132 | a read submitted after an asynchronous write sees it unless something between concerns the key |
| RWLockCache.BlocksSeeLast | PerfectLib/RWLockCache.swift:51-132 | in every run each finished block finds what the last block on its key submitted before it has left: what was put, generated or kept |
| RWLockCache.CallsReturn | PerfectLib/RWLockCache.swift:48-126 | in every run, what a call returns is what one block found in the serial run, and the calling thread submitted that block, for its key, since the call was made: its first look, or the filling block if that found nothing and there is a generator, or the check if it found something and there is a validator |
| RWLockCache.CallsSeeWrites | PerfectLib/RWLockCache.swift:128-132 | in every run, a call made after an asynchronous write, with nothing on the key submitted between, looks at what was written, and returns it unless a rejecting validator leads to a check |
| RWLockCache.ApprovedByValidator | PerfectLib/RWLockCache.swift:88-105 | in every run, a call with only a validator that returned a value has since it was made asked its validator about that value and got a yes, about what it read or about what the dictionary held inside the barrier |
| RWLockCache.UnapprovedExactly | PerfectLib/RWLockCache.swift:59-86 | in every run, with a generator as well, the validator did not say yes to the returned value in that call if and only if it comes from the filling block, and that if and only if the first look found nothing |
| RWLockCache.CheckKeepsAccepted | PerfectLib/RWLockCache.swift:76-84 | a checking block ends with a value only if the validator said yes to what the dictionary holds |
| RWLockCache.MissSkipsValidator | PerfectLib/RWLockCache.swift:59-86 | such a run, in which no validator says yes to anything |
| RWLockCache.NeverStuck | PerfectLib/RWLockCache.swift:48-132 | while a block is unfinished, some block can go on |

## Left out

- The static fields of RFC 7541 (`HPACK.swift:174-238`): a parameter here, so that the results hold for every list of fields.
- HpackDecode.Decode: an outcome `Crashed` also stands for a ring that lost its entries to a resize, after which the program would go on with a wrong table.
- TableSize.ReadSize: a ring that traps and one that loses its entries end in that same outcome.
- Negative capacities, counts and sizes, which the public interface does not rule out, and index fields beyond 64 bits.
- The accessors of the two HPACK classes for tests.
- Swift strings as such: names and values are byte strings, text is what UTF-8 decoding makes of them, and the characters compared are the bytes of ASCII keys; combining characters are not part of this model.
- The hash function, replaced by any function to the naturals, and with it how evenly the chains fill and the trap on the one number that has no absolute value (`HPACK.swift:852-864`).
- MimeReader.MimeReader.ReadFile: temporary files are the bytes written to them; a failing write, which ends the reading, and the file's name are not modelled.
- MimeExact.SplitExactly: forms without a boundary parameter are not modelled.
- Routing.RouteMap.Get: the path is given as its components; splitting, lower-casing and percent-decoding are parameters, and the printing of routes is left out.
- WebSocketHandler.WebSocket.FillFrame: the socket is what was written to it and whether it is open; its callbacks and timeouts are not modelled; a host that stores the low byte first is assumed, as `htons` and `htonll` do on the supported machines.
- RWLockCache.RunsAreSerial: callbacks are answers given by the environment; a callback that calls the cache again from inside a barrier would wait for itself and is not modelled, nor are `keys`, `keysAndValues` and the plain lock blocks, which change nothing.
- JsonDecoders.JSONDecoder.HandlePop: the containers on the stack are values here; that the program's are objects, which the caller could keep and change, is not captured.
- JsonText.NumberReadsBack: floating-point numbers are whatever the runtime makes of them, and come back when it reads what it writes; digits, letters and white space are those of ASCII.
- JsonDecoders.JSONDecodeState.ReadObject: the registry is the set of names it knows; what an object does with its values, and unsigned and optional values, are not modelled.
- HttpConnection.HTTPWebConnection.ReadHeaders: reads that fail or bring nothing are single steps; reading the body and the socket are left out, and the key a header is stored under is a parameter.
- Mustache, FastCGI, HTTP/2 connection handling, and everything that is a foreign call: sockets, files, threads, databases, ICU.
