# Verification of the eclib cores

eclib is a header-only C++ library for network servers. This project models the parts of it that carry an
algorithm of their own and proves what they are for.

- **UCP** (`ec_ucpx.h`), a reliable transport over UDP. `Bytes`, `UcpFrame` and `UcpFrmPkg` hold the frame
  format and its coder, `UcpFrames` and `UcpFrameList` the sorted lists with their links, `UcpSpec` and
  `UcpSocket` one endpoint. `UcpProtocol` and `UcpConvergence` put two endpoints into a step system whose
  network may drop, duplicate, reorder and delay every frame, and prove safety, absence of loss and
  convergence over all its runs.
- **Double printing** (`dtoa_milo.h`). `DiyFp` is the 64-bit floating point, `GrisuDigits` the digit
  generation, `Grisu2` the error analysis over the reals, `GrisuPrettify` the text. Together: the text of a
  finite double reads back nearer to it than to any double of another value.
- **Expressions** (`ec_exp.h`). `ExpSyntax` says what the parser computes from characters, `ExpTree` and
  `ExpCompile` relate it to expression trees and their postfix, `ExpEval` to their values; `ExpParser` holds
  the loops over characters, stacks and nodes.
- **Block allocator and send queue** (`ec_alloctor.h`, `ec_memory.h`, `ec_netss_base.h`). `MemHeap`,
  `BlkAlloctor` and `SizeClass` are the heaps, the list of heaps with its garbage collection and the choice
  of a size class; `IoBuffer` is the byte queue made of such blocks and `Session` the sender that drains it.
- **Record store** (`ec_recfile.h`). `RecordTable` is the bitmap of pages and its image on disk,
  `RecordFile` the store as a map from positions to contents.
- **Hash map** (`ec_map.h`). `HashBuckets` are buckets and positions as values, `HashMap` the chains.
- **HTTP** (`ec_http.h`). `HttpPackage` is the verdict on the bytes received so far, `HttpText` what it makes of
  messages written out and sent in a pipeline, `HttpCtxt` the parser.
- **Protocol buffers** (`ec_protoc.h`). `ProtocVarint` and `ProtocFields` are the wire format,
  `Protoc` the loops over output and cursor.
- **TLS 1.2 records** (`ec_tls12.h`). `TlsRecord` is the CBC record layer of section 6.2.3.2 of RFC 5246 and
  the reading of a byte stream, `TlsSession` the session object.

Each file that loops or updates fields in the original is a class or a method here, proved against a
function over values; the lemmas about that function say what it is worth. `dafny verify dfyconfig.toml`
checks the whole project.

What comes from outside is a parameter: the CRC of a frame, HMAC, AES-CBC (decryption undoing encryption of
whole blocks), the random initial vectors, clocks, the outcome of a non-blocking send, variables and
functions of an expression, the handshake's verdict, the table of cached powers of ten. The network and the
file are state. Sequence numbers of UCP are natural numbers below 2^64 that do not wrap; a sender stops
before.

Where the code does not do what one would expect, the model follows the code, a lemma gives a failing input,
and the exact condition is proved: a prefix operator directly on a prefix operator (`ExpEval.Misread`,
`ExpCompile.CompilesToPostfix`), `acked` of a number that was never sent (`UcpProtocol.AckedOfUnsent`,
`UcpProtocol.AckedExactly`), `remakepkg` on a frame with a wrong CRC (`UcpFrame.WrongCrcRemade`,
`UcpFrame.RemakeAlwaysParses`), a page table shorter than the number of records asked for
(`RecordTable.TableTooSmall`, `RecordTable.TableCovers`), a message of 2^31 bytes or more
(`ProtocFields.TooLong`, `ProtocFields.RoundTrip`), a head line with an empty value (`HttpText.EmptyHead`,
`HttpText.HeadItemExactly`), a payload that starts with byte 21 (`TlsRecord.AlertByte`,
`TlsRecord.PackageArrives`). The branch of `insert_tail` that links a new first entry without counting it is
modelled with its condition (`UcpFrameList.FrameList.InsertTail`) and never taken through `insert_fast`.

## Model

| member | source | states |
|---|---|---|
| `UcpFrmPkg.FastXor` | ec_ucpx.h:581-602 | `fastxor_le` is byte-wise exclusive or with the repeating four-byte mask, for every size and every alignment of the buffer; bytes outside the range stay |
| `UcpFrame.XorMaskInvolution` | ec_ucpx.h:581-602 | masking twice gives the bytes back |
| `UcpFrmPkg.FrmPkg.MakePkg` | ec_ucpx.h:638-659 | `makepkg` with outside data writes exactly the encoded frame in place, or nothing and -1 when the data or the room does not do; the length field alone changes |
| `UcpFrmPkg.FrmPkg.MakePkgOwn` | ec_ucpx.h:610-630 | the same for the data held in the object |
| `UcpFrmPkg.FrmPkg.ParsePkg` | ec_ucpx.h:669-690 | `parsepkg` accepts exactly the decodable frames, fills the fields, and leaves the buffer unmasked |
| `UcpFrmPkg.FrmPkg.ParsePkgHead` | ec_ucpx.h:722-745 | `parsepkghead` gives the head and leaves the frame as it was |
| `UcpFrmPkg.FrmPkg.RemakePkg` | ec_ucpx.h:758-785 | `remakepkg` leaves the remade frame in the member buffer, or fails |
| `UcpFrame.ParseEncode` | ec_ucpx.h:638-690 | decoding undoes encoding, for every field value and any checksum function |
| `UcpFrame.EncodeParse` | ec_ucpx.h:669-690 | a frame that decodes is the encoding of what it decodes to: no second frame carries the same fields |
| `UcpFrame.ParseHeadAgrees` | ec_ucpx.h:722-745 | the head read from the 20-byte copy is that of the full decoding, failures included |
| `UcpFrame.RemakeKeepsFields` | ec_ucpx.h:758-785 | a remade frame decodes to the same fields and data with only the top bit of `_res` set; remaking again changes nothing |
| `UcpFrame.RemakeAlwaysParses` | ec_ucpx.h:758-785 | since `remakepkg` does not check the CRC, its output decodes even where its input did not, below the receive limit |
| `UcpFrame.WrongCrcRemade` | ec_ucpx.h:758-785 | a frame with the checksum of another function does not decode, but is remade into one that does |
| `UcpFrames.InsertIsSetInsertion` | ec_ucpx.h:268-327 | insertion keeps the order strict, adds exactly one number unless it was there, and loses no entry |
| `UcpFrames.QSearchFinds` | ec_ucpx.h:329-349 | the search by halves finds only members, and every member of an ascending array |
| `UcpFrames.AckDelRemoves` | ec_ucpx.h:436-468 | an ACK removes exactly the confirmed numbers |
| `UcpFrames.AckDelKeepsFrames` | ec_ucpx.h:436-468 | an entry that stays keeps its frame |
| `UcpFrames.ResendPassKeeps` | ec_ucpx.h:392-422 | a resend pass keeps all numbers and frames, restamps only entries that are due, and sends frames of the list within its budget |
| `UcpFrameList.FrameList.PushBack` | ec_ucpx.h:182-204 | the entry goes to the end; links, ends and size stay exact; an oversize frame changes nothing |
| `UcpFrameList.FrameList.InsertHead` | ec_ucpx.h:268-297 | forward search and relinking, or appending behind the last, are set insertion |
| `UcpFrameList.FrameList.InsertTail` | ec_ucpx.h:299-327 | backward search and relinking are set insertion in the list; the size is exact if and only if no entry is above the number in front, since the code links a new head without counting it |
| `UcpFrameList.FrameList.InsertFast` | ec_ucpx.h:249-266 | set insertion on every list, the empty one included, whichever end the search starts from; the size is always exact |
| `UcpFrameList.FrameList.Add` | ec_ucpx.h:490-498 | the received frame is inserted as into a set and `_maxseqno` follows; the list stays strictly increasing with mutually inverse links and exact size |
| `UcpFrameList.FrameList.AckRead` | ec_ucpx.h:511-533 | exactly the run from `nxtrcvno` on is handed over, in order, and the rest stays a valid list |
| `UcpFrameList.FrameList.AckDelete` | ec_ucpx.h:436-468 | unlinking node by node removes what the specification removes, counts it, and tracks the largest confirmed number |
| `UcpFrameList.FrameList.Resend` | ec_ucpx.h:392-422 | the loop over the nodes is the resend pass, in state and in frames sent |
| `UcpFrameList.FrameList.Acked` | ec_ucpx.h:424-427 | `acked` holds when the list is empty or starts above the number |
| `UcpFrameList.FrameList.GetRecvAcks` | ec_ucpx.h:546-557 | the numbers reported are those held from `nxtrcvno` on, in order |
| `UcpFrameList.FrameList.QSearchNos` | ec_ucpx.h:329-349 | linear below twelve numbers, by halves from there on |
| `UcpSpec.NosRoundTrip` | ec_ucpx.h:1044-1060 | the numbers in an ACK payload are read back |
| `UcpSocket.Socket.SendBytes` | ec_ucpx.h:961-992 | the method leaves the socket, its list and the channel as the specification of a send does |
| `UcpSocket.Socket.Resend` | ec_ucpx.h:1005-1019 | the same for a resend |
| `UcpSocket.Socket.DoDataFrm` | ec_ucpx.h:1074-1087 | a frame below `_nxtrcvno` is dropped, another is stored, and exactly the frames now in order are handed up |
| `UcpSocket.Socket.DoAckFrm` | ec_ucpx.h:913-933 | an ACK that decodes deletes what it confirms; one that does not changes nothing |
| `UcpSocket.Socket.AckEx` | ec_ucpx.h:1027-1063 | the ACK frames sent are those of the specification, a new one after each 176 numbers |
| `UcpSocket.Socket.OnRecv` | ec_ucpx.h:903-937 | a received frame is answered by its command; frames that do not decode or belong to another session change nothing |
| `UcpProtocol.StepKeeps` | ec_ucpx.h:903-1087 | every step of the two-endpoint system (send, resend, ackex, deliver any frame ever sent) keeps the invariant of both directions |
| `UcpProtocol.RunKeepsInv` | ec_ucpx.h:903-1087 | so does every run over a network that drops, duplicates, reorders and delays |
| `UcpProtocol.AckKeepsNoLoss` | ec_ucpx.h:436-468 | a late, repeated or split ACK never removes a number the receiver lacks |
| `UcpProtocol.ChunksConcat` | ec_ucpx.h:961-992 | the chunks of a send concatenate to the bytes given |
| `UcpProtocol.Safety` | ec_ucpx.h:961-1087 | in every run from the start, what either side has handed up is a prefix of what the other side's `sendbytes` accepted, in order, each frame exactly once |
| `UcpProtocol.NothingLost` | ec_ucpx.h:424-468 | in every run and both directions each number sent is in the send list or with the receiver; `acked` of a sent number holds exactly when no number up to it is queued, and only if all of them were received |
| `UcpProtocol.AckedExactly` | ec_ucpx.h:424-427 | in every run, both directions and for every number, `acked` implies received if and only if the number has been sent or the send list is not empty |
| `UcpProtocol.AckedOfUnsent` | ec_ucpx.h:424-427 | an instance: the new socket calls number 1 acknowledged, which nobody has received |
| `UcpProtocol.ReceiveNeverFails` | ec_ucpx.h:1074-1087 | no frame of any run makes the receiving side report an error |
| `UcpConvergence.Convergence` | ec_ucpx.h:903-1087 | from every reachable state and in either direction: once every number of the send list has been delivered, in any order, among any other steps but a new send by that sender, everything accepted is handed up, `_nxtrcvno` is the sender's `_nxtsndno`, and, with frames unacknowledged, the next ACK is due or on the network and its delivery empties the send list |
| `UcpConvergence.NextAckEmpties` | ec_ucpx.h:1027-1063 | in every reachable state, in either direction, where all has arrived and frames are unacknowledged: the ACK of that state is due or on the network, and delivering it empties the send list |
| `UcpConvergence.RunAnswers` | ec_ucpx.h:903-1087 | every run keeps: a receiver that has taken data and holds nothing out of order owes two ACKs, or the ACK of what it has is on the network |
| `UcpConvergence.CanAlwaysSettle` | ec_ucpx.h:903-1087 | from every reachable state, in either direction, there is such a run: one round of deliveries of the send list, then `ackex` and its delivery, ends settled with an empty send list |
| `DiyFloat.MulError` | dtoa_milo.h:48-76 | the rounded product of two 64-bit significands is within half a unit of the exact one and fits |
| `DiyFloat.MulHalvesIsMul` | dtoa_milo.h:63-74 | the portable branch by 32-bit halves computes the same product |
| `DiyFloat.NormalizedUnique` | dtoa_milo.h:78-96 | normalization is the one shift that sets the top bit, the value kept |
| `DiyFloat.Normalize` | dtoa_milo.h:78-96 | the loop to bit 52 and the shift by eleven give the normalized number |
| `DiyFloat.NormalizeBoundary` | dtoa_milo.h:98-113 | the loop to bit 53 and the shift by ten give the normalized number |
| `GrisuDigits.GrisuRound` | dtoa_milo.h:209-216 | the last digit is lowered, stays a digit, never past delta, and to the point closest to the value; no step overflows |
| `GrisuDigits.DigitCount` | dtoa_milo.h:218-230 | the digit count brackets the number between two powers of ten |
| `GrisuDigits.DigitGen` | dtoa_milo.h:232-289 | for every exponent in [-60,-32], non-zero integer part and 0 < delta < Mp: the loops end, nothing overflows, all characters are digits, and the number lies in [Mp - delta, Mp] whatever closeness argument `GrisuRound` gets |
| `GrisuDigits.FractionDigits` | dtoa_milo.h:275-288 | the second loop stays inside 64 bits and ends within nineteen digits |
| `Grisu.NormalizedBoundaries` | dtoa_milo.h:115-122 | the shifts lose no bit: the aligned boundaries keep their values |
| `Grisu.BoundariesAreMidpoints` | dtoa_milo.h:115-122 | the boundaries are the points halfway to the neighbouring doubles; at 2^-1022 the lower one is above |
| `Grisu.Monotone` | dtoa_milo.h:24-40 | the doubles increase with their bits |
| `Grisu.IntervalIsNearest` | dtoa_milo.h:291-303 | a number strictly inside the rounding interval of a double is nearer to it than to any other |
| `Grisu.ProductError` | dtoa_milo.h:296-299 | the product with a power known to half a unit is less than one unit off the exact scaled value |
| `Grisu.Grisu2` | dtoa_milo.h:291-303 | for every positive finite double and every cached power within half a unit, the digits and the exponent denote a number strictly inside the rounding interval |
| `GrisuText.PrettyKeepsValue` | dtoa_milo.h:345-384 | the text of any digit string and exponent reads back as digits times ten to the exponent, in all five forms |
| `GrisuText.ExponentReads` | dtoa_milo.h:321-343 | the exponent text reads back as the exponent |
| `GrisuText.WriteExponent` | dtoa_milo.h:321-343 | the text is written at the place given, closed by a zero character |
| `GrisuText.Prettify` | dtoa_milo.h:345-384 | filling, moving and writing in place give that text, closed by a zero character |
| `GrisuText.DtoaMilo` | dtoa_milo.h:386-417 | for any double: NaN, infinities and zeros are their fixed texts, and the text of a finite one reads back nearer to it than to any double of another value, with a minus sign exactly for the negative ones |
| `GrisuText.PositiveNearest` | dtoa_milo.h:386-417 | a number inside the rounding interval of a magnitude is, under either sign, nearest among the doubles of both signs |
| `ExpTree.PlainIffPostfix` | ec_exp.h:602-623 | what the parser emits for a tree is its postfix exactly when no prefix operator stands on another |
| `ExpCompile.FindCall` | ec_exp.h:404-424 | the argument text of a call ends at its own closing parenthesis |
| `ExpCompile.ReadArgs` | ec_exp.h:425-462 | each argument of a call is compiled on its own |
| `ExpCompile.ParseText` | ec_exp.h:502-666 | compiling the minimally parenthesised text of a tree gives what the tree emits, all binary operators left-associative by level |
| `ExpCompile.CompilesToPostfix` | ec_exp.h:502-666 | it gives the postfix of the tree if and only if no prefix operator stands directly on a prefix operator |
| `ExpEval.RunPostfix` | ec_exp.h:669-769 | on any stack the postfix pushes the value of the tree, or fails where the tree has none |
| `ExpEval.MeaningPreserved` | ec_exp.h:502-769 | parsing and evaluating the text of such a tree gives the value of the tree |
| `ExpEval.PrefixMovesLeft` | ec_exp.h:580-585 | for a prefix on a prefix behind a binary operator the text compiles, but the outer prefix is applied to the left operand |
| `ExpEval.Misread` | ec_exp.h:580-585 | an instance: 5---3 has the value 2 but is evaluated to -2 |
| `ExpParser.GetFunExpStr` | ec_exp.h:404-424 | the loop finds the closing parenthesis of the call, quoted text skipped |
| `ExpParser.GetString` | ec_exp.h:463-500 | the loop reads a quoted string with its escapes |
| `ExpParser.ParseExp` | ec_exp.h:502-666 | the loop over the characters with its stack and key computes the specified scan, errors included |
| `ExpParser.ParseFunExp` | ec_exp.h:425-462 | the loop over the argument text splits at top-level commas; the recursion is on shorter text |
| `ExpParser.EvalNodes` | ec_exp.h:669-769 | the loop over the nodes computes the run of the stack machine and fails unless one value is left |
| `ExpParser.DoFunExp` | ec_exp.h:1049-1063 | the arguments are evaluated from the first to the last, then the function is applied |
| `ExpParser.Calculate` | ec_exp.h:1016-1029 | parse followed by eval returns the value of the tree |
| `Heaps.MemHeap.constructor` | ec_alloctor.h:230-254 | a new heap has all its blocks on the free list |
| `Heaps.MemHeap.Malloc` | ec_alloctor.h:256-264 | the head of the free list becomes live, or null when there is none |
| `Heaps.MemHeap.Free` | ec_alloctor.h:266-273 | a live block goes to the front of the free list |
| `Heaps.MemHeap.LiveCount` | ec_alloctor.h:275-283 | free and live blocks partition the heap |
| `Alloctor.BlkAlloctor.constructor` | ec_alloctor.h:350-375 | an allocator starts with one free heap or none |
| `Alloctor.BlkAlloctor.Grow` | ec_alloctor.h:381-396 | with no block free a new heap comes in front and its first block is handed out |
| `Alloctor.BlkAlloctor.Search` | ec_alloctor.h:398-417 | with blocks free the search ends in the first heap that has one, never past the list; that heap moves to the front when it has more |
| `Alloctor.BlkAlloctor.Malloc` | ec_alloctor.h:377-418 | the block handed out was not live, and the heap and block counts stay those of the list |
| `Alloctor.BlkAlloctor.Free` | ec_alloctor.h:438-448 | exactly the block given back is no longer live; garbage collection runs under the stated condition only |
| `Alloctor.BlkAlloctor.Gc` | ec_alloctor.h:463-484 | exactly the heaps behind the first that have no live block go; no live block is lost |
| `Alloctor.BlkAlloctor.Conservation` | ec_alloctor.h:377-484 | free and live blocks together are all blocks of all heaps |
| `Alloctor.FreeAndLive` | ec_alloctor.h:377-484 | the same over any list of heaps, by the counts of each |
| `SizeClasses.HalfFind` | ec_alloctor.h:554-566 | the search by halves stops at or before the best class |
| `SizeClasses.SizeClass` | ec_alloctor.h:553-572 | the class chosen is the smallest whose blocks hold the size |
| `IoBuffers.IoBuffer.Append` | ec_memory.h:237-270 | the data is taken in order; what stays out does so only when the buffer is over its limit |
| `IoBuffers.IoBuffer.Bounded` | ec_memory.h:214-257 | the size is that of the contents and at most the limit and one block; every block has pos < len <= blksize, only the first is part-read, only the last part-filled |
| `IoBuffers.IoBuffer.Get` | ec_memory.h:272-294 | the bytes offered are a prefix of the contents, none exactly when there are none |
| `IoBuffers.IoBuffer.FreeSize` | ec_memory.h:296-316 | that many bytes, or all, leave at the front; blocks read to their end go back to the allocator |
| `IoBuffers.IoBuffer.Clear` | ec_memory.h:190-200 | every block goes back once, and no other block of the allocator is touched |
| `Sessions.Session.SendBuf` | ec_netss_base.h:388-410 | bytes sent followed by bytes buffered stay the same sequence |
| `Sessions.Session.IoSend` | ec_netss_base.h:377-386 | until an error, bytes sent followed by bytes buffered are exactly the bytes given; after one they are a prefix of them |
| `RecordTable.LowestFree` | ec_recfile.h:139-162 | the first clear bit of the first byte that is not full is the lowest free page |
| `RecordTable.HintTaken` | ec_recfile.h:154-156 | all pages before the moved hint are used |
| `RecordTable.HintGiven` | ec_recfile.h:171-181 | the hint moves back to a freed page below it |
| `RecordTable.TableCovers` | ec_recfile.h:131-137 | the table has room for `_maxrecs` pages if and only if `_maxrecs` is a multiple of 8 or its whole bytes are no multiple of 512 |
| `RecordTable.TableTooSmall` | ec_recfile.h:131-137 | an instance: a store for 4097 records has room for 4096 |
| `RecordTable.HeadReads` | ec_recfile.h:269-289 | the head written at creation is read back, or refused when another application flag is wanted |
| `RecordTable.PagesApart` | ec_recfile.h:404-405 | pages never overlap |
| `RecordTable.PageWritten` | ec_recfile.h:404-412 | a framed record written at its page is there |
| `RecordFiles.RecordFile.AllocPage` | ec_recfile.h:139-162 | the lowest free page is taken in memory and on disk, or none is free |
| `RecordFiles.RecordFile.FreePage` | ec_recfile.h:164-184 | exactly that bit is cleared, in memory and on disk, and a page beyond the table is ignored |
| `RecordFiles.RecordFile.DeleteRecord` | ec_recfile.h:430-433 | the record at the position, if any, is gone, all others stay |
| `RecordFiles.RecordFile.AddRecord` | ec_recfile.h:384-428 | the record goes to the lowest position without one; it fails exactly when it is too large or the table is full |
| `RecordFiles.RecordFile.WriteRecord` | ec_recfile.h:384-428 | a given position comes back whenever the record fits; over a live position the content is replaced, a free one stays free, and no other record changes |
| `RecordFiles.RecordFile.ReadRecord` | ec_recfile.h:344-356 | a used page gives back the content last written there |
| `RecordFiles.RecordFile.LoadRecords` | ec_recfile.h:336-362 | exactly the live records are reported, each once, in order of position |
| `RecordFiles.RecordFile.CreateFile` | ec_recfile.h:199-255 | an empty store, exactly when the sizes are in range |
| `RecordFiles.RecordFile.ScanTable` | ec_recfile.h:312-325 | the hint after opening is the first free page, or the end of the table |
| `RecordFiles.RecordFile.OpenFile` | ec_recfile.h:260-330 | a file opens exactly when its head is in order, carries the application flag wanted and its table is complete, and then holds the records that were stored |
| `RecordFiles.RecordFile.OnDisk` | ec_recfile.h:139-428 | at any time the bytes on disk are the store: reopening gives the same records |
| `HashBuckets.GetIsLookup` | ec_map.h:240-251 | looking into the bucket of the key is the lookup of the map |
| `HashBuckets.SetRefines` | ec_map.h:196-216 | set is the update of the map, for any hash function |
| `HashBuckets.EraseRefines` | ec_map.h:287-305 | erase removes the key from the map |
| `HashBuckets.EmplaceRefines` | ec_map.h:376-400 | emplace is the update of the map |
| `HashBuckets.VisitsAll` | ec_map.h:426-483 | from begin, ++ meets every entry exactly once and then the end |
| `HashBuckets.EntriesOnce` | ec_map.h:94-111 | the entries met are those of the map, each key once, as many as its size |
| `HashMaps.HashMap.Get` | ec_map.h:240-260 | get returns the value of the key, or none |
| `HashMaps.HashMap.Set` | ec_map.h:196-216 | the chains relinked in place stand for the updated map |
| `HashMaps.HashMap.Erase` | ec_map.h:287-305 | the key is gone and the answer is whether it was there |
| `HashMaps.HashMap.Emplace` | ec_map.h:376-400 | the old entry is unlinked, the new one in front; the map is updated |
| `HashMaps.HashMap.Begin` | ec_map.h:472-483 | the position of the first entry, or the end |
| `HashMaps.HashMap.NextI` | ec_map.h:426-450 | the position of the next entry, or the end |
| `HashMaps.HashMap.AtI` | ec_map.h:452-470 | the value at a position |
| `HashMaps.HashMap.Entries` | ec_map.h:94-111 | a loop from begin to end yields every entry of the map once |
| `HttpPackage.PrefixStable` | ec_http.h:541-590 | a package found in a text is found, the same, in every extension and in exactly its own bytes; every shorter prefix says wait |
| `HttpPackage.BadStays` | ec_http.h:541-590 | an error stays an error whatever follows |
| `HttpPackage.CutsDoNotMatter` | ec_http.h:541-590 | pipelined messages come out the same, and a broken stream fails after the same ones, however the stream is cut |
| `HttpText.TextParsed` | ec_http.h:541-590 | a request or response written out, with any heads and the body its Content-Length announces, is parsed to itself and to its own length, whatever follows |
| `HttpText.PipelineReceived` | ec_http.h:541-590 | messages sent one after the other and received in any pieces are exactly those messages |
| `HttpText.SizeReads` | ec_http.h:436-446 | a body size in decimal digits is read as that size |
| `HttpText.HeadItemExactly` | ec_http.h:425-434 | a line is accepted as a head line if and only if it has a colon, a key other than blanks before the first one and something other than blanks behind it |
| `HttpText.EmptyHead` | ec_http.h:425-434 | an instance: `Host: ` is refused |
| `HttpText.EmptyRefused` | ec_http.h:425-434 | a key without a colon is no head line; with a colon and a value behind it is one if and only if neither the key nor the value is only blanks |
| `HttpCtxt.Ctxt.GetLine` | ec_http.h:393-411 | a line with its end, an error, or wait, as scanned character by character |
| `HttpCtxt.Ctxt.HeadItem` | ec_http.h:425-434 | key and value of a head line, spaces skipped and the key trimmed |
| `HttpCtxt.Ctxt.Trim` | ec_http.h:308-324 | leading and trailing blanks go |
| `HttpCtxt.Ctxt.Get2Sp` | ec_http.h:380-392 | the token up to a space and the rest |
| `HttpCtxt.Ctxt.Get2C` | ec_http.h:364-379 | the token up to the character, which is skipped, and the rest |
| `HttpCtxt.ParseReqLine` | ec_http.h:465-494 | request and response start lines, with the error of the first part that does not do |
| `HttpCtxt.Package.TrimValues` | ec_http.h:568-570 | every head value is trimmed in place, no key changes |
| `HttpCtxt.Package.Parse` | ec_http.h:541-590 | the loop over the lines returns the specified verdict and leaves the fields of the package |
| `Varints.VarintRoundTrip` | ec_protoc.h:113-131 | every value of the width is read back from its groups, whatever follows them |
| `Varints.ShortestVarint` | ec_protoc.h:113-131 | what is read has at least as many groups as its value is written with |
| `Varints.XorSign` | ec_protoc.h:100-109 | bitwise exclusive or with the sign is the complement for a negative value and nothing else |
| `Varints.ZigZagMeaning` | ec_protoc.h:100-109 | zigzag numbers 0, -1, 1, -2, ... from 0 on and is undone |
| `Varints.ZigZagOnto` | ec_protoc.h:100-109 | every code is met |
| `ProtocFields.OmittedIsEmpty` | ec_protoc.h:449-457 | a field is written as nothing exactly when all of it is at its default |
| `ProtocFields.RoundTrip` | ec_protoc.h:569-624 | parse reports exactly the fields written, in order, minus omitted defaults, if and only if their bytes are fewer than 2^31, whatever the fields and however long; from there to 2^32 it reports nothing |
| `ProtocFields.TooLong` | ec_protoc.h:569-612 | an instance: a bytes field of 2^31 bytes is written and not read back |
| `ProtocFields.NothingShorter` | ec_protoc.h:569-612 | no shorter text is reported as the same fields |
| `ProtocFields.PackedRoundTrip` | ec_protoc.h:505-525 | packed values of any integral type, zigzag or not, are unpacked again |
| `ProtocFields.FixedPackedRoundTrip` | ec_protoc.h:477-501 | packed words of four or eight bytes are unpacked again |
| `ProtocFields.WireRoundTrip` | ec_protoc.h:177-192 | the cast of the receiving type undoes the cast to the wire type |
| `ProtocFields.MessageRoundTrip` | ec_protoc.h:569-624 | a message of any depth comes back whole, packets unpacked and nested messages parsed in turn |
| `Protoc.OutVarint` | ec_protoc.h:197-217 | the loop and its last byte write the varint of every 32- and 64-bit value |
| `Protoc.SizeVarint` | ec_protoc.h:300-313 | the size is the number of bytes `out_varint` writes |
| `Protoc.GetVarint` | ec_protoc.h:113-131 | the loop reads what the specification reads, overlong and cut input included |
| `Protoc.SizeField` | ec_protoc.h:325-433 | every `size_` function gives the number of bytes written for its field |
| `Protoc.SizeContent` | ec_protoc.h:428-444 | so the length put before a nested message is exact |
| `Protoc.OutVarPacket` | ec_protoc.h:505-525 | a packed field is its key, the exact length, and its values |
| `Protoc.OutFixPacket` | ec_protoc.h:477-501 | the same for fixed words |
| `Protoc.Serialize` | ec_protoc.h:614-624 | a nested message is its key, the exact length, and its content, or nothing when the content is empty |
| `Protoc.OutContent` | ec_protoc.h:614-640 | the fields of an object are written one after the other |
| `Protoc.ParseMessage` | ec_protoc.h:569-612 | the loop over the wire types reports and ends as specified, for any bytes |
| `Protoc.RoundTripped` | ec_protoc.h:784-810 | serialized and parsed again, the announced size is the written one and the fields come back |
| `TlsRecord.PlainParts` | ec_tls12.h:403-410 | content, MAC and padding fill whole blocks, and the length byte leads back to the content |
| `TlsRecord.RecordRoundTrip` | ec_tls12.h:335-428 | for every suite a record sent is accepted under its sequence number with its content unchanged |
| `TlsRecord.RecordSize` | ec_tls12.h:381-428 | a record sent is within the limits the reader checks |
| `TlsRecord.ContentsCarry` | ec_tls12.h:430-447 | the contents of the records of a payload concatenate to it, each within a fragment |
| `TlsRecord.AfterCounts` | ec_tls12.h:426-447 | one sequence number for each record, one record for each started 16292 bytes |
| `TlsRecord.CutsDoNotMatter` | ec_tls12.h:679-729 | the records processed, the data handed up and a refusal do not depend on how the byte stream is cut, whatever the bytes |
| `TlsRecord.PayloadArrives` | ec_tls12.h:430-447 | a payload of any length sent by `mk_cipher` and carried in any pieces to a peer in step arrives whole and in order, and the two are in step again |
| `TlsRecord.PackageArrives` | ec_tls12.h:472-478 | `make_package` brings a peer in the same cipher state to exactly the state with the payload received if and only if the first payload byte is not 21 or no cipher is on; a payload of any length that fails this leaves other records, and below 48 bytes a refusal |
| `TlsRecord.AlertByte` | ec_tls12.h:472-478 | an instance: the one byte 21 as application data under a cipher makes the peer refuse the stream |
| `TlsSession.Session.MkrWithAesBlk` | ec_tls12.h:381-428 | one record is appended and the sequence number moves on |
| `TlsSession.Session.Pad` | ec_tls12.h:404-410 | the padding loop fills the last block |
| `TlsSession.Session.MkCipher` | ec_tls12.h:430-447 | the loop appends the records of the payload under consecutive sequence numbers |
| `TlsSession.Session.MkNocipher` | ec_tls12.h:449-470 | the loop appends the payload in records in clear |
| `TlsSession.Session.MakePackage` | ec_tls12.h:472-478 | the branch on cipher and first byte |
| `TlsSession.Session.DecryptRecord` | ec_tls12.h:335-379 | a record is accepted exactly when padding length, size and MAC do; only then the sequence number moves on |
| `TlsSession.Session.DoRecord` | ec_tls12.h:1359-1385 | application data is handed up, change-cipher-spec switches the read cipher on and restarts the numbers |
| `TlsSession.Session.OnTcpRead` | ec_tls12.h:679-729 | the loop over the buffer processes every whole record and keeps the rest, and all of a refused stream |
| `TlsSession.Transfer` | ec_tls12.h:430-447 | two sessions in step: what one sends as application data the other hands up |

## Left out

UCP

- Handshake, session ids, heartbeats, statistics and send-window figures: one established connection with a fixed ssid.
- `UcpFrameList.FrameList`: one class stands for `frmlist` and its two subclasses; node memory is never reclaimed.
- `UcpFrameList.FrameList.Resend`: the retry interval does not overflow, and the disconnect after too many retries is not modelled.
- `UcpSocket.Socket.SendBytes`: several UDP channels are one; a frame goes out once.
- `UcpProtocol.Safety`: sequence numbers do not wrap; a send that would pass 2^64 is not a step.

Double printing

- `Grisu.Grisu2`: the 87 table entries and the index estimate are not computed; the looked-up power is any that is exact to half a unit and brings the exponent into [-60,-32].
- `GrisuDigits.DigitGen`: `kPow10[-kappa]` reads past the table from the tenth fractional digit on, so the closeness argument of `GrisuRound` is arbitrary there.
- `GrisuText.DtoaMilo`: the buffer behind the minus sign is an array of its own, copied, where the code advances the pointer.

Expressions

- `ExpParser.ParseExp`: after a failed parse the part already emitted is left open; text has no zero character, and the character behind the text is not an operator character.
- `ExpCompile.CompilesToPostfix`: trees have no string literals; those are modelled in the parser only. A lone `!` is read as `!=`, so prefix `!` is not part of the trees.
- `ExpEval.MeaningPreserved`: decimal constants are exact reals, integer constants fit 64 bits and hexadecimal ones 16 digits, shift counts are taken modulo 64.
- Ownership and deletion of nodes: nodes are values.

Allocator and queue

- Locks, failing allocation and the system fallback for sizes above the largest class; `realloc_`, which is `malloc_`, a copy and `free_`.
- `Alloctor.BlkAlloctor.constructor`: the block size given is taken as already aligned; memory addresses are object identities.
- `Alloctor.BlkAlloctor.Free`: garbage collection starts above 3 heaps, the default of `EC_ALLOCTOR_GC_MINHEAPS`; the small-memory builds use 1 or 2.
- `SizeClasses.SizeClass`: the classes are their sizes, in ascending order as they are added.
- `IoBuffers.IoBuffer.Get`: the loop that drops fully read head blocks does nothing in any reachable state and is left out.
- `Sessions.Session.IoSend`: the socket accepts any prefix or fails.

Record store

- `RecordFiles.RecordFile.WriteRecord`: reads and writes of the file succeed; file locks and flushing are not modelled.

Hash map

- `HashMaps.HashMap.Set`: a value carries its key, as the key-equality functor of the original assumes.
- `HashMaps.HashMap.Entries`: chains are shorter than 2^32 entries, so that a position holds bucket and rank.
- `clear`, `next` and moving: loops and copies of what is modelled.

HTTP

- `HttpCtxt.Package.Parse`: `atoi` is taken to saturate at 64 bits and keep the low 32; `getattr`, content encodings and the response builder are not modelled.

Protocol buffers

- `Protoc.ParseMessage`: a declared length of 2^31 or more ends the model with the outcome Outside; what is read there is not described.
- `Protoc.OutVar`: integral types of 32 and 64 bits; narrower ones go through the 32-bit form.
- `Protoc.OutCls`: `out_string` is this behind a check that the bytes are UTF-8, and the check is not modelled.
- Big-endian machines.

TLS

- Handshake, key derivation, alerts sent and certificates: the handshake's verdict on the records so far is a parameter, and suite and keys are those agreed.
- `TlsRecord.RecordRoundTrip`: HMAC and AES are any functions with the right sizes and with decryption undoing encryption; that a forged record is refused is not claimed.
- `TlsRecord.PackageArrives`: for a payload of 48 bytes or more that starts with byte 21 under a cipher, which other state the peer ends in depends on the hash and is not described.

Everywhere

- WebSocket framing, `ec_protobuf.h` (the same codec again), JSON, CSV, ini, URL and base64 helpers, logging, sockets, threads and services.
