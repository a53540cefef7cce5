# A verified model of the payload's codecs, trees, rendezvous and patching

The repository is a modification payload for a console racing game. This project models the parts of it whose
correctness is not visible from any single function, and proves what they promise:

- **Yaz codec.** The greedy Yaz1 encoder and the two resumable decoders (Yaz and LZ77). Both decoders are proved equal
  to one value-level state machine (`LzMachine`), which is proved equal to a recursive reading of the format
  (`LzFormat`) and indifferent to how the stream is cut. The encoder's pruned search is proved equal to exhaustive
  search, its output to the layout of a greedy plan, and the whole round trip closed.
- **`Exchange`.** A state machine cut at mutex lock and unlock, sleep and wakeup, with any number of callers and any
  schedule. Calls pair one to one, no empty slot is dereferenced, no wakeup is lost, every run without new arrivals
  ends, and at rest everyone who could be paired has returned.
- **Flattened trees.** An inductive tree (`NodeTable.Forest`, first child and next sibling) and its preorder table.
  `U8Iterator`, `Archive::get`, `DVDReadDir` and the in-place `DecodeWU8` are each compared with the tree.
- **Rollback.** `KartRollback` over the wrapping `CircularBuffer`: history order over whole runs and the rebase onto a
  server frame. Positions and speeds are reals; rotations are elements of an arbitrary group.
- **Patching.** `Patcher_patch` over a 32-bit memory, with the ISA's decoding of the branches it writes and a machine that
  runs the hooked code.
- **Symbol map.** The Python printer and the C++ parser and search.
- **Team outcome.** `GetTeamPlayerOutcome` for any order an unstable sort may leave equal teams in.

Functions that program and specification share are pinned by laws of their own, stated with the numbers and the bytes
of the source: what a row, a path, a segment, a key, a line or a choice is.

Code that updates state is a class or a method over arrays, proved against functions on values; the lemmas are about
those functions. Long source functions are split into several methods along their loops and branches.

## What the proofs found

- `Yaz_encode` succeeds on every source of `n` bytes if and only if the destination has at least
  `0x10 + n + ceil(n / 8)` bytes: there are sources of every length in which no three bytes come back within the window
  (`YazBound.RoomNeeded`). From 16 bytes on it gives up only when every byte of the destination is taken by items for a part of the
  source, and perhaps one flag byte (`YazEncoder.Encode`, `YazEncoder.GivesUpFull`); its
  overflow tests before a reference never fire, because no match is longer than the room left (`YazEncoder.ChoiceFits`).
  That cap costs room: a reference takes two or three bytes whatever its length, so four equal bytes, which encode in 20
  bytes, fail with exactly 20 (`YazEncoder.TightRoomGivesUp`).
- `Archive::get(const char *)` compares with `strncmp` over the length of the path segment, so it accepts a child whose
  name merely begins with the segment. It agrees with exact lookup if and only if in no directory on the way such a child
  comes before every exactly named one, or both lookups fail (`ArchiveModule.WalkIsExact`; for one directory
  `FindChildIsExact`, with the instance `ExtensionShadows`).
- The header checks of `Archive` multiply the entry count by 12 in 32 bits. They keep the rows `get(u32)` reads inside
  the data if and only if the end of the table does not wrap (`ArchiveModule.Archive.RowsInData`), and a header whose
  table wraps can pass them (`ArchiveModule.WrappingTablePasses`).
- The directory stack of `U8Iterator` holds the ten outermost directories around a row. It is the whole chain at every
  row if and only if directories nest at most ten deep (`U8IteratorModule.Tour.TenPlacesSuffice`).
- The signed delay of `KartRollback` takes the frame of a server 2^31 frames or more behind for a future one. With times
  that do not go back, a call keeps the buffer sorted if and only if the server is less than 2^31 frames behind, or no
  buffered frame is left for its frame to be queued behind, or no place is left to queue it
  (`KartRollbackModule.StepKeepsHistory`, over whole runs `RunKeepsHistory`, with the instance `FarServerUnsorts`).
- On a malformed table the path lookup of `Archive` can take a rejected directory for a match: when it spans more than the
  directory it stands in, the scan jumps past the end it tests for. What is taken begins with the segment if and only if
  the scan has not left the span (`ArchiveModule.Archive.TakenBegins`, `RejectedTaken`, with the instance `StrangerTaken`).
  The same header can hold file extents whose end wraps (`ArchiveModule.Archive.ExtentInData`).
- The map parser stops at the first symbol with an empty name, so printing and parsing are inverse exactly when every
  name is non-empty (`MapFileModule.MapReadsBack`).
- A branch patch whose target is further than 2^25 bytes away, or not a whole number of words, is written without an error
  and goes elsewhere; reaching the target is equivalent to the distance being encodable (`PatcherModule.BranchGoes`).
- In a team race the team count comes from the player count alone. When no team exceeds the maximal size every team
  below the count has a player (`DriverManagerModule.NoTeamIsEmpty`); otherwise a team may have none; it takes part
  with a total of 0 and can share the first place (`DriverManagerModule.EmptyTeamDraws`).
- `U8Cursor::read` refuses to read the last byte of its buffer, so every statement about a table asks for one byte behind it.

## Model

| member | source | states |
|---|---|---|
| YazRoundTrip.RoundTrip | payload/sp/Yaz.c:24-101 | for every non-empty source and every destination size for which the encoder succeeds, the one-shot decoder with room for the source returns exactly the source |
| YazRoundTrip.IntoLessRoom | payload/sp/YAZDecoder.cc:146-160 | decoding an encoded source into fewer bytes succeeds if and only if some of the items, from the first on, produce exactly that many, and then gives the beginning of the source |
| YazRoundTrip.StreamedRoundTrip | payload/sp/YAZDecoder.cc:86-108 | the encoder's output, cut into any chunks and fed to a fresh streaming decoder, leaves it ok and done with the source as output |
| YazRoundTrip.FeedTokens | payload/sp/LZ77Decoder.cc:78-100 | either streaming decoder, fed any laid-out token stream in any chunks, ends ok and done with the stream's expansion |
| YazRoundTrip.EncodeBound | payload/sp/Yaz.c:24-101 | with `dstSize >= 0x10 + n + ceil(n / 8)` the encoder takes no failure exit and its output is no longer than that bound |
| YazBound.NeverRepeats | payload/sp/Yaz.c:43-73 | in the hard source no three bytes in a row come back within the window |
| YazBound.LiteralsNeed | payload/sp/Yaz.c:33-100 | from any point of a run that meets literals only, success needs a byte for each source byte left and a flag byte per eight |
| YazBound.RoomNeeded | payload/sp/Yaz.c:24-101 | for every n and destination size, the encoder succeeds on all sources of n bytes if and only if `dstSize >= 0x10 + n + ceil(n / 8)` |
| YazRoundTrip.EncodeThenDecode | payload/sp/YAZDecoder.cc:146-160 | the two programs one after the other, for every destination size: the encoder returns 0 exactly when its plan does not fit, and any other result decodes to the source |
| YazEncoder.MatchLengthMeans | payload/sp/Yaz.c:58-62 | the counted match repeats the source at that distance, and the byte after it differs or the cap is reached |
| YazEncoder.MatchBeyond | payload/sp/Yaz.c:55-57 | an offset rejected by the one-byte test has no match longer than the best so far |
| YazEncoder.LongestIsBest | payload/sp/Yaz.c:43-73 | over all window offsets the exhaustive choice is the longest match and, from length 2 on, the farthest offset that attains it |
| YazEncoder.ChoiceIsLongest | payload/sp/Yaz.c:43-76 | no match among the last 0x1000 bytes, of at most 0x111 bytes, the source left and the room left, is longer than the one chosen, none as long is farther back, and a literal means there is none of three bytes |
| YazEncoder.ChoiceMatches | payload/sp/Yaz.c:74-97 | what is chosen is such a match of three bytes or more, or the next byte itself |
| YazEncoder.LongestSaturates | payload/sp/Yaz.c:66-72 | once the best match has the maximal length no later offset changes it, so both early exits are safe |
| YazEncoder.FindMatch | payload/sp/Yaz.c:43-73 | the pruned loops find exactly the exhaustive choice under the cap of 0x111, the remaining source and the remaining destination |
| YazEncoder.ChoiceCopies | payload/sp/Yaz.c:74-97 | the item chosen at a position, applied to the source before it, gives the source up to the position after it, overlapping copies included |
| YazEncoder.PlanExpands | payload/sp/Yaz.c:33-100 | the items of a successful run are encodable, reach only written output, expand to the source and fit the destination |
| YazEncoder.PlanFits | payload/sp/Yaz.c:33-100 | from any point of a run, one byte per source byte left and a flag byte per eight is enough room, and no more is used |
| YazEncoder.ChoiceFits | payload/sp/Yaz.c:51-53 | the item chosen with some room left never takes more than that room |
| YazEncoder.GivesUpFull | payload/sp/Yaz.c:35-100 | from 16 bytes on, when the encoder gives up, every byte of the destination is taken |
| YazEncoder.PlanIgnoresRoom | payload/sp/Yaz.c:48-53 | with that much room the destination size does not influence any choice |
| YazEncoder.TightRoomGivesUp | payload/sp/Yaz.c:51-53 | for four equal bytes the items chosen with one byte more take 20 bytes, and with 20 bytes, one below the bound of `RoomNeeded`, the encoder gives up |
| YazEncoder.SizeIsLength | payload/sp/Yaz.c:35-97 | the encoder's running count of bytes is the length of the laid-out tokens |
| YazEncoder.PutReference | payload/sp/Yaz.c:77-96 | writes the two- or three-byte reference for that size and distance, or reports that it does not fit, on 32-bit sums; touches nothing before it and nothing beyond the destination size |
| YazEncoder.PutLiteral | payload/sp/Yaz.c:74-76 | copies the byte and sets its flag bit, which extends the laid-out open group by one literal |
| YazEncoder.PutItem | payload/sp/Yaz.c:43-97 | extends the open group by exactly the chosen item, which always fits: none of the overflow exits is taken |
| YazEncoder.EncodeItem | payload/sp/Yaz.c:35-97 | one turn of the outer loop fails exactly when the flag byte takes the last byte; else the destination goes from the layout of the tokens so far to the layout with one token more, for every position in a group |
| YazEncoder.Encode | payload/sp/Yaz.c:24-101 | for every destination size returns 0 exactly when the plan does not fit, and else the length of the laid-out plan, which then stands in the destination; when it gives up on 16 bytes or more, all of them are items for a part of the source and at most one flag byte; writes nothing at or past the destination size |
| YazEncoder.WriteHeader | payload/sp/Yaz.c:28-31 | the sixteen header bytes are the magic, the source size and two zero words |
| YazEncoder.HeaderBytes | payload/sp/Yaz.c:28-31 | the sixteen header bytes, each spelled out: "Yaz1", the size from its highest byte, eight zeros |
| LzFormat.CopyRunStep | payload/sp/YAZDecoder.cc:73-80 | copying one more byte from `refOffset` back prolongs the periodic copy, also when it reads what it wrote |
| LzFormat.FlagsReadBack | payload/sp/YAZDecoder.cc:40-44 | bit 7 - k of a flag byte says whether item k is a reference, in either sense |
| LzFormat.SerializeAppend | payload/sp/Yaz.c:35-42 | laying out whole groups and then the rest is laying out everything |
| LzFormat.FirstItem | payload/sp/YAZDecoder.cc:46-72 | an item read completely fits its format, reaches only written output and uses between one and all of the bytes given |
| LzFormat.Read | payload/sp/YAZDecoder.cc:31-108 | the recursive reading ends done with exactly the announced size, or wanting more with less than it |
| LzFormat.ReadItems | payload/sp/YAZDecoder.cc:31-108 | reading the items of a group undoes writing them and goes on behind them, until the size is reached or overrun |
| LzFormat.DecompressSerialize | payload/sp/YAZDecoder.cc:31-108 | decompressing any laid-out token stream of either format yields what the tokens expand to |
| LzFormat.DecompressInto | payload/sp/YAZDecoder.cc:86-108 | into fewer bytes than the tokens produce it succeeds if and only if some of them, from the first on, produce exactly that many |
| LzFormat.WireExample | payload/sp/YAZDecoder.cc:34-72 | the bytes of both formats by example: flag bits, nibbles, distances and the third byte |
| LzMachine.Process | payload/sp/YAZDecoder.cc:31-84 | a call of `process` keeps every range condition, writes within the destination, and without consuming a byte either writes one or goes down in rank |
| LzMachine.Run | payload/sp/YAZDecoder.cc:86-108 | the loop of `decode` terminates; it ends ok exactly when it returns true, done only between items, and otherwise waiting for a byte |
| LzMachine.ChunkInvariance | payload/sp/YAZDecoder.cc:86-108 | for every split of the source, decoding the parts ends in the state, output and verdict of decoding the whole; failure or completion on the first part is final |
| LzMachine.FeedIsOneRun | payload/sp/LZ77Decoder.cc:78-100 | for any list of chunks the caller's loop ends where one call on all bytes ends |
| LzMachine.RunCopy | payload/sp/YAZDecoder.cc:73-80 | from anywhere in a reference, copying byte by byte completes the whole reference, or fails when the destination is full before that |
| LzMachine.RunReference | payload/sp/YAZDecoder.cc:50-72 | the header states read a two- or three-byte reference and start its copy, wait when bytes are missing, and fail when it points before the output |
| LzMachine.RunIsRead | payload/sp/LZ77Decoder.cc:32-100 | between items, in either format, the machine computes the recursive reading of what is left |
| LzMachine.RunIsDecompress | payload/sp/YAZDecoder.cc:31-108 | a fresh decoder computes the one-shot meaning of the format, whatever its uninitialised fields hold |
| YAZDecoderModule.YAZDecoder.FromHeader | payload/sp/YAZDecoder.cc:12-19 | a cut header leaves the decoder not ok, else it is in its initial state with the announced size |
| YAZDecoderModule.YAZDecoder.Into | payload/sp/YAZDecoder.cc:21-21 | the initial state over a caller's buffer |
| YAZDecoderModule.YAZDecoder.Step | payload/sp/YAZDecoder.cc:31-84 | the fields and buffer after `process` are those of the machine's step; all reads and writes are in range, and nothing behind the output changes |
| YAZDecoderModule.YAZDecoder.StepHeader | payload/sp/YAZDecoder.cc:34-72 | the same for the four header states, with their shifts and masks |
| YAZDecoderModule.YAZDecoder.Decode | payload/sp/YAZDecoder.cc:86-108 | the new state and the result are those of the machine's run; the loop terminates |
| YAZDecoderModule.Decode | payload/sp/YAZDecoder.cc:146-160 | returns a size exactly when the header is sound and the body decompresses to it, with the decompressed bytes in the buffer, and leaves the bytes past the buffer size alone |
| YAZDecoderModule.GetDecodedSizeIs | payload/sp/YAZDecoder.cc:131-144 | a size is announced exactly by sixteen bytes that start with "Yaz0" or "Yaz1", and is the big-endian number after that |
| YAZDecoderModule.DecodeFileIs | payload/sp/YAZDecoder.cc:146-160 | the body after sixteen bytes is decompressed into the smaller of the announced size and the room |
| YAZDecoderModule.Yaz0Reads | payload/sp/YAZDecoder.cc:131-133 | a file under the Yaz0 magic decodes as it does under Yaz1 |
| LZ77DecoderModule.SizeHeaderReads | payload/sp/LZ77Decoder.cc:12-22 | both header forms announce the size written in them, and their magic passes `CheckMagic` |
| LZ77DecoderModule.CheckMagicIs | payload/sp/LZ77Decoder.cc:123-125 | the magic is accepted exactly when its low byte is 0x10 |
| LZ77DecoderModule.SizeHeaderIs | payload/sp/LZ77Decoder.cc:8-22 | for any bytes: a cut header, a 24-bit size, or the 32-bit size after a zero |
| LZ77DecoderModule.LZ77Decoder.constructor | payload/sp/LZ77Decoder.cc:7-24 | a cut header leaves the decoder not ok, else it is in its initial state with the announced size and header length |
| LZ77DecoderModule.LZ77Decoder.Step | payload/sp/LZ77Decoder.cc:32-76 | the fields and buffer after `process` are those of the machine's step in the LZ77 format |
| LZ77DecoderModule.LZ77Decoder.StepHeader | payload/sp/LZ77Decoder.cc:35-64 | the same for the header states, with inverted flag sense and bias 3 |
| LZ77DecoderModule.LZ77Decoder.Decode | payload/sp/LZ77Decoder.cc:78-100 | the new state and the result are those of the machine's run; the loop terminates |
| Exchange.DoKeeps | payload/sp/Exchange.hh:17-55 | every step of every caller keeps the invariant: who holds which mutex, what stands in each slot, and what each waiting point says about the partner |
| Exchange.RunKeeps | payload/sp/Exchange.hh:17-55 | the invariant holds in every reachable state, for any number of callers and any schedule |
| Exchange.AnyoneMayArrive | payload/sp/Exchange.hh:17-18 | a call can be made in any state |
| Exchange.CallsAreArrivals | payload/sp/Exchange.hh:17-20 | the calls of a run are, in order, the arrivals among its actions, each with the side and the value it was made with |
| Exchange.EnterTakes | payload/sp/Exchange.hh:20-25 | a caller that finds a value in the other slot takes it from a call asleep without a partner, which is the only other call affected |
| Exchange.ResumeTakes | payload/sp/Exchange.hh:30-34 | a call woken from the no-partner sleep finds the other slot full, with the value of the call that took its own |
| Exchange.NeverBroken | payload/sp/Exchange.hh:31-31 | in every run a call woken from the no-partner sleep has a full opposite slot, no empty slot is dereferenced, and a slot is empty whenever its mutex is free |
| Exchange.RunKeepsGot | payload/sp/Exchange.hh:22-34 | what a call has taken is what it returns, whatever happens in between |
| Exchange.ReturnedCallsPair | payload/sp/Exchange.hh:17-55 | in every run a returned call returned the value its opposite partner offered, that partner took this call's value, and no other returned call has the same partner |
| Exchange.ReturnsAreExchanged | payload/sp/Exchange.hh:17-55 | over what callers asked and got: a returned call got the value of an opposite arrival, no other returned call got that arrival's, and if that call has returned it got this call's value |
| Exchange.TwoMeet | payload/sp/Exchange.hh:17-55 | a run in which two callers return each other's value |
| Exchange.InsideTogetherOneRuns | payload/sp/Exchange.hh:21-34 | whenever both mutexes are held, at least one of the two calls inside is not asleep and can take a step: no wakeup is lost |
| Exchange.StepShrinks | payload/sp/Exchange.hh:17-55 | every step other than an arrival uses up some of what the calls still have to do |
| Exchange.RunsEnd | payload/sp/Exchange.hh:17-55 | without new arrivals every run is bounded by that amount |
| Exchange.QuietPosition | payload/sp/Exchange.hh:17-55 | when nothing can move, every call has returned, sleeps without a partner, or waits for a held mutex |
| Exchange.QuietOneSided | payload/sp/Exchange.hh:17-55 | at rest, of any two calls on opposite sides one has returned |
| Exchange.RestPairsEveryone | payload/sp/Exchange.hh:17-55 | a run that has come to rest has returned as many left as right calls: as many as arrived on the side with fewer |
| Exchange.RestReturnsFewer | payload/sp/Exchange.hh:17-55 | the same counted over the arrivals among the actions: at rest as many calls of either side have returned as the side with fewer arrivals has |
| CircularBufferModule.Deleted | payload/sp/CircularBuffer.hh:80-85 | moving the later elements down by one and dropping the last place deletes one element and keeps the order of the rest |
| CircularBufferModule.CircularBuffer.constructor | payload/sp/CircularBuffer.hh:95-97 | an empty queue of that capacity |
| CircularBufferModule.CircularBuffer.Front | payload/sp/CircularBuffer.hh:24-30 | the first element, or nothing when empty |
| CircularBufferModule.CircularBuffer.Back | payload/sp/CircularBuffer.hh:32-38 | the last element, or nothing when empty |
| CircularBufferModule.CircularBuffer.Get | payload/sp/CircularBuffer.hh:60-66 | the element at a logical position, for every wrap position of the front |
| CircularBufferModule.CircularBuffer.Set | payload/sp/CircularBuffer.hh:64-66 | writing through the index operator changes that element of the queue and no other |
| CircularBufferModule.CircularBuffer.PushBack | payload/sp/CircularBuffer.hh:40-48 | appends and returns true, or changes nothing and returns false when full |
| CircularBufferModule.CircularBuffer.PopFront | payload/sp/CircularBuffer.hh:50-54 | drops the head |
| CircularBufferModule.CircularBuffer.Remove | payload/sp/CircularBuffer.hh:78-86 | deletes exactly the indexed element and keeps the order of the rest, for every wrap position of the front |
| CircularBufferModule.CircularBuffer.Contains | payload/sp/CircularBuffer.hh:68-76 | whether some element equals the needle |
| CircularBufferModule.CircularBuffer.Reset | payload/sp/CircularBuffer.hh:88-92 | leaves the queue empty |
| NodeTable.HoldsParts | stub/Archive.cc:121-126 | a table that holds a forest holds its first node, then that node's children and, from its end index, its siblings |
| NodeTable.DirAtHolds | payload/revolution/dvd.c:48-50 | the row of any directory of the tree ends just past its descendants, and its contents follow it in the table |
| NodeTable.DirAtIsDir | payload/revolution/dvd.c:44-46 | a row is a directory exactly when the tree has a directory at that index |
| NodeTable.FlattenBounds | stub/Archive.cc:79-84 | in a flattened tree a directory row names a parent inside the table and ends beyond itself, inside the table |
| NodeTable.LastChainEnds | payload/sp/U8Iterator.cc:50-59 | all directories around the last node of a forest end where the forest ends, however many they are |
| NodeTable.PopEndsStep | payload/sp/U8Iterator.cc:50-59 | popping every directory that ends at the next index leaves exactly the directories around the next node |
| NodeTable.ChainNests | payload/sp/U8Iterator.cc:50-59 | the directories around a node all end after it, inner ones no later than outer ones, and all inside the forest |
| NodeTable.PopEndsOutermost | payload/sp/U8Iterator.cc:50-65 | popping off a stack that refused the inner directories leaves the outermost of what popping off the whole chain leaves |
| NodeTable.DeepestChain | payload/sp/U8Iterator.hh:68-68 | some node has as many directories around it as the tree is deep |
| NodeTable.ChainEncloses | payload/sp/U8Iterator.cc:50-65 | the directories around a node in the tree are, in order, the directory rows whose index span covers it in the table |
| NodeTable.EnclosingAre | payload/sp/U8Iterator.cc:50-65 | those rows stand at increasing indices and are exactly the directory rows at or before the node whose end lies beyond it |
| U8IteratorModule.Tour.StackStep | payload/sp/U8Iterator.cc:50-65 | popping and pushing into ten places along a well-formed table leaves the ten outermost directories around each row, at any depth |
| U8IteratorModule.Tour.StackEncloses | payload/sp/U8Iterator.cc:34-65 | after a row has been yielded the stack is the list of directory rows whose span covers that row, the row itself included if it is a directory, or the ten outermost of them |
| U8IteratorModule.Tour.LookedUp | payload/sp/U8Iterator.cc:13-78 | in a well-formed table a file is looked up under the name offsets of the at most ten outermost directory rows whose span covers it, in order, and then its own; that decides whether it has data and which |
| U8IteratorModule.Tour.YieldReaches | payload/sp/U8Iterator.cc:34-86 | the same of a call that reaches the row: what it yields, and the file data at hand after it |
| U8IteratorModule.Tour.TenPlacesSuffice | payload/sp/U8Iterator.hh:68-68 | the stack is that whole list at every row of a well-formed table if and only if directories nest at most 10 deep |
| U8IteratorModule.Tour.KeptAre | payload/sp/U8Iterator.cc:46-48 | the rows left to be yielded are, in increasing order, exactly those that do not look like roots |
| U8IteratorModule.Tour.KeptIsAll | payload/sp/U8Iterator.cc:46-48 | in a well-formed table those are all rows after the roots |
| U8IteratorModule.U8Iterator.constructor | payload/sp/U8Iterator.hh:64-70 | the walk starts before the first row with an empty stack of ten places |
| U8IteratorModule.U8Iterator.Reset | payload/sp/U8Iterator.cc:7-11 | the walk starts over |
| U8IteratorModule.U8Iterator.PopClosed | payload/sp/U8Iterator.cc:50-59 | pops exactly the trailing directories that end at the row just read |
| U8IteratorModule.U8Iterator.Next | payload/sp/U8Iterator.cc:34-86 | on any table: passes over exactly the rows with name offset 0 or 1, yields the next row and leaves the stack as its pops and push leave it, or yields nothing at the end; in a well-formed table what it yields and the file data at hand are those of the lookup along the enclosing directories |
| U8IteratorModule.U8Iterator.YieldRow | payload/sp/U8Iterator.cc:50-85 | the part after the root test: pops, pushes or looks the file up |
| U8IteratorModule.U8Iterator.WalkAll | payload/sp/U8Iterator.cc:34-86 | on any table a whole walk yields every row that does not look like a root exactly once and in order; in a well-formed one those are all rows after the roots |
| U8IteratorModule.U8Iterator.GetPath | payload/sp/U8Iterator.cc:13-32 | the path has one component for each directory on the stack, in order from the bottom, and then the file's own |
| U8CursorModule.U8Cursor.Read | payload/sp/U8Cursor.cc:7-19 | reads and advances, or refuses and stays; the buffer's last byte is never read |
| U8CursorModule.U8Cursor.ReadU24 | payload/sp/U8Cursor.cc:51-62 | the masked and shifted bytes are the big-endian 24-bit value |
| U8CursorModule.U8Cursor.ReadU32 | payload/sp/U8Cursor.cc:64-73 | the big-endian word at the position |
| U8CursorModule.U8Cursor.ReadU8Header | payload/sp/U8Cursor.cc:80-96 | the four header words in order, or nothing when the buffer is too short |
| U8CursorModule.U8Cursor.ReadNode | payload/sp/U8Cursor.cc:98-114 | four reads make up exactly one table row, or nothing when the buffer is too short |
| U8CursorModule.U24 | payload/sp/U8Cursor.cc:57-60 | the three shifted bytes are ORed without overlap |
| NodeTable.WordLow24 | stub/Archive.cc:69-69 | a row's first word under the mask 0xffffff is the 24-bit name offset the cursor reads |
| NodeTable.RowBytes | payload/sp/U8Cursor.cc:98-114 | a row byte by byte: the directory flag, a 24-bit name offset, then a file's offset or a directory's parent, then its size or end |
| WU8.DecodeUndoesEncode | payload/sp/WU8Library.cc:502-578 | decoding what the matching encoder made of an archive gives the archive back, apart from the magic, which becomes the plain one |
| WU8.StartingKeyBits | payload/sp/WU8Library.cc:497-500 | each bit of the starting key is the parity of that bit in the four bytes of the size |
| WU8.MixBits | payload/sp/WU8Library.cc:540-541 | an original adds its bytes half, a third and a quarter of the way in |
| WU8.DerivedBits | payload/sp/WU8Library.cc:511-541 | each bit of the second key is the parity of the starting key's and of those of every object file once |
| WU8.OtherBytesUnderKey | payload/sp/WU8Library.cc:513-516 | metadata is under the starting key; what is neither metadata nor file data is under none |
| WU8.DecodedBits | payload/sp/WU8Library.cc:502-578 | each bit of a decoded byte, spelled out for metadata, object files and other files, behind the four magic bytes |
| WU8.FileBytesUnderKey | payload/sp/WU8Library.cc:540-574 | in a well-laid archive each byte of an object file is under the starting key and its cyclic original, each byte of another file under the derived key |
| WU8.TableUndisturbed | payload/sp/WU8Library.cc:522-574 | at every point of the two file passes the node table still being read is as the metadata pass left it |
| WU8.XorRange | payload/sp/WU8Library.cc:514-516 | puts exactly that range under the key |
| WU8.XorOriginal | payload/sp/WU8Library.cc:543-556 | puts a file's bytes under the starting key and the original, which starts over when it runs out |
| WU8.ObjectPass | payload/sp/WU8Library.cc:529-557 | after the first pass all object files and no others are decoded, and the derived key folds in three bytes of every original, in walk order |
| WU8.OtherPass | payload/sp/WU8Library.cc:558-574 | after the second pass every file is decoded |
| WU8.MetaPass | payload/sp/WU8Library.cc:503-520 | the header is read and the metadata it announces is put under the starting key, which uncovers the table |
| WU8.DecodeWU8 | payload/sp/WU8Library.cc:502-578 | for every well-laid archive each output byte is the closed form of its input byte, although the table is read from the buffer being changed |
| WU8.HeaderClear | payload/sp/WU8Library.cc:513-574 | no byte of the header of a well-laid archive is under a key |
| WU8.EncoderEncodes | payload/sp/WU8Library.cc:502-578 | every plain archive with well-laid data, put under its keys, meets all that the decoder relies on |
| WU8.SmallArchive | payload/sp/WU8Library.cc:513-574 | a directory with one file is well laid out |
| WU8.RoundTrip | payload/sp/WU8Library.cc:502-578 | for every plain archive with well-laid data, the decoder run on its encoding restores it behind the plain magic |
| ArchiveModule.StrncmpIsPrefix | stub/Archive.cc:118-120 | `strncmp` over the segment's length accepts exactly the names that begin with the segment |
| ArchiveModule.CStringIs | stub/Archive.cc:141-150 | a string is exactly the bytes up to the first zero byte, and missing exactly when there is none |
| ArchiveModule.Segment | stub/Archive.cc:103-104 | a segment holds no '/' and ends at one or at the end of the path |
| ArchiveModule.WalkJoined | stub/Archive.cc:98-139 | a name, a '/' and more lead to the first child whose name begins with that name and on from there, a name alone to that child |
| ArchiveModule.FindChildIsFirst | stub/Archive.cc:107-127 | the child found is the first of the siblings whose name begins with the segment |
| ArchiveModule.NestedPath | stub/Archive.cc:98-139 | "a/b" leads to the file b in the directory a |
| ArchiveModule.FindChildIsExact | stub/Archive.cc:104-127 | scanning a directory finds the exactly named child, or rightly nothing, if and only if no merely extending name comes before every exact one |
| ArchiveModule.ShadowComesFirst | stub/Archive.cc:107-127 | under a shadow the scan finds a child that ends, with all its descendants, before an exactly named one begins |
| ArchiveModule.WalkIsExact | stub/Archive.cc:98-139 | for every tree and path, lookup by prefixes gives what exact lookup gives if and only if no segment is shadowed on the way or both fail |
| ArchiveModule.ExtensionShadows | stub/Archive.cc:118-120 | a concrete tree in which looking up a name finds an earlier, longer one |
| ArchiveModule.HeaderPasses | stub/Archive.cc:24-50 | for an image that fits no sum or product of the header checks wraps, and every check passes |
| ArchiveModule.PassesExactly | stub/Archive.cc:24-50 | where nothing can wrap, the checks hold if and only if the magic bytes are there and the root row, the table and the metadata announced lie where they should |
| ArchiveModule.WrappingTablePasses | stub/Archive.cc:41-50 | a concrete header whose table wraps passes every check |
| ArchiveModule.Archive.RowsInData | stub/Archive.cc:41-50 | for an accepted header the rows of all allowed numbers lie in the data if and only if the end of the table does not wrap |
| ArchiveModule.Archive.constructor | stub/Archive.cc:21-53 | ok exactly when the 32-bit checks pass; the table then lies in the data exactly when its end does not wrap |
| ArchiveModule.Open | stub/Archive.cc:21-53 | opening the image of a tree succeeds and the object then represents that tree |
| ArchiveModule.Archive.GetString | stub/Archive.cc:141-150 | the string up to its terminator, or nothing when the data ends first |
| ArchiveModule.Archive.GetByNumber | stub/Archive.cc:59-96 | for any accepted header and any number whose row lies in the data, wrapping or not, the row as an item, or nothing for a bad number, name, span or extent |
| ArchiveModule.Archive.ItemSound | stub/Archive.cc:68-95 | for any row exactly when it gives an item, and which one |
| ArchiveModule.Archive.ExtentInData | stub/Archive.cc:87-94 | the extent of a file item lies in the data if and only if its end does not wrap |
| ArchiveModule.Archive.NodeItem | stub/Archive.cc:59-96 | in an archive that represents a tree every node can be got, with its own name, and a directory spans exactly its descendants |
| ArchiveModule.Archive.FindInDirectory | stub/Archive.cc:107-130 | on any table in the data the scan ends, stays inside the table and computes the scan the lemmas below are about |
| ArchiveModule.Archive.ScanMeans | stub/Archive.cc:107-127 | on any table the scan ends inside the directory's span with a match or a bad row, or beyond it with the last item rejected |
| ArchiveModule.Archive.TakenBegins | stub/Archive.cc:118-130 | the item taken for a match begins with the segment if and only if the scan has not left the span |
| ArchiveModule.Archive.ScanStaysInSpan | stub/Archive.cc:107-130 | it does not leave the span when every directory in it ends by its end |
| ArchiveModule.Archive.RejectedTaken | stub/Archive.cc:121-130 | a rejected directory that spans more than the one it stands in is taken |
| ArchiveModule.Archive.StrangerTaken | stub/Archive.cc:121-130 | a concrete table in which that happens |
| ArchiveModule.Archive.ScanOfTree | stub/Archive.cc:107-130 | on a tree the scan stops at the first direct child whose name begins with the segment, or at the end of the directory |
| ArchiveModule.Archive.GetByPath | stub/Archive.cc:98-139 | on any table in the data, malformed or not, it follows the path scan by scan from the first row; on a tree that is the walk down the tree, a trailing separator ignored |
| ArchiveModule.Archive.FlatWalkJoined | stub/Archive.cc:102-133 | on a name, a '/' and more the lookup goes on from the item the scan ends with, unless that is nothing or the scan ends exactly at the directory's end |
| ArchiveModule.Archive.FlatWalkOfTree | stub/Archive.cc:98-139 | on a tree following a path through the table is the walk down the tree |
| Dvd.FastOpenDir | payload/revolution/dvd.c:35-52 | succeeds exactly for the number of a directory and then stands before its first child; on failure nothing changes |
| Dvd.ReadDir | payload/revolution/dvd.c:54-74 | yields the entry at the location and moves past it and its descendants, or yields nothing outside the directory's range |
| Dvd.ReadDirStep | payload/revolution/dvd.c:67-71 | that move lands on the next sibling in the tree |
| Dvd.ListDir | payload/revolution/dvd.c:35-74 | reading any directory of any tree to the end lists each direct child exactly once, in order, and then stops |
| KartRollbackModule.RunKeepsHistory | payload/game/kart/KartRollback.cc:29-86 | over every run in which race and server times do not decrease, the buffer is sorted after every call if and only if each call keeps the order; it then holds at most 60 frames and none newer than what was seen |
| KartRollbackModule.StepKeepsHistory | payload/game/kart/KartRollback.cc:29-86 | a call of `calcEarly` or `calcLate` keeps the buffer sorted if and only if the server is less than 2^31 frames behind, nothing is left to queue its frame behind, or no place is left |
| KartRollbackModule.DelayTells | payload/game/kart/KartRollback.cc:38-39 | the signed difference tells a past server frame from a future one if and only if the server is less than 2^31 behind and at most 2^31 ahead |
| KartRollbackModule.FarServerUnsorts | payload/game/kart/KartRollback.cc:36-43 | the instance in which it fails: after `calcLate` a server 2^31 frames or more behind leaves the buffer out of order |
| KartRollbackModule.FutureFrameAppliesNothing | payload/game/kart/KartRollback.cc:44-49 | after any server frame taken for a future one, in an ordered history, no buffered frame has the previous race time, so none is applied |
| KartRollbackModule.RunAppliesNothing | payload/game/kart/KartRollback.cc:29-49 | the same at every such frame of every run with non-decreasing times that has kept the order before it |
| KartRollbackModule.FindTimeIs | payload/game/kart/KartRollback.cc:44-49 | a frame is found if and only if one has that time, and it is the first |
| KartRollbackModule.PopBeforeIs | payload/game/kart/KartRollback.cc:111-113 | exactly the leading frames before the time leave |
| KartRollbackModule.HandleFutureIs | payload/game/kart/KartRollback.cc:109-117 | a future frame is queued behind what is left unless that is 60 frames |
| KartRollbackModule.HandlePastMisses | payload/game/kart/KartRollback.cc:119-124 | a past frame that is not in the buffer only makes older ones leave |
| KartRollbackModule.DelayIs | payload/game/kart/KartRollback.cc:38-38 | the delay is the difference of the times as a signed 32-bit number |
| KartRollbackModule.EarlyIs | payload/game/kart/KartRollback.cc:37-43 | a server frame not behind the race is handled as a future one, one behind it as a past one |
| KartRollbackModule.NextTimersIs | payload/game/kart/KartRollback.cc:134-147 | the server's respawn timers one frame on, for all 16-bit values |
| KartRollbackModule.TimersMeet | payload/game/kart/KartRollback.cc:128-151 | what a frame's timers become: the server's value in the same phase, 1 in the other, 0 when the server runs none |
| KartRollbackModule.NextBoostIs | payload/game/kart/KartRollback.cc:162-164 | a boost timer one frame on, for all 16-bit values |
| KartRollbackModule.RespawnPassAt | payload/game/kart/KartRollback.cc:125-152 | the frame at index j is corrected with the server's respawn timers j frames on |
| KartRollbackModule.BeforeRespawnCountsDown | payload/game/kart/KartRollback.cc:134-137 | a running pre-respawn timer counts down to 0, the respawn then starts at 1, runs to 110 and ends |
| KartRollbackModule.InRespawnCountsUp | payload/game/kart/KartRollback.cc:144-147 | a running respawn timer counts up to 110 and then stays 0 |
| KartRollbackModule.PhasesAgreeWhen | payload/game/kart/KartRollback.cc:127-154 | for any two frames the phases agree after the first loop if and only if, before it, the server waited only where the front did not respawn (or both ran both timers) and respawned only where the front did not wait |
| KartRollbackModule.RebaseAt | payload/game/kart/KartRollback.cc:155-176 | what the rebase makes of every field of every buffered frame |
| KartRollbackModule.RebaseMeetsServer | payload/game/kart/KartRollback.cc:155-176 | the front's position, rotation, speed and boost timers become the server's |
| KartRollbackModule.RebaseKeepsDisplacements | payload/game/kart/KartRollback.cc:167-176 | the position, speed and rotation between any two buffered frames are kept |
| KartRollbackModule.RebaseBoosts | payload/game/kart/KartRollback.cc:155-166 | a corrected boost timer at index j is max(server - j, 0); one that agreed at the front is left alone |
| KartRollbackModule.HandlePastRebases | payload/game/kart/KartRollback.cc:119-179 | a past frame found in the buffer: if the frames are compatible the front becomes the server's frame, its respawn timers too unless both frames run both, and displacements stay; otherwise only respawn timers change |
| KartRollbackModule.HandlePastKeepsOneTimer | payload/game/kart/KartRollback.cc:127-152 | whatever the server reports, no frame ends with both respawn timers running if none had before |
| KartRollbackModule.KartRollback.constructor | payload/game/kart/KartRollback.cc:15-15 | the history starts empty |
| KartRollbackModule.KartRollback.CalcEarly | payload/game/kart/KartRollback.cc:29-49 | the new history is that of the step function, and nothing happens to a local player or without a server frame; a frame is handed on if and only if one in the new history has time (time - 1) mod 2^32, and it is the first such |
| KartRollbackModule.KartRollback.CalcLate | payload/game/kart/KartRollback.cc:61-86 | for a remote player a frame newer than the last is appended, the oldest of 60 making room; otherwise nothing happens |
| KartRollbackModule.KartRollback.PopOld | payload/game/kart/KartRollback.cc:111-113 | drops exactly the leading frames before that time |
| KartRollbackModule.KartRollback.HandleFutureFrame | payload/game/kart/KartRollback.cc:109-117 | old frames leave and the server's frame joins if there is room |
| KartRollbackModule.KartRollback.HandlePastFrame | payload/game/kart/KartRollback.cc:119-179 | the in-place loops over the wrapping buffer compute the history the lemmas are about |
| KartRollbackModule.KartRollback.RebaseOnto | payload/game/kart/KartRollback.cc:155-176 | the boost and displacement loops compute the rebase |
| KartRollbackModule.KartRollback.CorrectRespawn | payload/game/kart/KartRollback.cc:125-152 | the respawn loop carries the server's timers along the buffer |
| KartRollbackModule.KartRollback.CorrectBoost | payload/game/kart/KartRollback.cc:155-166 | one boost timer is corrected along the buffer if the front's differs |
| KartRollbackModule.KartRollback.Move | payload/game/kart/KartRollback.cc:172-176 | every frame is moved by the same deltas |
| PatcherModule.BranchWordFields | payload/sp/Patcher.c:41-42 | the shifted, masked and ORed word has opcode 18, the low 26 bits of the distance without the last two, and the link bit, in disjoint fields |
| PatcherModule.BranchGoes | payload/sp/Patcher.c:41-42 | decoded as an I-form branch the word is relative with the given link bit, and goes to its target if and only if the distance is a multiple of 4 in [-2^25, 2^25) |
| PatcherModule.PassElsewhere | payload/sp/Patcher.c:25-67 | a pass changes no byte that is not in a target or thunk of a patch it applies |
| PatcherModule.PassDoes | payload/sp/Patcher.c:25-67 | among separate patches each one of the pass's binary is done, against the memory the pass started from |
| PatcherModule.BothPasses | payload/sp/Patcher.c:13-67 | by address: a patch into the DOL range is done by the pass with 1 and stays done, one into the rest of the REL range by the pass with 2, and neither pass changes what no patch into its own range overwrites |
| PatcherModule.BinaryRanges | payload/sp/Patcher.c:13-23 | an address belongs to 1 exactly in the DOL range, to 2 exactly in the rest of the REL range, and to neither elsewhere |
| PatcherModule.PassByRange | payload/sp/Patcher.c:48-53 | the pass with 1 applies a patch exactly when it goes into the DOL, the pass with 2 exactly when it goes into the REL; unknown kinds are passed over |
| PatcherModule.DoneMeans | payload/sp/Patcher.c:33-63 | what a patch being done means in bytes: the copy, or the branch and the thunk's two words |
| PatcherModule.ReachesIs | payload/sp/Patcher.c:41-41 | the distances a branch can encode, around 2^32 |
| PatcherModule.HookTransfers | payload/sp/Patcher.c:40-46 | reaching a hooked address whose target is in range goes to the target, linking as asked |
| PatcherModule.FarHookMisses | payload/sp/Patcher.c:41-41 | out of range it goes elsewhere |
| PatcherModule.ThunkStep | payload/sp/Patcher.c:55-58 | two steps from the thunk do what the original instruction did at its own address, for any instruction that does not depend on its address |
| PatcherModule.ThunkRuns | payload/sp/Patcher.c:55-58 | so a run of any length from the thunk in patched memory is the original run from the hooked address, while it stays on unpatched code |
| PatcherModule.HooksKeepMeaning | payload/sp/Patcher.c:25-67 | both facts for every branch patch from an address in either range after both passes |
| PatcherModule.Memcpy | payload/sp/Patcher.c:63-63 | copies the source bytes to the destination and changes nothing else |
| PatcherModule.ApplyPatch | payload/sp/Patcher.c:55-65 | the thunk words and then the patch are stored |
| PatcherModule.PatcherPatch | payload/sp/Patcher.c:25-67 | one call computes the pass the lemmas are about |
| MapFileModule.Hex | generate_symbol_map.py:44-44 | the digits printed for a number have that number as their base-16 value |
| MapFileModule.HexLength | payload/sp/MapFile.cc:26-26 | an address of the map prints with eight digits |
| MapFileModule.LineIs | generate_symbol_map.py:44-44 | a printed line character by character, its digits upper-case |
| MapFileModule.LineExample | generate_symbol_map.py:44-44 | 0x800060A4 and "main" print as expected |
| MapFileModule.ParseLineIs | payload/sp/MapFile.cc:100-112 | a line gives a symbol exactly when it is `0x`, eight hexadecimal digits, a space and a name |
| MapFileModule.DigitIs | payload/sp/MapFile.cc:67-75 | the value of digits in either case |
| MapFileModule.NextMoves | payload/sp/MapFile.cc:83-98 | found or not, a call leaves the position at the end of the next line that is not empty |
| MapFileModule.ItemsIncrease | generate_symbol_map.py:43-43 | the sorted items have strictly increasing addresses and are exactly the dictionary's |
| MapFileModule.NextOfPrinted | payload/sp/MapFile.cc:78-113 | on a printed line, or on the newline before it, the parser returns that symbol and stops on the newline behind it, or returns nothing for an empty name |
| MapFileModule.RoundTrip | payload/sp/MapFile.cc:78-113 | parsing a printed map of addresses from 0x80000000 up and one-line names gives the symbols up to the first empty name |
| MapFileModule.NamedIsAll | payload/sp/MapFile.cc:107-110 | those are all of them if and only if no name is empty |
| MapFileModule.MapReadsBack | generate_symbol_map.py:24-44 | for every symbol table with one-line names, parsing the map made from it gives back the whole map if and only if no name in the map is empty |
| MapFileModule.GreatestBelow | payload/sp/MapFile.cc:115-141 | over increasing addresses the search result is the entry with the greatest address strictly below the query, or the first entry if there is none |
| MapFileModule.PrintedLookup | payload/sp/MapFile.cc:115-141 | looking an address up in a printed map finds the symbol whose range contains it |
| MapFileModule.DictionaryHolds | generate_symbol_map.py:24-40 | the dictionary holds, for each address from 0x80000000 up, the last name listed for it, and nothing else |
| MapFileModule.LastNameIs | generate_symbol_map.py:40-40 | the last name is that of the last entry with the address |
| MapFileModule.SymbolMapIs | generate_symbol_map.py:24-44 | the map has strictly increasing addresses and exactly the last name of every address from 0x80000000 up |
| MapFileModule.FillDictionary | generate_symbol_map.py:24-40 | the first loop builds that dictionary |
| MapFileModule.WriteMap | generate_symbol_map.py:42-44 | the second loop writes the printed list |
| MapFileModule.GenerateSymbolMap | generate_symbol_map.py:24-44 | both loops together print that map |
| MapFileModule.GetSymbolAddress | payload/sp/MapFile.cc:54-76 | the value of `0x` and eight hexadecimal digits at the start of the line, or nothing |
| MapFileModule.MapFile.GetNextSymbol | payload/sp/MapFile.cc:78-113 | the next line's symbol and the position behind it, as the specification functions say |
| MapFileModule.MapFile.SymbolLowerBound | payload/sp/MapFile.cc:115-141 | the search over all parsed symbols, or nothing when no map is loaded |
| DriverManagerModule.BehindTheTie | payload/game/race/DriverManager.cc:67-69 | for any order of equal teams, standing behind the tie in front is the same as some team having a higher total |
| DriverManagerModule.InTheTie | payload/game/race/DriverManager.cc:71-73 | for any order of equal teams, a tie in front is the same as another team having the same total |
| DriverManagerModule.JudgedOnce | payload/game/race/DriverManager.cc:43-82 | totals and scores determine the outcome, so the order of equal teams does not matter |
| DriverManagerModule.JudgedMeans | payload/game/race/DriverManager.cc:67-82 | what each outcome says about the totals and the scores, spelled out |
| DriverManagerModule.TeamFaresAlike | payload/game/race/DriverManager.cc:67-73 | players of one team do badly together and draw together |
| DriverManagerModule.SomeTeamUnbeaten | payload/game/race/DriverManager.cc:67-69 | some team is always unbeaten |
| DriverManagerModule.TeamCountIs | payload/game/race/DriverManager.cc:43-43 | the team count is the least number of teams of that size with a place for everyone |
| DriverManagerModule.OnePlayerMore | payload/game/race/DriverManager.cc:45-48 | one player more adds a member and the score to that player's team and to no other |
| DriverManagerModule.NoTeamIsEmpty | payload/game/race/DriverManager.cc:43-43 | when no team has more players than the maximal size, every team below the count has one |
| DriverManagerModule.EmptyTeamDraws | payload/game/race/DriverManager.cc:43-73 | a concrete race in which a team without players shares the first place |
| DriverManagerModule.AddScores | payload/game/race/DriverManager.cc:44-48 | each team's score is the sum over its players |
| DriverManagerModule.Sort | payload/game/race/DriverManager.cc:54-55 | the team ids end in descending order of score and are still each at exactly one place |
| DriverManagerModule.Indices | payload/game/race/DriverManager.cc:57-60 | the index array inverts the sorted order |
| DriverManagerModule.TiedInFront | payload/game/race/DriverManager.cc:62-65 | the tie in front is as long as it can be |
| DriverManagerModule.RankTeams | payload/game/race/DriverManager.cc:43-65 | a team's place in some descending order, and the tie in front of that order |
| DriverManagerModule.GetTeamPlayerOutcome | payload/game/race/DriverManager.cc:26-82 | with teams, Bad exactly when another total is higher, Draw exactly when the best total is shared, else Good or Best by whether some player has a higher score; without, by rank against half the field and 5 |

## Left out

- Operating system primitives: mutexes, thread queues and interrupt masking are assumed to do what their names say. The scheduler is any choice of the next runnable call.
- `Exchange` with different types for the two sides: both sides offer one type of value. A call's number, kept with its offer, exists for the proofs only.
- Heap ownership, `release`, destructors and logging in the decoders; a failed allocation.
- The LZMA and WBZ decoders: thin wrappers over vendored code.
- A source of 2^32 bytes or more cannot be passed to the encoder, whose size argument is 32 bits wide.
- YAZDecoderModule.Decode: asks for a positive size on both sides once the header is sound, because the source asserts that the decoder is not done before it starts.
- The decoders' three uninitialised fields are arbitrary arguments of the constructors; the results are proved not to depend on them.
- ArchiveModule.Archive.constructor: needs data of at most 2^32 - 13 bytes, because beyond that the header itself can be read past the end. `get(u32)` on a row outside the data, which an accepted but wrapping table allows, reads memory that is not modelled, and path lookup is stated for tables that lie in the data.
- `Archive` iterates pointers into the data; names and paths are values here, so aliasing between a returned name and the data is not captured.
- U8IteratorModule.U8Iterator.Next: a failing file read (an error item) is not modelled, nor the text formatting and 64-character limit of `getPath`. A later row with name offset 0 or 1 is skipped, as the source does, so `StackStep` and the decoder are stated for tables without one.
- Storage is a fixed function from a path to optional bytes; a path is the list of its name offsets, since one string table serves a whole walk.
- WU8.DecodeWU8: is stated for archives whose files are clear of each other, the header and the metadata and whose originals are non-empty; anything else overwrites data it still needs or indexes an empty buffer. The panics and the assertion on the magic are preconditions. The extraction thread of the library is not modelled.
- The path-to-entry conversion behind `DVDOpenDir` is not part of this model; the entry number of a directory is an `int`, the table a sequence.
- KartRollbackModule.DelayTells: the signed subtraction is taken to wrap, which C++ leaves undefined; it overflows only when the times, read as signed values, are 2^31 or more apart.
- Rounding, quaternion numerics, `applyFrame`, the smoothing deltas and all effects on the game in `KartRollback`; getters of the game's state are arguments.
- PatcherModule.HooksKeepMeaning: assumes patches whose targets, thunks and sources are apart, and an original instruction that does not depend on its address; instructions other than the I-form branch are a parameter, and running code does not change memory.
- PatcherModule.Memcpy: asks for operands that do not overlap, as C does.
- Cache flushes and invalidations in `Patcher_patch`.
- Reading the symbol table, the name clean-up and the demangling in the map generator: it starts from addresses and final names. Loading the map from storage, `ScoreMatch` and the printing of an address are not modelled.
- MapFileModule.RoundTrip: is stated for names without a line break, since a name with one prints as two lines.
- DriverManagerModule.GetTeamPlayerOutcome: asks for team ids below the team count and at most six teams, the size of the source's arrays; totals are unbounded, since twelve 16-bit scores cannot wrap a 32-bit sum.
- DriverManagerModule.Sort: stands for the library sort, and nothing beyond its contract is used.
- Hardware, console services, networking, rendering, menus, sound, presence and the build scripts: input and output or presentation.
