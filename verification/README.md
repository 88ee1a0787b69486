# Hillside: ratchets, history and catch-up

A model of the three parts of Hillside that must agree for a late joiner to read a room, with
proofs that they do.

- **Ratchets** (`Ratchets`, `Windows`, `WrapAround`, `Sessions`, `Network`). All members of a room
  share one hash ratchet. A session keeps a leading and a trailing ratchet, two mutable objects.
  `Windows` says what the pair can decrypt with two numbers, `floor` (trailing) and `high` (leading);
  theorems about runs are about the two numbers. `WrapAround` has the loops on raw 64-bit indices,
  where they may wrap or never end: where both ratchets land from any two positions (`Landed`), the
  exact condition under which they land at all (`Returns`), and the exact condition under which they
  land where `Windows` says (`Fits`). `Sessions.RoomSession` has the same loops over the mutable
  ratchets, proved against `Landed` from any state. `Network` puts any number of clients on a network
  that loses, repeats and reorders, and says when no key is used twice.
- **History** (`Tables`, `BatchWriter`, `History`, `LastIndexCache`, `CacheLock`, `Peers`, `Paging`). The
  tables with their unique index, the batching writer as a step system in which every interleaving of
  enqueues, receives, timer flushes, stop and drain is a run, the manager classes that take exactly
  these steps, the `lastIndex` cache and the lock around it.
- **Catch-up** (`Frames`, `CatchUpCodec`, `CatchUp`, `Chat`, `Join`, `EndToEnd`, `WholeWay`,
  `ReplayLimits`). The byte-level frames, the payload, the answer, validation and saving at the joiner,
  the replay through the ratchets, and the end-to-end theorems: what is typed or displayed at a member,
  stored by its writer in any batches, is what a newcomer sees, and how far that brings the newcomer.

HKDF, HMAC, ChaCha20-Poly1305, signature verification, JSON and gzip are arbitrary functions passed as
parameters. `Primitives.Lawful` and `Codecs.Lawful` are what is assumed of them where a result needs it:
opening undoes sealing and nothing shorter than a tag opens; JSON and gzip round-trip. `Consistency`
exhibits functions that satisfy both, and `WholeWay.FirstWordReachesNewcomer` an instance in which all
hypotheses of the end-to-end theorems hold. `Codecs.Frameable` says that each message marshals to a slice
the run-time can make. Clocks, database faults, arrivals from the network and the order of concurrent
steps are parameters too. 64-bit arithmetic is written out; the masks and shifts of the frame lengths
are operations on 64-bit vectors.

Dependencies run `MachineInts` < `Frames` < `Ratchets` < `Windows`, `Tables` < `WrapAround` < `Sessions`,
`BatchWriter` < `History`, `Peers` < `CatchUpCodec`, `LastIndexCache`, `CacheLock` < `CatchUp`, `Chat`,
`Paging` < `Join` < `EndToEnd` < `WholeWay`, `ReplayLimits`.
`dafny verify dfyconfig.toml` checks everything.

## Where the code is not what it says

- `GetLatestMessages` (history.go:395-406) returns the first rows by chain index; they are the latest
  exactly when the room has no more than the limit (`ReplayLimits.LatestAreReturnedExactly`). A replay
  therefore brings the lead past everything stored exactly when the limit does not cut it short
  (`ReplayLimits.LeadIsPastTableExactly`, with 200 rows at a rejoin and 100 from a catch-up). Where it
  does, and the next index is stored, the next send seals a second text under that message's key and
  nonce, and the table drops it (`ReplayLimits.NextSendIsDroppedExactly`; `ReplayLimits.LongRoomsAreCutShort`
  is the input).
- `GetMessagesSinceChainIndex` (history.go:333-338) is documented with `>` and selects with `>=`; the two
  agree exactly when no row has that index (`ReplayLimits.SinceIsAfterExactly`).
- `GetLastIndex` (history.go:176-190) takes the write lock under its own read lock when it fills the
  cache. Such a call never returns, and no goroutine updates or begins to read the cache again
  (`CacheLock.FillFreezesCache`, `CacheLock.LookupReturnsExactly`).
- `chatHandler` (chat.go:51-65) shows a failed validation to the user and then decrypts and stores the
  message all the same. A message without a signature is so displayed, reported saved and cached, and is
  not in the table (`Chat.UnsignedMessageMovesCache`). A stored message that does not validate later
  makes a joiner's catch-up fail as a whole (`EndToEnd.JoinShowsMergedHistory`).
- Nothing makes a sender wait for what others have sent: two clients that send before they hear each other
  use one key and nonce for two texts. Indices are distinct exactly when each sender's lead is past
  everything sent before (`Network.IndicesDistinctExactly`, `Network.TwoPublishersShareKey`).
- The replay dereferences an absent sender (handlers.go:371): of readable messages, it finishes exactly
  when each sender is known or its lookup fails (`EndToEnd.ReplayEndsExactly`). A joiner asked to
  decompress a bad payload dereferences nil before it looks at the error (helpers.go:124), and the decode
  loop and the replay dereference what a JSON null leaves nil (history.go:265, handlers.go:353). These are
  `NilSender`, `Crash`, `Panic` and `NilMessage` in the model.
- Other promises that hold under a condition, which is proved exactly: the decryption loops on uint64
  (`WrapAround.ExactTermination`, `WrapAround.ExactSafety`), the cache bound
  (`History.SaveKeepsBoundExactly`), termination of paging (`Paging.PagingIsComplete`), and the constant
  start index of an answer (`CatchUp.AnswerFitsExactlyStartZero`).

## Model

| member | source | states |
|---|---|---|
| Frames.EncodeLength | internal/storage/helpers.go:9-14 | the descending mask-and-shift loop on a 64-bit word leaves the eight big-endian bytes of the length |
| Frames.WriteFrame | internal/storage/helpers.go:8-22 | writes the big-endian length, then the data |
| Frames.DecodeLength | internal/storage/helpers.go:29-32 | the shift-and-or loop on a 64-bit word yields the number its eight bytes spell |
| Frames.ValueOfWord | internal/storage/helpers.go:10-32 | no bit of a length is lost in a word: popping bytes undoes pushing them, up to eight |
| Frames.ReadFrame | internal/storage/helpers.go:24-38 | every outcome of the read on any stream: a frame and the exact rest, an error by how the stream ends, or the run-time's refusal of the length |
| Frames.NumberOfBigEndian | internal/storage/helpers.go:10-14 | reading back a header gives the number written, for any width that holds it |
| Frames.LeastSignificantLast | internal/storage/helpers.go:10-14 | the least significant byte comes last, behind zeros for a number below 256 |
| Frames.FrameReadsBack | internal/storage/helpers.go:8-38 | a frame followed by any suffix reads back its data and leaves exactly the suffix |
| Frames.CutFrameStops | internal/storage/helpers.go:24-37 | a frame cut at any byte is never read as a frame; it stops with the stream's own ending |
| Frames.BigEndianIsInjective | internal/crypto/ratchetkey.go:14-15 | distinct indices give distinct HKDF info |
| Ratchets.LabelSpellsRatchet | internal/crypto/ratchetkey.go:29-31 | the label under which the chain key steps is the word ratchet |
| Ratchets.RoomRatchet.NextKey | internal/crypto/ratchetkey.go:12-34 | material from chain key and index, then chain key replaced by its HMAC and index stepped with wrap-around |
| Ratchets.RoomRatchet.KeyHere | internal/crypto/ratchetkey.go:12-34 | from a position of the chain it yields the key of that position, a pure function of the origin, and moves to the next, across the wrap of the index too |
| Ratchets.RoomRatchet.Clone | internal/crypto/ratchetkey.go:36-46 | a fresh object with the same state |
| Ratchets.EncryptMessage | internal/crypto/messages.go:43-55 | seals under the key of the ratchet's position and steps it |
| Windows.RunKeepsOrder | internal/client/handlers.go:384-408 | over every run of sends and receives floor <= high, and neither falls |
| Windows.InOrderRunsAreAccepted | internal/client/handlers.go:384-408 | arrivals that start at the initial index and strictly increase are all accepted, whatever the gaps and the sends between them |
| Windows.LateMessagesAccepted | internal/client/handlers.go:401-408 | messages behind the lead are all accepted if and only if they strictly increase from the floor up |
| Windows.ReorderingWindow | internal/client/handlers.go:394-408 | after a run of future arrivals with the lead at R, late messages in [max(start, R-9), R) are accepted in increasing order |
| Windows.TenthIsTooLate | internal/client/handlers.go:394-399 | the window is no wider: R-10 is refused where R-9 is not |
| Windows.SendsAreFresh | internal/client/chat.go:124-132 | a sent index is above every index this session sent or received before |
| Windows.AcceptedAtMostTwice | internal/client/handlers.go:388-408 | over any run a key is derived on receipt at most twice for an index, at most once for one this session sent |
| Windows.TwiceHappens | internal/client/handlers.go:388-408 | twice is reached |
| WrapAround.ExactSafety | internal/client/handlers.go:388-408 | below 2^64, on uint64 the loops end with both ratchets where Windows says if and only if the index is behind the lead, or c <= 2^64-3 and floor <= 2^64-11 |
| WrapAround.ExactTermination | internal/client/handlers.go:388-408 | from any two ratchet states the loops end if and only if the index is behind the lead's or at most 2^64-3 |
| WrapAround.LargestIndexNeverReturns | internal/client/handlers.go:388-400 | for index 2^64-1 the outer loop, once entered, never exits, from any state |
| WrapAround.LandedInWindow | internal/client/handlers.go:388-408 | below 2^64 the loops end where Windows says, or else with the backup a whole round of indices past the lead, at the right index with another chain key; either way they yield the key of the message's own index, or none below the floor |
| WrapAround.LandedMoves | internal/client/handlers.go:388-408 | from any two ratchet states neither ratchet goes back, the key taken is one for the message's own index, and none is taken if and only if the index is behind both ratchets' |
| WrapAround.SafeRunsFit | internal/client/handlers.go:388-400 | arrivals up to 2^64-12 fit over whole runs until the sends reach 2^64 |
| WrapAround.SafeIndicesAlwaysFit | internal/client/handlers.go:388-400 | indices up to 2^64-12 fit in every state reached by such indices |
| WrapAround.AdvanceKeepsFuel | internal/client/handlers.go:388-400 | the outcome of the loops does not depend on the bound used to describe them |
| Sessions.RoomSession.SetInitialRatchet | internal/client/session.go:96-99 | both ratchets start at the same position and are two objects |
| Sessions.RoomSession.DecryptMessage | internal/client/handlers.go:384-419 | from any ratchet states, whenever the loops end: both ratchets where the loops on indices land, and what the last key derived opens, or no key; below 2^64 that is the key of the message's own index, and if the message fits, the window is the one Windows prescribes |
| Sessions.RoomSession.AdvanceLead | internal/client/handlers.go:388-400 | the nested loops over the two ratchets, from any states: they end where the loops on indices end, with the last key of the lead |
| Sessions.RoomSession.WalkBackup | internal/client/handlers.go:401-408 | the branch behind the lead: the backup itself moves to where the loop on its index ends, with its last key, or nothing moves and no key is derived |
| Sessions.RoomSession.SealMessage | internal/client/chat.go:119-132 | the label Index-1 is the index of the position sealed under, even when the index has just wrapped |
| Sessions.InOrderRunsGetTheirKeys | internal/client/handlers.go:384-418 | in an in-order run in which each arrival fits, decryptMessage opens each message under the key of its own index |
| Network.DeliveriesAgree | internal/client/handlers.go:384-418 | for any number of clients and any loss, repetition and reordering, before a lead wraps: decryptMessage on each delivery that fits yields the sender's text if and only if its index is at or above the receiver's floor, else no key |
| Network.StepsAreHandlers | internal/client/handlers.go:384-418 | publishing and delivery move a client exactly as SealMessage and DecryptMessage do, and no other |
| Network.IndicesDistinctExactly | internal/client/chat.go:124-132 | over any run in which newcomers enter behind what was sent, no two packets carry one index if and only if each sender's lead was past everything sent before |
| Network.TwoPublishersShareKey | internal/client/chat.go:124-132 | two fresh clients that send before they hear each other seal two texts under one key and nonce |
| Tables.Store.SaveEnvelope | internal/storage/history.go:304-331 | insert-or-ignore under the partial unique index and NOT NULL; success is reported either way |
| Tables.Store.GetMessagesSinceChainIndex | internal/storage/history.go:334-393 | the first rows of the room at or above an index, signed comparison included, no limit when it is not positive |
| Tables.Store.GetLatestMessages | internal/storage/history.go:396-451 | the first rows of the room in replay order |
| Tables.Store.GetLatestChainIndex | internal/storage/history.go:454-472 | an index some row of the room has and no row exceeds; no rows exactly when the room has none; an error exactly on a fault |
| Tables.LatestChain | internal/storage/history.go:455-460 | the largest chain index is attained and bounds every other |
| Tables.InsertKeepsConsistent | internal/storage/storage.go:99-112 | inserting keeps growing ids, with or without gaps, NOT NULL and the unique index |
| Tables.MergeAddsExactlyTheMissing | internal/storage/history.go:302-331 | a merge keeps every row in place and makes an index present if and only if it was there or was offered |
| Tables.FirstOfferIsStored | internal/storage/history.go:303-331 | the first storable message with an index the table lacks is the one whose row is kept |
| Tables.MergeIsIdempotent | internal/storage/history.go:303-331 | merging twice is merging once if and only if every storable message carries a chain index |
| Tables.SelectIsCorrect | internal/storage/history.go:335-348 | a query returns, in order, each wanted row as often as the table has it and no other |
| Tables.MessagesSinceAreWanted | internal/storage/history.go:334-349 | what the query returns is of the room, at or above the index, strictly increasing and within a positive limit |
| Tables.WantedRowsAreReturned | internal/storage/history.go:334-349 | it leaves a wanted row out only when a positive limit is reached by smaller indices |
| Tables.LatestMessagesExactly | internal/storage/history.go:396-406 | as many of the room's rows as the limit allows, first those with an index and by it, then the others by time |
| Tables.ChainedRowsIncrease | internal/storage/history.go:335-340 | with the unique index in force, the rows come in strictly increasing chain order |
| MachineInts.ColumnKeepsValueNotOrder | internal/storage/history.go:305-307 | an index survives the signed column, its order only within one half of the range |
| Tables.Store.SaveUser | internal/storage/peer_manager.go:73-101 | replace by peer id, refused without all keys |
| Peers.DirectIsLastWriteWins | internal/storage/peer_manager.go:103-144 | a lookup by id after any list of saves finds the last saved user of that id, or what was there before, or nil |
| BatchWriter.BatchingRefinesDirectWriting | internal/storage/history.go:106-164 | after any interleaving, accepted = processed + batch + queue in order; database and replies are those of direct writing; batch short of full, queue within capacity |
| BatchWriter.BatchCutsAreInvisible | internal/storage/history.go:112-164 | two runs that processed the same requests agree on database and replies, even with other batch sizes |
| BatchWriter.OneReplyEach | internal/storage/history.go:116-129 | each processed request gets one result, its own, and one close; a success exactly when its write did not fail |
| BatchWriter.TimerWritesBatch | internal/storage/history.go:159-161 | the timer is ready whenever the worker runs, and after it every received request is processed as by direct writing, each with its result and close |
| BatchWriter.ReceiveWritesFullBatches | internal/storage/history.go:150-153 | a receive takes the oldest request and writes if and only if that fills the batch |
| BatchWriter.WorkerIsNeverStuck | internal/storage/history.go:134-163 | in every reachable state which cases are ready: never none before the worker is done |
| BatchWriter.DrainServesEveryone | internal/storage/history.go:134-150 | at the final empty poll every accepted request has been written or reported failed once, and nothing later changes that |
| BatchWriter.DrainEnds | internal/storage/history.go:136-149 | without further enqueues a drain is forced step by step and over exactly after one step per queued request |
| BatchWriter.DrainIsPossible | internal/storage/history.go:65-69 | such a drain can always be carried out, so Stop returns |
| History.HistoryManager.EnqueueEnvelope | internal/storage/history.go:71-103 | appended when there is room, else refused at once with nothing changed |
| History.HistoryManager.Flush | internal/storage/history.go:112-132 | the loop over the batch is the flush of the step system on table, cache and replies |
| History.HistoryManager.TakeStep | internal/storage/history.go:134-163 | each ready case of the selects is the step of that name; a timer or the end of a drain leaves an empty batch, all of it processed |
| History.HistoryManager.WriteWorker | internal/storage/history.go:106-164 | under any schedule the worker's state is one the step system reaches |
| History.HistoryManager.SetLastIndex | internal/storage/history.go:166-173 | the room's entry becomes the larger of old and new, or new if there was none; every other entry stays |
| History.HistoryManager.GetLastIndex | internal/storage/history.go:175-190 | on the map: the cached index, else the table's, which is then cached; errors cache nothing |
| CacheLock.FillFreezesCache | internal/storage/history.go:166-190 | any number of goroutines around the read-write lock: once a lookup fills the cache it never returns, nobody who waits gets on, no lookup begins, and the cache never changes again |
| CacheLock.LookupReturnsExactly | internal/storage/history.go:175-190 | in every reachable state a lookup returns if and only if the room is cached, the query fails or the table has no index for it |
| CacheLock.UpdateGoesThrough | internal/storage/history.go:166-173 | while nobody reads or writes, an update goes through and sets the larger index |
| CacheLock.FirstLookupAfterRestartFreezes | internal/storage/history.go:175-190 | the input: a lookup in a room that the table knows and a new process has not cached |
| History.TableIsFoldOfSaves | internal/storage/history.go:106-164 | the table after any run is the fold of SaveEnvelope over the processed requests, less those whose write fails |
| History.TimerStoresEverything | internal/storage/history.go:112-161 | after a timer the table is that fold over everything accepted but not still queued, each reported by whether its write failed |
| History.FiftiethRequestIsSaved | internal/storage/history.go:150-153 | the 50th request of a batch has all of it saved, and up to the 49th nothing is touched |
| History.DrainedTableHoldsEverything | internal/storage/history.go:134-150 | after a faultless drain an index is in the table if and only if it was before or an accepted storable message carries it |
| History.WrittenRowsWereEnqueued | internal/storage/history.go:112-132 | with any faults, each row was there before or was enqueued |
| LastIndexCache.CacheNeverDecreases | internal/storage/history.go:116-190 | over every interleaving of worker steps, lookups and direct saves, with any faults, lastIndex never decreases |
| LastIndexCache.CacheNeverExceedsTable | internal/storage/history.go:116-190 | over every such interleaving, with real bytes and indices below 2^63, the cache never exceeds the table's largest index |
| LastIndexCache.CacheEqualsTable | internal/storage/history.go:116-190 | for a room that starts empty, over every interleaving of worker steps and lookups, the cache equals the table's largest index, absent when there is none |
| LastIndexCache.LookupCachesExactly | internal/storage/history.go:175-190 | a lookup caches the table's largest index for an uncached room that has one, and changes nothing otherwise |
| LastIndexCache.NamelessRoomIsNotCached | internal/storage/history.go:123-125 | over any run only a lookup caches a room without a name |
| LastIndexCache.CatchUpLeavesCacheBehind | internal/client/helpers.go:135 | a direct save leaves the cache behind the table, and a lookup does not catch it up |
| History.SaveKeepsBoundExactly | internal/storage/history.go:118-125 | one save keeps the cache bounded if and only if its row is really stored in range, or a larger index was stored before |
| History.IgnoredRowMovesCache | internal/storage/history.go:118-125 | a message without a signature is reported saved, moves the cache and is not in the table |
| Chat.UnsignedMessageMovesCache | internal/client/chat.go:46-80 | such a message arrives, is displayed and enqueued after its validation failed, and then has the cache run ahead of the table |
| Chat.OfferedIsWellFormedIfSigned | internal/client/chat.go:46-149 | of the messages a session enqueues with indices below 2^63, exactly those with a signature are stored as the cache expects |
| Peers.PeerManager.EnqueueUserEntry | internal/storage/peer_manager.go:56-71 | appended when there is room, else refused |
| Peers.PeerManager.Flush | internal/storage/peer_manager.go:239-257 | the loop over the batch is the flush of the step system |
| Peers.PeerManager.TakeStep | internal/storage/peer_manager.go:259-288 | each ready case is the step of that name; a timer or the end of a drain leaves an empty batch, all of it processed |
| Peers.LastSaved | internal/storage/peer_manager.go:73-101 | the last request for a peer whose save succeeds, if any |
| Peers.LastWriteWins | internal/storage/peer_manager.go:233-288 | between steps the batch is empty; after the drain a lookup finds the last accepted entry whose save succeeded, or what was there before |
| Paging.PagingIsComplete | internal/storage/history.go:193-223 | asking from the last index plus one ends if and only if the room has no row at 2^63-1, and then has visited each row from the start on once, in order |
| Paging.LastColumnNeverEnds | internal/storage/history.go:334-349 | with such a row every page is non-empty for ever |
| CatchUpCodec.BuildCatchUpPayload | internal/storage/history.go:193-223 | the selected messages, their gzipped frames, the index of the last one; for none, a nil payload and the cached or stored index |
| CatchUpCodec.DecompressCatchUpPayload | internal/storage/history.go:228-279 | the decode loop on every payload, with each error and panic, a JSON null included |
| CatchUpCodec.CompleteFramesIsLongest | internal/storage/helpers.go:24-37 | the count of complete frames is the longest prefix that fits |
| CatchUpCodec.TruncationGivesPrefix | internal/storage/history.go:243-275 | the frames of any messages the run-time can hold, cut at any byte, decode to exactly the messages whose frames are complete; only a checksum error makes it fail |
| CatchUpCodec.PayloadRoundTrip | internal/storage/history.go:193-279 | decoding a built payload gives the same messages in order with only the ID reset, the empty one included |
| CatchUpCodec.BadEntryEndsDecoding | internal/storage/history.go:243-265 | behind any good frames an entry that is not JSON is an error and a JSON null a nil dereference, and nothing decoded is kept |
| CatchUpCodec.BadLengthOrHeader | internal/storage/history.go:228-250 | a length the run-time refuses panics, a bad gzip header is an error, and no bytes are no messages |
| CatchUp.HelpCatchUp | internal/client/helpers.go:184-222 | the answer from the table and the stored key, always from index 0; no stored key ends the service |
| CatchUp.SaveCatchUp | internal/client/helpers.go:130-140 | saves up to the first message that does not pass, and which outcome follows |
| CatchUp.StopsAt | internal/client/helpers.go:130-176 | the first message that fails validation or crashes the loop |
| CatchUp.RequestCatchUp | internal/client/helpers.go:91-149 | five attempts, the first arrival decides; rows and result for each kind of arrival |
| CatchUp.FirstArrival | internal/client/helpers.go:91-97 | a timeout if and only if all attempts time out, else the arrival before which all did |
| CatchUp.OnlyValidMessagesAreAdded | internal/client/helpers.go:130-176 | rows stay; each added row is a message before the first refused one, of a sender known under its own id, not from the future, and signed with the sender's key over the payload |
| CatchUp.StopsAtExactly | internal/client/validation.go:29-43 | the loop stops exactly at the first message that breaks one of these conditions, or without an index meets a failing write |
| CatchUp.SuspectMessageFailsRequest | internal/client/helpers.go:130-134 | one such message ends the request: those before it are saved, neither it nor any after it is, and the request fails |
| CatchUp.CleanAnswerYieldsItsRatchet | internal/client/helpers.go:115-141 | if no message is suspect all are saved, and the ratchet is the one of the index and key in the answer |
| CatchUp.UnindexedWriteFaultCrashes | internal/client/helpers.go:135-138 | a failing write of a message without an index crashes the request |
| CatchUp.BadAnswerChangesNothing | internal/client/helpers.go:112-129 | an answer with an error fails and one that does not decode crashes, without touching a row |
| CatchUp.AnswerMergesExactly | internal/client/helpers.go:115-141 | an answer adds exactly the missing indices of its valid prefix, and yields a ratchet if and only if all validate |
| CatchUp.AnswerFitsExactlyStartZero | internal/client/helpers.go:213-216 | the constant index 0 in an answer gives the member's keys if and only if the stored index is 0 |
| Chat.SendMessage | internal/client/chat.go:118-149 | the ratchet steps in any case; the message is queued only if published and there is room, under room, server, sender, time and signature in their places |
| Chat.HearMessage | internal/client/chat.go:46-80 | one turn of the receive loop: ratchets; display and queue of the decrypted message under its sender, a zero timestamp replaced by the clock; nothing if it does not open; the end of the loop on an unreadable payload |
| Chat.HistoryIsFaithful | internal/client/chat.go:46-149 | whatever is said and heard with indices below 2^63, each queued message reads back as the text typed or displayed, and comes from one event of its own, in order, with that event's sender, type, time, signature, and this room and server |
| Chat.NothingIsHeardAfterTheLoop | internal/client/chat.go:46-49 | after an unreadable payload nothing more is displayed |
| Join.ReplayMessages | internal/client/handlers.go:341-382 | messages in order until one cannot be shown; ratchets, display and status, nil dereferences included |
| Join.ReplayComesToEnd | internal/client/handlers.go:341-418 | payload indices up to 2^64-3 make a replay come to an end from any ratchet states |
| Join.JoinRoom | internal/client/handlers.go:289-321 | ratchet from stored auth, without a change to the table, or from a catch-up; without readable auth or a response it fails with nothing changed; then the replay from a fresh pair |
| EndToEnd.ReplayShowsEverything | internal/client/handlers.go:347-380 | readable messages in increasing order are all shown with their texts, times and the senders of the peers table, unknown only where the lookup fails; the lead ends behind the last |
| EndToEnd.ReplayEndsExactly | internal/client/handlers.go:347-380 | a replay of readable messages finishes if and only if each sender is known or its lookup fails; else it dies at the first absent one, with exactly the messages before it shown |
| EndToEnd.UnshowableMessageEndsReplay | internal/client/handlers.go:347-358 | a message that does not parse, is null, stale or does not open ends the replay with its status and exactly the messages before it shown |
| EndToEnd.LatestIsReadableRun | internal/storage/history.go:396-406 | a readable table lists its room in strictly increasing chain order |
| EndToEnd.RejoinShowsOwnHistory | internal/client/handlers.go:306-320 | rejoining with one's own table shows everything the query returns |
| EndToEnd.MergedTableIsReadable | internal/client/helpers.go:130-141 | a catch-up from a readable table keeps the joiner's table readable and its senders known |
| EndToEnd.JoinShowsMergedHistory | internal/client/handlers.go:289-380 | whatever readable rows the joiner had: it joins and shows the merged history if every answered message validates, and fails otherwise |
| EndToEnd.NewcomerSeesTheirHistory | internal/client/helpers.go:115-141 | a joiner without rows sees exactly the member's first 100 messages, in chain order with their texts, and its lead is right behind the last of those; it joins if and only if all validate |
| EndToEnd.FirstJoinShowsTheirHistory | internal/client/handlers.go:289-321 | without stored auth and with a member's answer as the first of five attempts to bring anything: joined if and only if no answered message is suspect, then showing the member's first 100; else failed, with nothing shown and no ratchet |
| EndToEnd.LaterJoinShowsOwnHistory | internal/client/handlers.go:306-320 | with stored auth: no row changes, the replay starts at the stored index and key, and shows one's own first 200; joined if and only if each sender is known or its lookup fails |
| EndToEnd.JoinWithoutAnswerFails | internal/client/handlers.go:293-304 | with unreadable auth, or with none and no response but ones that name an error, the join fails and changes nothing |
| EndToEnd.UnshowableMessageEndsJoin | internal/client/handlers.go:318-321 | a message that cannot be shown ends the join at it: a crash for a JSON null, a failure otherwise |
| WholeWay.WrittenTableIsReadable | internal/storage/history.go:106-164 | whatever the writer's faults, the member's table is readable and each row of the room was there before or is one its session offered |
| WholeWay.WhatIsSaidIsReadAfterJoining | internal/client/handlers.go:289-382 | chat from any window, any run of the writer, table, answer, merge and replay together: the newcomer joins if and only if no answered message is suspect, and then sees the answer in chain order, each text under its sender's id, said by that sender at the member's or stored there before |
| WholeWay.EveryAcceptedMessageIsDisplayed | internal/client/handlers.go:289-382 | after a faultless drain the first accepted message with an index is displayed to the newcomer with its text, sender and time, if fewer than 100 smaller indices are stored |
| WholeWay.FirstWordReachesNewcomer | internal/client/chat.go:118-149 | an instance from the first send, through a run of the writer, to the newcomer's display, for any primitives, codecs and signatures that work |
| ReplayLimits.LatestAreReturnedExactly | internal/storage/history.go:395-406 | the query returns the latest messages of a room if and only if the room has at most as many as the limit |
| ReplayLimits.SinceIsAfterExactly | internal/storage/history.go:333-349 | the query returns what is documented if and only if the room has no row at the index itself |
| ReplayLimits.LeadIsPastTableExactly | internal/client/handlers.go:341-380 | a replay from a fresh pair brings the lead past every stored index if and only if the room has at most as many rows as the limit |
| ReplayLimits.NextSendIsDroppedExactly | internal/client/chat.go:118-146 | the send after a replay is a second message under a stored index and its key, and dropped by the table, if and only if the first row left out is adjacent to the last one covered |
| ReplayLimits.NewcomerIsCaughtUpExactly | internal/client/helpers.go:115-141 | both for a first join, about the answering member's table and its first 100 rows |
| ReplayLimits.RejoinerIsCaughtUpExactly | internal/client/handlers.go:341-380 | both for a later join, about one's own table and its first 200 rows |
| ReplayLimits.LongRoomsAreCutShort | internal/client/handlers.go:341-380 | the input: any number of consecutive messages above the limit |

## Left out

- Sessions.RoomSession.DecryptMessage: requires `Returns`, because otherwise the handler never comes back (WrapAround.ExactTermination) and its ratchets run on for ever.
- Sessions.RoomSession.AdvanceLead: same as Sessions.RoomSession.DecryptMessage.
- Chat.HearMessage: same as Sessions.RoomSession.DecryptMessage; a session on which that has happened is followed no further.
- Join.ReplayMessages: requires that the replay comes to an end, for the same reason; Join.ReplayComesToEnd says when it does.
- Join.JoinRoom: same as Join.ReplayMessages.
- Network.DeliveriesAgree: deliveries that do not fit, and publishing after a lead has wrapped, are not steps of the network.
- Network.IndicesDistinctExactly: for clients that enter with a lead at the start or behind something published; one whose stored index lies further ahead is not covered.
- History.HistoryManager.GetLastIndex: the operations on the map, with which LastIndexCache goes on after a fill; that such a call never returns is in CacheLock.
- CatchUpCodec.BuildCatchUpPayload: same as History.HistoryManager.GetLastIndex, for a room that has no row from the index on and is not cached.
- Tables.InsertKeepsConsistent: the model gives out the next id; that an ignored insert may use one up is only allowed for, as gaps in the tables that results start from.
- Chat.HistoryIsFaithful: for indices below 2^63, above which the signed column changes their order.
- WholeWay.WhatIsSaidIsReadAfterJoining: in the same range.
- Frames.ReadFrame: the length from which the run-time refuses to make a slice, and memory that runs out before it, is one parameter.
- Unlocked concurrency inside a handler: the code takes no lock around the ratchets; send and receive are atomic steps here.
- Mutexes and channels: a queue is a sequence and a flush one step; of the mutexes only the one around the cache is modelled (CacheLock). An unbuffered queue would hand requests to a waiting worker; the program makes it 1024 long.
- The timer: a flush may happen at any point at which the worker runs; stopping and resetting the timer is not modelled.
- The nesting of the drain inside the main loop of the writers is a phase of the worker.
- SQL text and the engine: queries are their meaning on rows; ties among rows without a chain index fall to insertion order.
- DeleteOlderThan, which has no caller and would break the cache bound.
- The topic set-up, publishing and envelope checks around a catch-up request or answer, the UI, the pubsub layer, the hub, profiles and stored auth beyond its result.
- A non-chat envelope on the chat topic, and strings that are not valid UTF-8, for which the JSON round trip does not hold.
- Errors of key derivation, which needs 44 bytes and so never fails.
- The room and server names that a displayed message carries beside sender, time and text.
