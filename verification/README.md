# Verified models of the messenger's core

This project models the parts of a federated end-to-end encrypted messenger in
which state, loops and arithmetic meet, and proves what they keep over whole
runs. Code that changes things step by step is modelled by methods with loops,
arrays and classes; each method is proved against a function on values, and
the theorems are lemmas about these functions. `dafny verify dfyconfig.toml`
checks everything.

| file | subject |
|---|---|
| `Attachments.dfy` | chunked attachment encryption: one-shot, streaming, decryption |
| `Truncation.dfy` | what opens of a chunked ciphertext that was cut short |
| `Queue.dfy`, `Sync.dfy`, `Send.dfy`, `Relay.dfy` | the message queue: cursor pages, delivery marking, sending, federated transactions |
| `StoredMessages.dfy`, `SyncAnswers.dfy` | which rows the queue comes to hold; what one sync call answers, marks and reports |
| `Inbox.dfy` | the client's event list, merged from pages |
| `Watching.dfy` | following the cursor while messages keep arriving |
| `Rooms.dfy`, `MemberLists.dfy`, `SenderKeys.dfy` | room membership on the server, sender keys and rekeying on the client |
| `KeyHolders.dfy` | who can open a text sealed with a sender key |
| `RoomTexts.dfy` | what a room message consists of and who can read it |
| `Coordinator.dfy` | the mesh coordinator: addresses under a lock, saves, crashes |
| `ConfigRequests.dfy` | what a registration or a repeated request finds and leaves |
| `Reissue.dfy` | when a told address may later go to another node |
| `SafetyNumber.dfy`, `Decimal.dfy` | the safety number and decimal notation |
| `Download.dfy` | the resumable download |
| `Tokens.dfy`, `TokenAnswers.dfy` | access tokens, revocation and cleanup |
| `Prekeys.dfy`, `PrekeyAnswers.dfy`, `PrekeyRuns.dfy`, `KeyDirectory.dfy` | one-time prekeys and their replenishment |
| `ReportedIds.dfy` | when the id reported for a replenishment was used before |
| `ColumnEncryption.dfy`, `Migration.dfy` | encrypted columns and the in-place migration |
| `TrustedKeys.dfy` | the record of confirmed identity keys |
| `RequestSigning.dfy` | signed requests between servers |
| `Allowlist.dfy` | the allowlist of federated servers and its file |
| `AuthenticatedEncryption.dfy`, `Buffers.dfy`, `Strings.dfy`, `Arithmetic.dfy`, `Wrappers.dfy` | shared definitions |

`StoredMessages`, `SyncAnswers`, `RoomTexts`, `ConfigRequests`, `TokenAnswers` and
`PrekeyAnswers` say of each operation what it answers and all that it changes, in
terms of the request and the tables and not of the step functions that the
methods are proved against. Some of these statements are one case of one
operation; the table below names the others.

How the outside world enters: ciphers are records of functions constrained by
their round trip and their 16 bytes of overhead; hashes are arbitrary
functions; the clock, random values, server answers and failing statements are
parameters, so that every pattern of them is covered. A table is a sequence or
a map, and each SQL statement is one step on it.

Some expected properties do not hold of the code in every case. For these the
model keeps the code as it is and states exactly when the property holds:

* Following Sync's cursor loses a row exactly when a page ends between two rows
  of the same creation time (`Sync.DrainIsComplete`, `Sync.TieLosesRow`).
* A first load drops the newest row it fetched and takes the cursor from the
  last-but-limit row of the history. The newest row is lost exactly when it is
  still queued, newer than the page's oldest row and not newer than the cursor
  (`Sync.FirstLoadExactly`): at limit 1 the cursor is its own time, at other
  limits this takes newest rows of one time (`Sync.FirstLoadTie`).
* A Send retry gives the original id exactly when the insert of the
  idempotency key had succeeded, whose error is ignored (`Relay.RetryExactly`).
* `/v1/config` answers a known key from memory before it is saved. That address
  may later go to another node exactly when the state file has no token or has
  not counted past it (`Reissue.RepeatIsSafeExactly`;
  `Coordinator.UnsavedRepeatMayClash` is a run in which it does). Number 0 is
  given exactly when the token was asked for before the first node came
  (`Reissue.ZeroIsGivenExactly`).
* A sender key is stored before it is distributed, so a listed member may be
  unable to open later texts; it can exactly when the send that created the key
  was posted and could be encrypted for it (`KeyHolders.HoldersExactly`).
* A token handed out is accepted only if its row was recorded, although an error
  of that insert is ignored (`Tokens.IssuedTokenIsValidExactly`).
* Rows but not key ids of prekeys are handed out once: a cleanup or revocation
  keeps the reported next id exactly when it leaves a row with the largest id, or
  the id is 1 before and after (`ReportedIds.ReportedIdIsKeptExactly`). While the
  largest row stays every reported id is new (`ReportedIds.ReportedIdIsNew`).
  With the largest 64-bit id stored the sum wraps
  (`PrekeyRuns.ReportedIdsAreFreeExactly`).
* The payload of a signed request is rebuilt exactly for URLs without a
  fragment, an escape in the path or an empty query
  (`RequestSigning.PathSurvivesExactly`), so a request for a user's devices only
  if the name needs no escape (`RequestSigning.NamedPathSurvivesExactly`); the time
  window also admits the one timestamp 2^63 seconds back, where both
  subtractions wrap (`RequestSigning.WindowExactly`).
* An appended domain is read back exactly when the last line of the allowlist
  file was blank (`Allowlist.AppendIsReadBackExactly`).
* Two (recipient, device) pairs share a trust entry when one names no device
  and its recipient spells out the other pair (`TrustedKeys.EntriesMeetExactly`).
* The chunked decryptor also accepts one trailing box that seals nothing after
  a full last chunk (`Attachments.DecryptsExactly`), and, when the hash is not
  checked, a ciphertext cut exactly between two boxes (`Truncation.CutOpensExactly`).

## Model

| member | source | states |
|---|---|---|
| Attachments.ChunkNonceInjective | web/src/crypto/e2ee.ts:101-107 | two chunk nonces are equal exactly when the indices agree modulo 2^32 |
| Attachments.NoncesDistinctExactly | web/src/crypto/e2ee.ts:101-107 | the nonces of n chunks are pairwise distinct exactly for n up to 2^32 |
| Attachments.AttachmentNoncesDistinct | web/src/crypto/e2ee.ts:98-107 | under the 50 MB limit no chunk size makes one attachment repeat a nonce; that these are the nonces in the ciphertext is `Attachments.ChunkedIsInPlace` |
| Attachments.ChunkNonce | web/src/crypto/e2ee.ts:101-107 | 24 bytes, of which the last four are the index modulo 2^32, big-endian, and the others zero |
| Attachments.ChunkedIsInPlace | web/src/crypto/e2ee.ts:130-143 | the slice of the chunked ciphertext from i * (chunk + 16) on is the box of bytes i * chunk on under the nonce of i, for every i, and the length leaves no room for more |
| Attachments.SmallFilesRepeatNoNonce | web/src/crypto/e2ee.ts:98-137 | the nonces of the boxes of a file of at most 50 MB are pairwise distinct |
| Attachments.SealedSize | web/src/crypto/e2ee.ts:130-143 | the chunked ciphertext has ceil(n / chunk) boxes and n bytes plus 16 for each |
| Attachments.SealedAt | web/src/crypto/e2ee.ts:131-137 | box i seals the bytes from i * chunk on as chunk i; its nonce is given by `Attachments.ChunkedIsInPlace` |
| Attachments.SealAll | web/src/crypto/e2ee.ts:130-137 | the loop by offset cuts as the recursive definition does |
| Attachments.EncryptAttachment | web/src/crypto/e2ee.ts:110-146 | a single box under the given nonce up to the chunk size; above it the slice of the ciphertext from i * (chunk + 16) on is the box of chunk i under the nonce of i, nothing else is there, and no nonce occurs twice; the hash is that of the ciphertext |
| Attachments.Grow | web/src/crypto/e2ee.ts:182-185 | the regrown buffer holds the old bytes followed by the read |
| Attachments.Remaining | web/src/crypto/e2ee.ts:189-191 | the rest of the buffer in a buffer of its own |
| Attachments.SealFullChunks | web/src/crypto/e2ee.ts:187-195 | sealing full chunks off the buffer keeps what will have been sealed in the end and leaves less than a chunk |
| Attachments.SealStream | web/src/crypto/e2ee.ts:174-202 | for every split into reads, also empty ones, the boxes are those of the whole file |
| Attachments.EncryptAttachmentFromFile | web/src/crypto/e2ee.ts:149-213 | the same for the streaming encryptor, for every split into reads, or the size error |
| Attachments.OpenAll | web/src/crypto/e2ee.ts:236-258 | the decryptor's loop over offsets opens box after box, or fails at the first that does not open |
| Attachments.DecryptAttachment | web/src/crypto/e2ee.ts:224-265 | a hash mismatch exactly if a hash is given and differs, the opened box for a single box, and for chunks what `Attachments.DecryptsExactly` and `Attachments.RoundTrip` describe |
| Attachments.RoundTrip | web/src/crypto/e2ee.ts:110-265 | what either encryptor made decrypts to the file, for every length and positive chunk size, hash checked or not |
| Attachments.OpensExactly | web/src/crypto/e2ee.ts:236-258 | chunked opening gives p exactly for the encryptors' ciphertext of p, perhaps with an empty trailing box |
| Attachments.DecryptsExactly | web/src/crypto/e2ee.ts:236-258 | the same for the whole decryptor, with the condition for the trailing box spelled out |
| Truncation.CutBetweenBoxesOpens | web/src/crypto/e2ee.ts:236-258 | the first i boxes open as the first i chunks |
| Truncation.CutOpensExactly | web/src/crypto/e2ee.ts:236-258 | a prefix of a ciphertext opens exactly when it ends between two boxes, given that a cut box does not open |
| Queue.InsertKeepsOrder | server/internal/relay/relay.go:147-151 | an inserted row keeps the queue in order of creation |
| Queue.InsertKeepsDistinctIds | server/internal/relay/relay.go:147-151 | inserting a row with a new id keeps ids unique |
| Sync.PageAscends | server/internal/relay/relay.go:252-343 | every page, also a reversed first load, lists its rows oldest first |
| Sync.PageShrinks | server/internal/relay/relay.go:324-343 | a non-empty page advances the cursor and leaves strictly fewer rows for the next call |
| Sync.DrainIsComplete | server/internal/relay/relay.go:252-343 | following the cursor returns every waiting visible row once and in order, and marks only the incoming rows of the last page, exactly when no page ends between rows of equal time |
| Sync.DrainWithDistinctTimes | server/internal/relay/relay.go:252-343 | with distinct creation times nothing is lost for any cursor and limit |
| Sync.TieLosesRow | server/internal/relay/relay.go:252-327 | when a page ends between two rows of one time, the second of them is on no page after it |
| Sync.FirstLoadExactly | server/internal/relay/relay.go:256-343 | for any queue and limit, what the first page and the pages from its cursor miss: nothing, unless the newest of more rows than the limit is queued, newer than the page's oldest row and not newer than the cursor |
| Sync.FirstLoadWithDistinctTimes | server/internal/relay/relay.go:256-343 | with distinct times only limit 1 can lose a row |
| Sync.FirstLoadTie | server/internal/relay/relay.go:310-327 | at limit 2, of three queued rows of which the newer two have one time, the third never arrives |
| Sync.AfterLongFirstLoad | server/internal/relay/relay.go:310-327 | the page and all later pages of a first load that was trimmed |
| Sync.ReversedTwice | server/internal/relay/relay.go:317-322 | reversing twice gives the rows back |
| SyncAnswers.WantedExactly | server/internal/relay/relay.go:252-271 | a call wants a row exactly if it goes to the viewer or a room or comes from the viewer and, after a cursor, is queued and newer |
| SyncAnswers.MarkedExactly | server/internal/relay/relay.go:330-343 | a row is delivered afterwards exactly if it was or its id is that of an incoming row of a last page; nothing else about it changes |
| SyncAnswers.NoticesExactly | server/internal/relay/relay.go:332-337 | the notices name exactly the senders and ids of the rows not from the viewer |
| SyncAnswers.NoticeForEach | server/internal/relay/relay.go:332-337 | each incoming row has its own notice, in order |
| SyncAnswers.ReportedExactly | server/internal/relay/relay.go:330-343 | a call reports exactly the incoming rows of a last page |
| SyncAnswers.LastPageExactly | server/internal/relay/relay.go:252-343 | the last page of a drain begins after whole pages and is not empty |
| Inbox.MergedIds | web/src/components/Chat.tsx:535-541 | a merge holds exactly the ids of the list and of the page |
| Inbox.MergedRows | web/src/components/Chat.tsx:535-541 | a merge holds the old rows and the decoded rows of the page whose id is not in the list |
| Inbox.MergeKeepsDistinctIds | web/src/components/Chat.tsx:535-541 | merging a page of distinct rows never doubles an id |
| Inbox.MergeTwice | web/src/components/Chat.tsx:535-541 | a repeated answer adds nothing |
| Inbox.MergeOneByOne | web/src/components/Chat.tsx:535-541 | merging two pages without a common id one by one is merging them at once |
| Inbox.PollIsComplete | web/src/components/Chat.tsx:521-549 | on a queue that does not change, polling appends every waiting row the client does not hold, once and in order, if no page ends between rows of equal time |
| Watching.SelectOfInsert | server/internal/relay/relay.go:261-266 | a message that arrives takes its place among the rows a call selects |
| Watching.NothingIsLost | server/internal/relay/relay.go:252-343 | however calls and arrivals at new, later times follow each other, what the client got and what waits for it are the rows that waited at first and all visible arrivals, each once and in order |
| Send.RoomCallPassesExactly | server/internal/relay/relay.go:70-96 | a call to a room address passes the checks exactly when it is not more than 300 seconds old or 60 ahead, the room is local and the sender is a member; which error each failure gives |
| Send.UserCallPassesExactly | server/internal/relay/relay.go:70-117 | a call to a user address passes exactly when it is timely, the domain is local and the named user exists; which error each failure gives |
| Send.SendIsSafe | server/internal/relay/relay.go:66-165 | a send keeps ids unique, every stored message and every recorded key, and an accepted id is stored |
| Send.AcceptIsSafe | server/internal/relay/relay.go:185-210 | a transaction, with repeats and failing statements, keeps all messages, stores every accepted id and answers for each event once |
| StoredMessages.InsertAddsOne | server/internal/relay/relay.go:147-151 | an insert adds exactly the row with this id, content and time, queued, unless the id is taken or the statement fails |
| StoredMessages.SendStoresItsMessage | server/internal/relay/relay.go:121-165 | any other accepted send makes the queue, as a multiset, the old one and exactly its own row, and records its key unless that insert fails; a taken id or a failing insert changes nothing |
| StoredMessages.ArrivalIsAnswered | server/internal/relay/relay.go:185-210 | each event of a transaction is found, or stored with its own content and time and accepted, or rejected |
| StoredMessages.AcceptedRowHasOrigin | server/internal/relay/relay.go:185-210 | a row that a transaction adds has the id, content and time of one of its events |
| StoredMessages.EveryRowHasOrigin | server/internal/relay/relay.go:121-210 | over any run every row of the queue was there at first or has the id, content and time of a send or event of the run |
| Relay.RelayService.SendMessage | server/internal/relay/relay.go:66-165 | the call on the tables is the send step, whose checks, stored row and answer `Send.RoomCallPassesExactly`, `Send.UserCallPassesExactly` and `StoredMessages.SendStoresItsMessage` spell out |
| Relay.RelayService.Check | server/internal/relay/relay.go:70-117 | the checks in their order, each with its error |
| Relay.RelayService.AcceptTransaction | server/internal/relay/relay.go:185-210 | the loop over events is the accept function, of which `StoredMessages.ArrivalIsAnswered` says what each event adds and is answered |
| Relay.RelayService.SyncEvents | server/internal/relay/relay.go:230-346 | the call answers the page, marks the incoming rows of a last page and stores the cursor |
| Relay.RelayService.FetchPage | server/internal/relay/relay.go:252-329 | lookahead, trimming and the choice of the cursor |
| Relay.RelayService.MarkAll | server/internal/relay/relay.go:332-337 | one update per incoming row marks them all and notifies their senders |
| Relay.Assemble | server/internal/relay/relay.go:275-329 | scanning, reversing and trimming the fetched rows gives the page |
| Relay.Scan | server/internal/relay/relay.go:275-315 | the loop collects the rows and remembers the times of the last and of the limit-th row |
| Relay.ReverseEvents | server/internal/relay/relay.go:317-322 | swapping from both ends reverses the rows |
| Relay.RunIsSafe | server/internal/relay/relay.go:121-210 | over any run of sends, transactions and syncs ids stay unique, no message is lost or changed but for its status advancing, and recorded keys stay |
| Relay.RetryExactly | server/internal/relay/relay.go:121-164 | a retry that passes the checks answers with the original id, adding nothing, exactly when the key's insert had succeeded |
| Rooms.RoomService.CreateRoom | server/internal/rooms/rooms.go:64-81 | a new room is entered with its creator, who is its only member if only rooms had members |
| Rooms.RoomService.InviteMember | server/internal/rooms/rooms.go:186-197 | creators and admins add plain members; an existing member is left alone |
| Rooms.RoomService.LeaveRoom | server/internal/rooms/rooms.go:200-210 | anyone but the creator can leave |
| Rooms.RoomService.RemoveMember | server/internal/rooms/rooms.go:296-311 | who may remove whom |
| Rooms.RoomService.TransferCreator | server/internal/rooms/rooms.go:261-293 | the three updates of a transfer, or none of them |
| Rooms.RunKeepsOneCreator | server/internal/rooms/rooms.go:64-311 | over any run of the routed operations every room has exactly one creator member, the one its row names |
| Rooms.TransferMovesOnlyTheRole | server/internal/rooms/rooms.go:261-293 | a transfer keeps the member set and every other role |
| Rooms.MembersExactly | server/internal/rooms/rooms.go:64-311 | after one operation who is a member and with which role: admission only by creation or the invitation of a creator or admin, departure only by leaving or a rightful removal |
| Rooms.MembershipHasCause | server/internal/rooms/rooms.go:64-311 | over any run nobody becomes a member uninvited and nobody stops being one but by leaving or a rightful removal |
| MemberLists.SortedIsUnique | web/src/crypto/sender-keys.ts:97-102 | two sorted lists with the same members are equal |
| MemberLists.MemberSetEqualsExactly | web/src/crypto/sender-keys.ts:97-102 | true exactly for a recorded list that is a permutation of the other |
| SenderKeys.SenderKeyClient.StoreSenderKey | web/src/crypto/sender-keys.ts:39-57 | storing replaces the entry of that name only |
| SenderKeys.SenderKeyClient.DeleteSenderKey | web/src/crypto/sender-keys.ts:81-94 | deleting removes the entry of that name only |
| SenderKeys.SenderKeyClient.EncryptForRoom | web/src/components/Chat.tsx:1110-1157 | the call is the encryption step, of which `RoomTexts.FittingKeyGoesToEveryMember` and `RoomTexts.OtherwiseKeyIsAnnounced` say what is posted and stored |
| SenderKeys.SenderKeyClient.SealDirectly | web/src/components/Chat.tsx:1136-1145 | the distribution for every member it can be encrypted for |
| SenderKeys.PostForAll | web/src/components/Chat.tsx:1149-1154 | the posted texts have exactly the members as names, and each is the text sealed with the key |
| SenderKeys.DistributeExposes | web/src/components/Chat.tsx:1135-1144 | a distribution gives its own key to no one but the members and the sender |
| SenderKeys.DistributeReaches | web/src/components/Chat.tsx:1135-1144 | every member it can be encrypted for gets the new key, on every device |
| SenderKeys.RunKeepsKeysInside | web/src/components/Chat.tsx:1115-1154 | over any run a key stored with a member list went to no one outside it but the own address |
| SenderKeys.UsedKeysAreNotResent | web/src/components/Chat.tsx:1130-1144 | a key seen before is never given to anyone new |
| SenderKeys.SenderKeyStaysWithMembers | web/src/components/Chat.tsx:1115-1154 | a text sealed with a sender key uses one recorded for a permutation of the fetched list, which no other address ever gets |
| SenderKeys.OutsiderNeverGetsKey | web/src/components/Chat.tsx:1115-1154 | a user who is not a room member when such a text is sealed never gets its key, before or after |
| RoomTexts.FittingKeyGoesToEveryMember | web/src/components/Chat.tsx:1115-1154 | when a stored key fits the fetched list exactly the members get a text, each the text sealed with that key, and the store stays |
| RoomTexts.OtherwiseKeyIsAnnounced | web/src/components/Chat.tsx:1120-1145 | otherwise a new key is stored with the list and announced, with room, sender, key and text, on every device of every member it can be encrypted for; nothing is posted exactly if there is none |
| RoomTexts.DistributedCarry | web/src/components/Chat.tsx:1135-1145 | every text of a distribution carries it, and the own device gets one unless there are none |
| RoomTexts.MemberReadsExactly | web/src/components/Chat.tsx:1115-1154 | after any run, a message under the stored key has for every member a text that the member reads exactly if the send that created the key reached it |
| RoomTexts.KeyNamesDiffer | web/src/crypto/sender-keys.ts:29-31 | two storage names are equal exactly for the same room, sender and device |
| KeyHolders.DistributeExposesExactly | web/src/components/Chat.tsx:1135-1145 | a distribution gives its key to another address exactly when that is a member it can be encrypted for |
| KeyHolders.HoldersExactly | web/src/components/Chat.tsx:1115-1154 | over any run another address holds a key exactly when the send that created it was posted and could be encrypted for that member |
| KeyHolders.MissedMemberCannotOpen | web/src/components/Chat.tsx:1130-1154 | the next text for the same members is sealed with the new key also when a member was not reached, who then does not hold it |
| Coordinator.AddressInjective | mesh/coordinator/main.go:130-131 | different numbers give different addresses |
| Coordinator.Coordinator.constructor | mesh/coordinator/main.go:63-87 | a start takes over the state file |
| Coordinator.Coordinator.Save | mesh/coordinator/main.go:89-103 | a save writes the whole state |
| Coordinator.Coordinator.Admits | mesh/coordinator/main.go:115-122 | all fields are needed, and the token once there is one |
| Coordinator.Coordinator.JoinLocked | mesh/coordinator/main.go:124-159 | the locked section allocates the next address and lists the other nodes |
| Coordinator.Coordinator.ConfigLocked | mesh/coordinator/main.go:243-344 | a key in memory is told the address of the first node that has it, nothing changing; for another key a node with it is added at the next number |
| Coordinator.Coordinator.TokenLocked | mesh/coordinator/main.go:412-420 | the token is created once |
| Coordinator.CollectPeers | mesh/coordinator/main.go:142-158 | the loops keep every node with another address, in order |
| Coordinator.NewAddressIsFree | mesh/coordinator/main.go:124-140 | a new registration takes an address that no answered or pending registration has |
| Coordinator.NewRegistrationsGetOwnAddresses | mesh/coordinator/main.go:63-171 | over any interleaving of handlers, saves, crashes and restarts no two completed new registrations share an address |
| Coordinator.RepliesListAllOthers | mesh/coordinator/main.go:142-158 | after any run the reply to a node lists every other node exactly once, in order, with its key, endpoint and /32 address |
| Coordinator.BackupPeersMatch | mesh/coordinator/main.go:142-158 | the backup peers are the peers' addresses, in the same order |
| Coordinator.KnownExactly | mesh/coordinator/main.go:243-252 | the lookup finds nothing exactly if no node has the key, and otherwise the first that has it |
| ConfigRequests.NewKeyAddsNode | mesh/coordinator/main.go:124-140 | a join, or a config request whose key is not in memory, appends a node with its data at the next number |
| ConfigRequests.KnownKeyIsRepeated | mesh/coordinator/main.go:243-270 | a config request whose key is in memory is told the address of the first node with it, and nothing else changes |
| ConfigRequests.ActRepeats | mesh/coordinator/main.go:243-270 | a step adds a repeated answer only if it names a node of that key that is in memory |
| ConfigRequests.RepeatsNameNodes | mesh/coordinator/main.go:243-270 | over any run each repeated answer named an address that a node with that key had in memory |
| Coordinator.UnsavedRepeatMayClash | mesh/coordinator/main.go:243-293 | a run in which a repeated request is told an address that later goes to another node |
| Reissue.RepeatIsSafeExactly | mesh/coordinator/main.go:243-293 | after any run, the address a known key is answered with may go to another key exactly when the state file has no token or has not counted past it |
| Reissue.ReservedIsNotReissued | mesh/coordinator/main.go:63-171 | an address the file and the memory have counted past is never completed for another key |
| Reissue.JoinUntil | mesh/coordinator/main.go:124-171 | joins on an idle coordinator reach every number that is still to come |
| Reissue.ZeroIsGivenExactly | mesh/coordinator/main.go:125-131 | number 0 is given exactly to a first node that comes after the token was asked for |
| SafetyNumber.ComputeSafetyNumber | web/src/crypto/fingerprint.ts:24-50 | ordering, hashing, conversion and grouping compute the safety number |
| SafetyNumber.Compare | web/src/crypto/fingerprint.ts:34-36 | the sign of the first difference decides the order |
| SafetyNumber.ToNumber | web/src/crypto/fingerprint.ts:44-45 | the byte fold is the big-endian value |
| SafetyNumber.BigEndianFirst | web/src/crypto/fingerprint.ts:44-45 | the first byte of the hash is the most significant |
| SafetyNumber.LastSixty | web/src/crypto/fingerprint.ts:46-46 | padding and cutting keep the last sixty digits |
| SafetyNumber.Grouped | web/src/crypto/fingerprint.ts:47-49 | joining the slices puts a space after every fifth digit |
| SafetyNumber.SameOnBothSides | web/src/crypto/fingerprint.ts:24-50 | both sides compute the same number |
| SafetyNumber.NumberOfHash | web/src/crypto/fingerprint.ts:44-46 | the digits are those of the hash value modulo 10^60 |
| SafetyNumber.SpacedGroup | web/src/crypto/fingerprint.ts:47-49 | group g shows digits 5g to 5g + 4 |
| SafetyNumber.InputDeterminesPair | web/src/crypto/fingerprint.ts:27-41 | keys of one length feed equal bytes to the hash exactly when they are the same unordered pair |
| SafetyNumber.OrderOfKeys | web/src/crypto/fingerprint.ts:28-41 | the key with the smaller byte at the first difference comes first in the hash input |
| SafetyNumber.FirstDifference | web/src/crypto/fingerprint.ts:34-36 | the first difference decides the comparison |
| Download.DownloadFile | web/src/api/client.ts:171-225 | if all attempts before the k-th of five raised, were answered with a status to repeat or fell short, and the k-th completes the file, the file is the result; an exception is passed on only if the fifth attempt raised one, and which attempt each other end comes from |
| Download.ReadBody | web/src/api/client.ts:199-204 | every piece is kept and counted |
| Download.HowItEnds | web/src/api/client.ts:171-225 | each way the download ends, stated attempt by attempt, and that success at any attempt is the result |
| Download.CollectsTheFront | web/src/api/client.ts:182-225 | for any failures the bytes handed out are the front of the file, and the whole file if the last answer named its total |
| Download.HandsOutWholeFile | web/src/api/client.ts:182-225 | if cut bodies show as exceptions, whatever is handed out is the whole file |
| Download.TotalOfContentRange | web/src/api/client.ts:205-207 | the total is read back from a Content-Range in the form of section 14.4 of RFC 9110 |
| Tokens.AuthService.IssueToken | server/internal/auth/auth.go:151-189 | a fresh id, 24 hours and the row, unless its insert fails |
| Tokens.AuthService.RegisterUser | server/internal/auth/auth.go:108-167 | a registration needs an unused device id and hands out a token |
| Tokens.AuthService.LoginUser | server/internal/auth/auth.go:284-366 | a known or a new device of the user gets a token |
| Tokens.AuthService.ValidateToken | server/internal/auth/auth.go:192-232 | which tokens are accepted |
| Tokens.AuthService.RevokeOneToken | server/internal/auth/auth.go:419-447 | a valid token's row of its user is marked |
| Tokens.AuthService.RevokeOneDevice | server/internal/auth/auth.go:594-607 | the device's rows are marked and go with the device |
| Tokens.AuthService.CleanupExpiredTokens | server/internal/auth/auth.go:611-619 | exactly the expired and long-revoked rows are deleted and counted |
| Tokens.StepSeesLiveRows | server/internal/auth/auth.go:211-218 | no operation's answer or effect depends on rows that are revoked or expired |
| Tokens.CleanupIsUnobservable | server/internal/auth/auth.go:611-619 | a run with cleanups inserted anywhere gives the answers of the run without them |
| Tokens.OnceEndedStaysEnded | server/internal/auth/auth.go:192-232 | an id without a live row never validates again |
| Tokens.IssuedTokenIsValidExactly | server/internal/auth/auth.go:151-232 | an issued token is accepted later exactly when its row was recorded, nothing revoked it or its device and its day is not over |
| TokenAnswers.AcceptedExactly | server/internal/auth/auth.go:192-232 | a token is accepted, for the user and device it names, exactly if it is signed, in time, of the right type, issuer and audience and its id has a row neither revoked nor past its time |
| TokenAnswers.DeviceRevocationExactly | server/internal/auth/auth.go:594-607 | the device goes with all its rows if it is the user's, and nothing changes otherwise |
| TokenAnswers.CleanupExactly | server/internal/auth/auth.go:611-619 | which rows stay: those not past their time nor revoked more than seven days ago, unchanged |
| Prekeys.PickIsLeast | server/internal/keydir/keydir.go:107-111 | the row handed out has the least unconsumed key id, and there is one unless all are consumed |
| Prekeys.StepKeepsSound | server/internal/keydir/keydir.go:324-363 | no operation lets a device exceed 500 unconsumed keys or repeats a row id |
| Prekeys.DeleteCount | server/internal/keydir/keydir.go:355-363 | cleanup removes no unconsumed key; deleting a device removes only its own |
| PrekeyAnswers.InsertsExactly | server/internal/keydir/keydir.go:332-349 | inserts keep all rows and add an open row for each id that was not taken; afterwards all ids are |
| PrekeyAnswers.RegistrationExactly | server/internal/auth/auth.go:108-139 | a registration enters the device and its keys exactly if the device is new and the ids are at most 500 and distinct, and is undone otherwise |
| PrekeyAnswers.StrictExactly | server/internal/auth/auth.go:125-139 | for a device without rows the failing inserts succeed exactly on distinct ids |
| PrekeyAnswers.FetchExactly | server/internal/keydir/keydir.go:104-121 | a bundle takes the open row with the least id, marks it with the time and names it if its key decrypts; a device with none open gets no key; nothing else changes |
| PrekeyAnswers.CleanupExactly | server/internal/keydir/keydir.go:355-363 | which rows a cleanup leaves |
| PrekeyAnswers.RevocationExactly | server/internal/auth/auth.go:594-607 | a revoked device takes exactly its rows with it |
| PrekeyRuns.HandedOutOnce | server/internal/keydir/keydir.go:104-121 | over any run each stored row is handed out at most once |
| PrekeyRuns.QuotaHolds | server/internal/keydir/keydir.go:324-331 | over any run no device has more than 500 unconsumed keys |
| PrekeyRuns.GenerateOneTimePrekeys | web/src/crypto/keys.ts:65-76 | one entry per key pair with consecutive ids |
| PrekeyRuns.MaxKeyIsLargest | server/internal/keydir/keydir.go:259-263 | the queried maximum is a stored id and none is larger |
| PrekeyRuns.ReportedIdsAreFreeExactly | server/internal/keydir/keydir.go:259-267 | the ids from the reported one on are free if the largest 64-bit id is not stored; if it is, 1 is reported and they are free exactly when the first ids are |
| PrekeyRuns.AllAreInsertedExactly | server/internal/keydir/keydir.go:332-349 | an ascending batch raises the open count by exactly its size if and only if none of its ids is taken |
| PrekeyRuns.ReplenishmentAddsAll | web/src/components/Chat.tsx:570-603 | with other requests between status and upload, the batch meets no conflict and raises the count by exactly its size |
| PrekeyRuns.RepeatedUploadAddsNothing | server/internal/keydir/keydir.go:341-345 | sending an upload again changes nothing |
| ReportedIds.MaxKeyIsKeptExactly | server/internal/keydir/keydir.go:259-263 | a deletion keeps the queried maximum exactly when it leaves a row that has it |
| ReportedIds.ReportedIdIsKeptExactly | server/internal/keydir/keydir.go:259-267 | for every table and deletion, when the reported id stays: the largest id stays, or 1 is reported before and after |
| ReportedIds.CleanedIdIsReportedAgain | server/internal/keydir/keydir.go:355-363 | for every table, removing the rows with the largest id makes an id not above it the next one, and 1 exactly when nothing positive stays |
| ReportedIds.ReportedIdIsNew | server/internal/keydir/keydir.go:250-363 | over any run in which no deletion takes the largest id, the reported id is above every id the device ever had |
| KeyDirectory.PrekeyTable.InsertEach | server/internal/keydir/keydir.go:332-349 | the loop of inserts passes over taken ids |
| KeyDirectory.PrekeyTable.RegisterDevice | server/internal/auth/auth.go:108-139 | all keys or, on a conflict or too many, nothing |
| KeyDirectory.PrekeyTable.LoginDevice | server/internal/auth/auth.go:294-345 | the device stays also when its keys are too many; conflicts are ignored |
| KeyDirectory.PrekeyTable.UpdateKeys | server/internal/keydir/keydir.go:324-350 | quota, then inserts that ignore conflicts |
| KeyDirectory.PrekeyTable.GetBundle | server/internal/keydir/keydir.go:104-121 | the least open row is consumed and returned |
| KeyDirectory.PrekeyTable.GetKeyStatus | server/internal/keydir/keydir.go:250-281 | the open count and an id above all stored ones, but for the largest 64-bit id |
| KeyDirectory.PrekeyTable.CleanupOldConsumedPrekeys | server/internal/keydir/keydir.go:355-363 | exactly the rows consumed more than 30 days ago go |
| KeyDirectory.PrekeyTable.DeleteDevice | server/internal/auth/auth.go:602-605 | a revoked device's rows go with it |
| KeyDirectory.Replenish | web/src/components/Chat.tsx:579-600 | below 20 open keys the client uploads a batch of 50 from the reported id, which adds exactly 50 if and only if none is taken, and always if the largest 64-bit id is not stored; else nothing changes |
| ColumnEncryption.DecryptsWhatWasEncrypted | server/internal/dbenc/dbenc.go:47-80 | every value encrypted comes back, also one that looks encrypted |
| ColumnEncryption.LegacyReadsExactly | server/internal/dbenc/dbenc.go:64-80 | a plaintext stored earlier reads as itself exactly if it does not begin with the four magic bytes |
| ColumnEncryption.EncryptedFormat | server/internal/dbenc/dbenc.go:47-61 | the stored form is the prefix, the drawn nonce and what was sealed under it |
| ColumnEncryption.ReadsExactly | server/internal/dbenc/dbenc.go:64-80 | with a key, a stored value reads as a given plaintext exactly if it is an encryption of it or, without the prefix, that plaintext |
| Migration.Database.EncryptColumn | server/internal/dbenc/migrate.go:93-143 | one loop over a table: each value stays or becomes an encryption of itself, and all are encrypted if no call fails |
| Migration.Database.EncryptHashes | server/internal/dbenc/migrate.go:19-45 | the same for the password hashes that are not null or empty |
| Migration.Database.EncryptDevice | server/internal/dbenc/migrate.go:59-84 | the three columns of a device, each where needed |
| Migration.Database.EncryptDevices | server/internal/dbenc/migrate.go:47-91 | the same for all devices |
| Migration.Database.EncryptThreeColumns | server/internal/dbenc/migrate.go:93-174 | prekeys, token hashes and salts; a missing last table is no error |
| Migration.Database.EncryptExisting | server/internal/dbenc/migrate.go:12-177 | wherever the run stops values only stay or get encrypted; without failures nothing is left in plaintext |
| Migration.Database.EncryptTwice | server/internal/dbenc/migrate.go:12-177 | an interrupted run and the next one keep all contents, the next finishes the work, and a run after a complete one changes nothing |
| Migration.MovedKeepsContents | server/internal/dbenc/migrate.go:12-177 | what every column decrypts to is kept at any stop |
| Migration.DoneIsFixed | server/internal/dbenc/migrate.go:10-12 | once everything is encrypted a further run changes no byte |
| TrustedKeys.TrustStore.SetStoredIdentityKey | web/src/crypto/trusted-keys-storage.ts:139-159 | the same key keeps the entry, another replaces it unconfirmed |
| TrustedKeys.TrustStore.ClearVerifiedStatus | web/src/crypto/trusted-keys-storage.ts:162-171 | the confirmation goes, the key stays |
| TrustedKeys.TrustStore.RemoveTrustEntry | web/src/crypto/trusted-keys-storage.ts:174-179 | the entry goes |
| TrustedKeys.TrustStore.MarkAsVerified | web/src/crypto/trusted-keys-storage.ts:182-205 | an entry, or a new one if a key is given, is confirmed |
| TrustedKeys.TrustStore.EnsureTrustEntryFormat | web/src/crypto/trusted-keys-storage.ts:117-127 | every bare key becomes an entry, in place |
| TrustedKeys.TrustStore.GetTrustState | web/src/crypto/trusted-keys-storage.ts:211-246 | conversion, then changed, verified or unverified |
| TrustedKeys.VerifiedExactly | web/src/crypto/trusted-keys-storage.ts:139-205 | an entry is verified exactly when a confirmation came after every step that replaced, cleared or removed it |
| TrustedKeys.AnswerIsVerifiedExactly | web/src/crypto/trusted-keys-storage.ts:211-246 | the answer is verified exactly when moreover the stored key is the given one |
| TrustedKeys.OtherRunKeepsAnswer | web/src/crypto/trusted-keys-storage.ts:139-246 | no run of steps on other entries changes the answer |
| TrustedKeys.OtherPairsKeepAnswer | web/src/crypto/trusted-keys-storage.ts:62-246 | for colon-free device ids no run of steps on other (recipient, device) pairs changes the answer, but for pairs of which one spells out the other |
| TrustedKeys.EntriesMeetExactly | web/src/crypto/trusted-keys-storage.ts:62-65 | for colon-free device ids, when two pairs share an entry |
| TrustedKeys.AnswerExactly | web/src/crypto/trusted-keys-storage.ts:211-246 | when the answer is changed, verified, unverified or none |
| RequestSigning.PayloadIsInjective | server/internal/federation/server.go:38-38 | equal payloads mean equal origin, destination, time, method, path and body hash |
| RequestSigning.SignedPathOfUrl | server/internal/federation/client.go:229-235 | the signed path is the text from the first slash after the host |
| RequestSigning.DestinationOfUrl | server/internal/federation/client.go:217-225 | the signed destination is the host |
| RequestSigning.PathSurvivesExactly | server/internal/federation/server.go:34-38 | the verifier rebuilds the signed path exactly without fragment, path escape or empty query |
| RequestSigning.WindowExactly | server/internal/federation/server.go:27-29 | timestamps at most 300 seconds away pass, and the one 2^63 seconds back, and no others |
| RequestSigning.ParsedTimestamp | server/internal/federation/server.go:23-26 | every 64-bit time is read back as it was written |
| RequestSigning.SignedRequestIsAcceptedExactly | server/internal/federation/server.go:15-48 | a signed and delivered request is accepted exactly when both servers are named, the time is in the window and the path survives |
| RequestSigning.UnescapeEscaped | server/internal/federation/client.go:254-254 | an escaped name is delivered as the name |
| RequestSigning.NamedPathSurvivesExactly | server/internal/federation/client.go:248-259 | a request for a named user's devices is verified exactly if the name needs no escape |
| RequestSigning.SignatureBindsFields | server/internal/federation/server.go:38-46 | a signature is accepted only with the fields it was made for |
| RequestSigning.SignedTextExactly | server/internal/federation/client.go:214-246 | the signed text has six lines: own domain, host, time, method, what follows the host in the URL, and the hash of the body or nothing |
| RequestSigning.AcceptedIsWhatWasSigned | server/internal/federation/server.go:15-48 | with the signature of one request, a request is accepted only with the same headers, method, path, query and body |
| RequestSigning.ParsesOnlyNumbers | server/internal/federation/server.go:23-26 | a time is read only from digits, perhaps signed, whose number fits in 64 bits |
| Allowlist.SecurityService.constructor | server/internal/federation/security.go:64-80 | a start loads the set and forgets the counts |
| Allowlist.SecurityService.RecordSuccessfulTransaction | server/internal/federation/security.go:198-210 | the count of an unlisted domain grows by one, and when the threshold is reached |
| Allowlist.SecurityService.AddToAllowlist | server/internal/federation/security.go:229-251 | the domain joins the set and a line is appended |
| Allowlist.SecurityService.TrustOrigin | server/internal/api/handlers_federation.go:466-469 | the three calls of the handler are the receive step |
| Allowlist.LoadLines | server/internal/federation/security.go:158-165 | the loop over lines reads the listed domains |
| Allowlist.LoadExactly | server/internal/federation/security.go:158-165 | a domain is read exactly if some line of the file, without white space around it and in lower case, is it, and it is neither empty nor a comment |
| Allowlist.AllowedExactly | server/internal/federation/security.go:152-194 | after a start a domain is allowed exactly in open mode or if the file lists it |
| Allowlist.OnlyAutoLearns | server/internal/federation/security.go:196-251 | in manual and open mode no run changes anything, and the file is only ever appended to |
| Allowlist.CountsAreBounded | server/internal/federation/security.go:198-210 | no count exceeds the threshold, across restarts |
| Allowlist.JoinsExactlyAtThreshold | server/internal/federation/security.go:196-251 | an unlisted domain is allowed exactly from its threshold-th transaction on, the first if the threshold is below 1 |
| Allowlist.AppendIsReadBackExactly | server/internal/federation/security.go:152-251 | an appended domain is read back, and nothing lost, exactly when the last line was blank |
| Allowlist.RestartKeepsTheList | server/internal/federation/security.go:152-251 | from an empty or newline-terminated file a restart at any time gives the same set |
| Allowlist.NormEitherWay | server/internal/federation/security.go:159-159 | lowering then trimming is trimming then lowering |
| Strings.TrimSpaceIsMiddle | server/internal/federation/security.go:159-159 | trimming removes the white space at both ends and nothing else |
| Decimal.ValueOfDecimal | mesh/coordinator/main.go:130-131 | decimal notation gives the number back |
| Decimal.ValueOfFirstDigit | mesh/coordinator/main.go:130-131 | the most significant digit stands first |
| Decimal.PaddedDecimal | web/src/crypto/fingerprint.ts:46-46 | padding with zeros and cutting gives the last k digits |
| Decimal.ValueOfLastDigits | web/src/crypto/fingerprint.ts:46-46 | the last k digits are the number modulo 10^k |
| Buffers.SetBytes | web/src/crypto/e2ee.ts:138-143 | copying into an array changes only the target range |
| Buffers.Concatenate | web/src/crypto/e2ee.ts:138-143 | the chunks one after the other, copied into one array |

## Left out

- Real cryptography: NaCl, AES-GCM, Ed25519, bcrypt, SHA-256 and libsignal are functions with the laws named above; randomness is a parameter, and generated keys, nonces and token ids are taken to be new.
- KeyHolders.HoldersExactly: addresses have one colon and device ids none, as the application forms them, so that names in a message do not collide; the own address, which always gets a copy, is not among the holders considered.
- RoomTexts.KeyNamesDiffer: room ids and device ids have no colon, as the application forms them.
- RequestSigning.AcceptedIsWhatWasSigned: signatures verify only for the text they were made for, header values and methods are single lines, and the hash tells the two bodies in question apart.
- Truncation.CutOpensExactly: that no start of a box opens is an assumption about the cipher, made for the boxes of the ciphertext in question.
- Watching.NothingIsLost: arrivals have times of their own, later than the cursor; a message that becomes visible with an earlier time is not considered.
- SQL isolation: each statement, and each check-then-act service call of rooms, relay, tokens, prekeys and the allowlist, is one atomic step, although the code does not lock across statements; creating a room is one step although it is two inserts.
- Attachments.EncryptAttachment: a chunk size of 0 or less, for which the loop of the source does not end, is excluded; so it is for the streaming encryptor.
- Coordinator.NewRegistrationsGetOwnAddresses: speaks of new registrations, saves that succeed and processes that do not overlap; repeated `/v1/config` replies are the subject of the counterexample.
- SenderKeys.SenderKeyStaysWithMembers: distributions received from others are stored without a member list; what other clients send is not modelled.
- Download.CollectsTheFront: the server answers an offset with bytes of the file from there on; a server that ignores the Range header is not covered.
- Migration.Database.EncryptTwice: two runs; any number of them follows by applying `Migration.MovedKeepsContents` again.
- RequestSigning.SignedRequestIsAcceptedExactly: for URLs of the form scheme, host, path and query; header values are delivered as they are, and texts the HTTP library refuses to send are not considered.
- PrekeyRuns.ReplenishmentAddsAll: no other upload or revocation for the same device comes between; clients sharing one device are not modelled.
- KeyDirectory.Replenish: ids above 2^53, which JavaScript rounds, are exact here.
- RequestSigning.WindowExactly: the clock is neither negative nor within 300 seconds of the largest 64-bit time.
- The choice of a device's ciphertext and its base64 in Send and Sync (the text of a message is one value), delivery per device (status is per message), read receipts and message expiry.
- Failing user lookups, wrong passwords and taken user names, which change nothing; legacy tokens without an id are refused like other tokens; WebSocket and proxy tokens.
- `SetRole`, which is not routed and lets an admin demote the creator.
- The blocklist, rate limits and the structural validation of federated transactions.
- Restoring trusted keys from a backup and the migration from local storage; several tabs writing the same store at once.
- In the coordinator: subdomains, route files, certificates and the text format of the configuration; numbers above 255, which the code does not refuse, are printed as they are.
- Unicode: case folding and white space are those of ASCII; base64 and JSON are taken to be invertible.
- HTTP handlers, routing, the React user interface, VPN configuration, push, media storage, metrics and deployment.
