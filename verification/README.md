# Supaba protocol model

A Dafny model of the stateful core of Supaba: the encrypted WAL replication between a primary node and its
replicas, the Merkle tree and the WAL formats of the crypto package, the on-chain registry's escrow and staking,
and four small mechanisms of the node (port blocks, the nonce window, the `.env` renderer, the shell quoter).

`dafny verify dfyconfig.toml` checks the whole project.

## How it is laid out

| module | what it models |
|---|---|
| `Bytes`, `Sorting` | bytes, digests, machine words, collisions; byte-string order and sorting |
| `MerkleShape`, `MerkleTree` | levels built bottom-up against the recursive tree; the class with its key cache |
| `WalCodec`, `WalChain` | the chunked encrypted segment format; the hash chain of `wal.ts` |
| `SegmentNames` | the two WAL file name validators |
| `WalPrimary`, `WalReplica` | the tables and steps of the two ends of replication |
| `WalSystem`, `WalCatchUp` | the whole system: safety over all runs; catching up in healthy runs |
| `WalNodes` | the two ends as objects whose methods update the tables in place |
| `EscrowLedger`, `StakeLedger` | the registry's instructions as objects and as ledgers over runs |
| `PortBlocks`, `NonceWindow`, `EnvFile`, `ShellQuote` | the small mechanisms |

Operations that update state are classes and methods with the source's loops; each is proved to do what a
function on values says, and the theorems are about that function and its runs.

## What is assumed

- SHA-256 is any function from byte strings to 32 bytes. Binding results conclude "equal, or a collision", and the
  collision is between two strings that the runs in question really hashed.
- The ciphers are a pair of functions with open(seal(p)) = p and a 16-byte tag. Associated data is the segment's
  name and chain index; the instance is fixed.
- Every interleaving of events is a run: a pass may stop between any two writes, leaving a torn blob; a request may
  be lost, late, repeated or torn by a crash of the receiver; the acknowledgement may be lost.
- A pass takes the lines of the archive listing after trimming. The run theorems ask of each pass that no valid segment
  name comes up twice in its listing or that it removes every archived file it has recorded (`Sound`);
  `PassSafeExactlyWhen` shows that this is needed.
- The clock, the configuration and every account that an instruction's caller names are parameters: the accounts a
  crank or a refund draws on and pays to, and the instance account of a crank, which only has to bear the same id.
  Owners may move tokens, and send lamports to a node's address, without the program.
- The two header lines of the `.env` file are a parameter: any two comments.

## Where the code and its documentation differ

- `wal.ts` says the chunk index is xored as 8 bytes into the last 8 bytes of the nonce; the code xors 32 bits into
  bytes 16 to 19. The header's chunk count is 32 bits, so 2^32 chunks or more do not round-trip.
- The replication pass calls the row insert safe across crashes. Trimming the listing can make two file names one. If
  then the removal of the archived file after the first visit fails, which the code ignores, the second visit rewrites
  the blob that the recorded hash covers.
- A replica need not catch up although every later request is answered: an empty replica takes whatever row comes first.
- Both name validators split at byte 8 and panic when a character straddles it.
- The whitepaper gives 85/15 with one replica and 100% to a primary without replicas; the code always pays 70% and
  15% per replica and leaves the rest in escrow.
- A comment in `distribute_payment` speaks of up to 2 paid replicas; the code pays up to 3, whose shares exceed the
  payment.
- A crank whose capped payment is 1 unit pays no one and still moves the payout time.
- A refund updates neither `deposited` nor `distributed`, so the conservation law is stated up to the first destroy.
- Cranks and refunds check that the token account they draw on belongs to the escrow, not that it is the vault. The
  vault equation holds exactly for runs that name the vault.
- A clock that goes back reads as at least 2^63 seconds elapsed. Every rate but 1 then overflows, or is 0; at rate 1 the
  crank pays at once.
- The port loop's end-of-range test wraps in 16 bits in a release build; the run theorems take a range that ends by
  65525. Teardown goes on when `docker compose down` reports errors, and frees the block before it marks the instance.
- Retention and window are both 600 seconds long, so one signed request can pass at each end of its window. The
  timestamp difference wraps in a release build, so a timestamp 2^63 seconds back passes too.
- The Merkle tree has no leaf and node prefixes and does not check sibling lengths: an inner node passes as a leaf
  under an inner node's list, and siblings bind up to cutting or zero-padding to 32 bytes.

## Model

| member | source | states |
|---|---|---|
| `WalSystem.ReplicaHoldsBlock` | `node-rs/src/replication.rs:739-983` | After any run of passes, drains, crashes, lost acknowledgements and late, repeated or torn deliveries, every replica's rows are one contiguous block of the primary's chain; names, indices, hashes, previous hashes and stored files agree, and each file opens to the segment archived under its name |
| `WalSystem.ChainIntact` | `node-rs/src/replication.rs:583-732` | In every reachable state the primary's row i has index i, its predecessor's hash (none for row 0), and the hash of that and its stored blob |
| `WalSystem.RecordsAreForever` | `node-rs/src/db/mod.rs:675-718` | However a run goes on, no recorded row, no recorded blob and no replicated row ever changes or disappears |
| `WalSystem.RunKeeps` | `node-rs/src/replication.rs:497-983` | The whole invariant (chain, stored blobs, genuine requests only on the wire, blocks on every replica, shipped means held) is kept by every run, and everything settled stays settled |
| `WalSystem.NextKeeps` | `node-rs/src/replication.rs:497-983` | One event of any kind keeps that invariant |
| `WalSystem.ShipKeeps` | `node-rs/src/replication.rs:739-845` | One turn of the drain keeps the invariant for every outcome: unreadable blob, no answer, an answer, a crash after sending |
| `WalSystem.ShipAllKeeps` | `node-rs/src/replication.rs:739-845` | A whole drain, finished or cut off, keeps the invariant, with arrivals between its turns |
| `WalSystem.PrimarySteps` | `node-rs/src/replication.rs:588-717` | Growth of the primary's tables disturbs no replica and no request already sent |
| `WalSystem.ShippedMeansHeld` | `node-rs/src/db/mod.rs:985-1001` | In every reachable state a shipment marked shipped is held by its replica, a failed one has had exactly 5 attempts, and none has more |
| `WalSystem.TurnsExactly` | `node-rs/src/replication.rs:739-845` | One turn on a pending shipment: given up as failed at 5 attempts; with fewer, shipped when its replica takes the request for that row, and otherwise (blob unreadable, no answer, refusal) pending with one more attempt; untouched when the process dies after sending |
| `WalSystem.SendsExactly` | `node-rs/src/replication.rs:770-815` | What the turn puts on the wire and what its replica does with it: the recorded row's own request, or nothing |
| `WalSystem.ArrivesExactly` | `node-rs/src/replication.rs:861-983` | A late request has the receiver's effect on its replica and no other effect |
| `WalSystem.SixDrainsSettle` | `node-rs/src/replication.rs:739-845` | Six completed drains leave every shipment that existed before them shipped or failed, whatever happens in between |
| `WalSystem.RunSpends` | `node-rs/src/db/mod.rs:1003-1010` | Every completed drain brings each pending shipment one step nearer to its end |
| `WalSystem.PendingIdsExact` | `node-rs/src/db/mod.rs:964-983` | The drain's work list is exactly the pending shipments, each once |
| `WalCatchUp.ReplicaEqualsPrimary` | `node-rs/src/replication.rs:694-845` | A replica registered before the first segment equals the primary's chain after every drain that gets through, in runs where every recorded file got as far as its shipment to that replica and each of that replica's turns is answered or the process dies in it; late, torn and repeated deliveries, drains that stop, failed copies and failing other replicas are all allowed |
| `WalCatchUp.DrainEqualsExactlyWhen` | `node-rs/src/replication.rs:739-845` | In every reachable state: a drain that gets through, with the replica's turns answered and nothing late arriving, leaves it equal to the primary if and only if its rows were a prefix of the chain and each row it lacked had a pending shipment with fewer than 5 attempts |
| `WalCatchUp.LostFirstRequest` | `node-rs/src/replication.rs:739-983` | An unanswered request does matter: an empty replica that misses the request for row 0 and is answered for row 1 in the same drain starts at row 1 and never equals the primary again |
| `WalCatchUp.NeverAgain` | `node-rs/src/replication.rs:861-983` | A replica whose rows are no prefix of the chain stays so in every continuation |
| `WalCatchUp.RunOrdered` | `node-rs/src/db/mod.rs:886-900` | In every reachable state shipments are queued in chain order |
| `WalCatchUp.DrainBringsOnly` | `node-rs/src/replication.rs:739-845` | A drain brings a replica no row that none of its live shipments is for |
| `WalCatchUp.RunLive` | `node-rs/src/replication.rs:694-845` | In such runs the replica at any time holds a prefix of the chain, every row it lacks has a live pending shipment, and no request on the wire to it is for a row beyond the next |
| `WalCatchUp.ArchiveInLine` | `node-rs/src/replication.rs:614-732` | A pass, with failed copies or dying early, keeps the queue in chain order, and each lacking row covered for a replica whose shipments it reaches |
| `WalCatchUp.EnqueueAllQueues` | `node-rs/src/db/mod.rs:886-900` | Enqueueing a new segment adds untried pending shipments of that segment only, one at least for each listed replica |
| `WalCatchUp.DrainDelivers` | `node-rs/src/replication.rs:739-845` | A drain whose turns to the replica are answered, or die, keeps it live, whatever arrives late and other replicas do; if it gets through, the replica equals the primary |
| `WalCatchUp.TakesRow` | `node-rs/src/replication.rs:861-983` | A replica holding the first m rows accepts the request for row m, and refuses those for earlier rows |
| `WalPrimary.PassSafeExactlyWhen` | `node-rs/src/replication.rs:521-731` | A pass keeps the chain and every recorded blob, whatever befalls its files, if and only if the names it works on are pairwise different, or no removal of an archived file fails, or the name filter panics first |
| `WalPrimary.PassKeeps` | `node-rs/src/replication.rs:497-735` | A pass over differing names, or one whose removals succeed, keeps the primary's invariant and only extends its tables |
| `WalPrimary.ArchiveKeeps` | `node-rs/src/replication.rs:614-732` | The file loop keeps the chain across failed copies, torn blobs, crashes between blob write, row insert and enqueueing, and files already removed |
| `WalPrimary.RecordKeeps` | `node-rs/src/replication.rs:650-717` | Recording one new file continues the chain, stores a blob that opens to the segment, and carries hash and index on |
| `WalPrimary.BreakingEnds` | `node-rs/src/replication.rs:614-731` | A name that comes up twice, whose archived file could not be removed after the first visit, can be recorded and then have its blob truncated by a crash on the second |
| `WalPrimary.SecondVisitTruncates` | `node-rs/src/replication.rs:676-731` | That truncation breaks the invariant: the recorded hash no longer covers the stored blob |
| `WalPrimary.TodoExactly` | `node-rs/src/replication.rs:517-587` | A name is on the work list if and only if it is listed, has a documented form and is not recorded; the list is in ascending name order |
| `WalPrimary.PassGoesThrough` | `node-rs/src/replication.rs:497-735` | A pass that does not panic and whose files are all copied and recorded leaves a row for every listed name of a documented form, and adds only such rows, in strictly ascending name order |
| `WalPrimary.PassStoresCopies` | `node-rs/src/replication.rs:614-717` | In such a pass over differing names the k-th new row is for the k-th name, and its stored blob opens to the k-th copied file |
| `WalPrimary.PanicsExactlyWhen` | `node-rs/src/replication.rs:545-573` | The name filter panics exactly when a listed name of 9 to 32 bytes, not a temporary file, has a character across bytes 7 and 8 |
| `WalPrimary.CrashLosesShipments` | `node-rs/src/replication.rs:692-703` | A pass that dies right after a row insert leaves the row without shipments, and no later work list has the name again |
| `WalPrimary.DistinctLinesHaveNoRepeats` | `node-rs/src/replication.rs:517-524` | Trimmed lines that differ list no valid name twice |
| `EnvFile.ValidKeyExactlyWhen` | `node-rs/src/main.rs:3090-3108` | The handler accepts a key exactly when it has 1 to 128 letters, digits and underscores and no digit first |
| `EnvFile.ValidKeyReadsBack` | `node-rs/src/main.rs:3090-3108` | A key the handler accepts gives its entry back from one line, whatever the value |
| `WalPrimary.DebrisHarmless` | `node-rs/src/replication.rs:676-678` | A torn or orphaned blob of an unrecorded name touches nothing recorded |
| `WalPrimary.CurrentLinkContinues` | `node-rs/src/db/mod.rs:695-718` | The recovered hash and index are those of the last row |
| `WalPrimary.OpensSealed` | `node-rs/src/replication.rs:640-660` | The stored blob opens to the plaintext under the same name and chain index |
| `WalPrimary.SettleKeeps` | `node-rs/src/db/mod.rs:985-1010` | Marking or counting a shipment keeps the tables' invariant and the cap of 5 attempts |
| `WalPrimary.SettleSpendsPatience` | `node-rs/src/replication.rs:739-845` | Each settled turn changes only a pending shipment, never takes attempts back, and spends one of its at most six turns |
| `WalReplica.AcceptsExactlyNext` | `node-rs/src/replication.rs:861-940` | A genuine request is accepted if and only if the replica is empty or holds the row just before it |
| `WalReplica.AcceptedExactlyWhen` | `node-rs/src/replication.rs:861-940` | Any request at all is accepted if and only if its name has a documented form, its body has at least 28 bytes, its hash is that of its previous hash and body, and the replica is empty or the request continues its highest row |
| `WalReplica.ReceivedExactly` | `node-rs/src/replication.rs:941-973` | What any request leaves in the files and rows of the replica: when it is taken, refused, or taken up to a crash |
| `WalReplica.RefusedExactlyWhen` | `node-rs/src/replication.rs:861-940` | Which error is answered: that of the first failing test, in the source's order |
| `WalReplica.RowsAreSound` | `node-rs/src/replication.rs:861-983` | After any sequence of arbitrary requests, whole or torn, every row came with a request whose body it hashes, and the rows form one chain with consecutive indices and different names |
| `WalReplica.OnlyTheChainRefuses` | `node-rs/src/replication.rs:919-940` | A genuine request passes the name, size and hash tests; only a chain break or an index gap refuses it |
| `WalReplica.ReceiveKeeps` | `node-rs/src/replication.rs:861-983` | Receiving anything the primary ever sent, however late or often, keeps the contiguous block |
| `WalReplica.ReceiveTornKeeps` | `node-rs/src/replication.rs:940-983` | A crash between the file write and the row insert leaves the block intact |
| `WalReplica.GrowthKeeps` | `node-rs/src/db/mod.rs:906-958` | The primary's growth does not move a replica's block |
| `WalReplica.HeldNameOverwrites` | `node-rs/src/db/mod.rs:906-923` | A next link under a held name is answered with success, replaces the file and records no row |
| `WalReplica.LatestOfBlock` | `node-rs/src/db/mod.rs:947-958` | The row with the highest chain index is the block's last |
| `WalNodes.PrimaryNode.ProcessInstanceWal` | `node-rs/src/replication.rs:497-735` | The method's effect on the tables is the pass that the theorems speak about |
| `WalNodes.PrimaryNode.ArchiveFiles` | `node-rs/src/replication.rs:614-732` | The loop with its running hash and index does what the recursive description of the pass says |
| `WalNodes.PrimaryNode.VisitFile` | `node-rs/src/replication.rs:619-717` | One file of the loop: skipped, left as debris, or recorded with the chain carried on |
| `WalNodes.PrimaryNode.RecordFile` | `node-rs/src/replication.rs:657-717` | Hash, blob, row and shipments of one file |
| `WalNodes.PrimaryNode.EnqueueEach` | `node-rs/src/replication.rs:694-703` | The enqueue loop makes one shipment for each listed replica that has none for the name |
| `WalNodes.PrimaryNode.ShipPendingSegments` | `node-rs/src/replication.rs:739-845` | The drain loop over a snapshot gives each pending shipment its turn in id order: failed at 5 attempts or without a row, shipped on success, one more attempt otherwise; all others stay |
| `WalNodes.DrainTurnsEach` | `node-rs/src/replication.rs:739-845` | The same of the drain on values, for any list of different ids |
| `WalNodes.PrimaryNode.AddInstanceReplica` | `node-rs/src/db/mod.rs:856-863` | A replica is listed once, and the answer says whether it was new |
| `WalNodes.PrimaryNode.InsertWalSegment` | `node-rs/src/db/mod.rs:675-693` | A row is added unless its name is recorded already |
| `WalNodes.PrimaryNode.EnqueueReplicaShipment` | `node-rs/src/db/mod.rs:886-900` | A pending shipment is added unless the pair exists, and the answer says whether it was new |
| `WalNodes.PrimaryNode.MarkShipment` | `node-rs/src/db/mod.rs:985-1001` | Only the given shipment's status changes |
| `WalNodes.PrimaryNode.IncrementShipmentAttempts` | `node-rs/src/db/mod.rs:1003-1010` | Only the given shipment's attempts grow, by one |
| `WalNodes.ReplicaNode.ReceiveSegment` | `node-rs/src/replication.rs:861-983` | Answers success exactly under the receiver's five conditions, then writes the file and adds the row unless the name is held; on an error, which is the first failing test's, nothing changes |
| `WalNodes.ReplicaNode.InsertReplicaSegment` | `node-rs/src/db/mod.rs:906-923` | A row is added unless its name is held already |
| `WalNodes.DrainsRefine` | `node-rs/src/replication.rs:739-845` | The primary's half of a drain in the full system is the class's drain on some list of responses |
| `SegmentNames.ValidatorsAgree` | `node-rs/src/path_safety.rs:44-79` | The primary's filter and the replica's validator give the same verdict on every byte string; they accept exactly the three documented forms and panic exactly when a character straddles byte 8 |
| `MerkleShape.RootUpIsRoot` | `crypto/src/merkle.ts:77-99` | For every non-empty leaf list the bottom-up root with odd promotion is the root of the tree that splits at the largest power of two below n (RFC 6962, section 2.1, without prefix bytes) |
| `MerkleShape.ProofUpIsAuditPath` | `crypto/src/merkle.ts:107-156` | The proof collected level by level is that tree's audit path (RFC 6962, section 2.1.1) |
| `MerkleShape.PairingKeepsRoot` | `crypto/src/merkle.ts:85-96` | One level of pairing keeps the recursive tree's root |
| `MerkleShape.PairingPeelsPath` | `crypto/src/merkle.ts:118-155` | One level of pairing takes the leaf-most entry, or nothing for a promoted node, off the audit path |
| `MerkleShape.SplitIsLargestPow2` | `crypto/src/merkle.ts:9-21` | The split point is the largest power of two below n |
| `MerkleShape.Completeness` | `crypto/src/merkle.ts:166-189` | Every leaf's audit path replays to the root, promoted nodes included |
| `MerkleShape.Soundness` | `crypto/src/merkle.ts:166-189` | Whatever a proof's left/right list, acceptance means the proof shows what the tree holds where the list leads, or an explicit collision among the strings hashed |
| `MerkleShape.LastStepBinds` | `crypto/src/merkle.ts:166-189` | The last accepted step uses the node's own two children, or collides |
| `MerkleShape.RootBinds` | `crypto/src/merkle.ts:77-99` | Two leaf lists of equal length with equal roots are equal, or collide |
| `MerkleShape.RootForgetsLength` | `crypto/src/merkle.ts:77-99` | Equal length is needed: pairing the leaves beforehand gives a shorter list with the same root |
| `MerkleShape.InnerNodePassesAsLeaf` | `crypto/src/merkle.ts:205-210` | With no prefix bytes an inner node is accepted as a leaf under an inner node's list |
| `MerkleShape.StepInputFits` | `crypto/src/merkle.ts:205-210` | The 64-byte buffer of one verification step is the two children, the given sibling cut or zero-padded to 32 bytes |
| `MerkleShape.ProofLength` | `crypto/src/merkle.ts:118-155` | A proof has at most ceil(log2 n) entries |
| `MerkleShape.LandInvertsPositions` | `crypto/src/merkle.ts:118-155` | A left/right list leads to leaf i if and only if it is leaf i's own list |
| `MerkleShape.SuffixFree` | `crypto/src/merkle.ts:118-155` | No leaf's list is a suffix of another leaf's |
| `MerkleTree.HistoryIndependence` | `crypto/src/merkle.ts:46-99` | After any history of inserts, removals and queries, the fields give the sorted keys, leaf level and root of the final map alone; the cache is null or those keys |
| `MerkleTree.SortedKeysAreCanonical` | `crypto/src/merkle.ts:194-199` | The keys used, cached or freshly sorted, are the key set in ascending order of code units |
| `Sorting.LessExactlyWhen` | `crypto/src/merkle.ts:194-199` | The order of keys: a proper prefix comes first; else the smaller unit at the first place where two keys differ decides |
| `MerkleTree.RootIsInOrder` | `crypto/src/merkle.ts:77-99` | The root is that of the recursive tree over the leaves in ascending key order |
| `MerkleTree.ReplayThrowsExactlyWhen` | `crypto/src/merkle.ts:205-210` | Verification throws exactly when a left sibling has more than 64 bytes or a right one more than 32 |
| `MerkleShape.SmallRoots` | `crypto/src/merkle.ts:77-99` | The roots of one, two and three leaves, written out |
| `MerkleTree.OwnProofAccepted` | `crypto/src/merkle.ts:107-189` | For every tree and key, the key's own proof verifies against the root |
| `MerkleTree.AcceptedProofIsGenuine` | `crypto/src/merkle.ts:166-189` | An accepted proof with the left/right list of a key's own proof carries that key's leaf and siblings, or an explicit collision; with 32-byte siblings it is the key's own proof |
| `MerkleTree.ListIdentifiesKey` | `crypto/src/merkle.ts:107-156` | Different keys never share a left/right list, nor is one the tail of another's |
| `MerkleTree.RootBindsLeaves` | `crypto/src/merkle.ts:77-99` | Maps with the same keys and the same root are equal, or collide |
| `MerkleTree.RunKeepsValid` | `crypto/src/merkle.ts:46-66` | Over every history the insertion order lists exactly the map's keys and the cache is absent or sorted |
| `MerkleTree.MerkleTree.Insert` | `crypto/src/merkle.ts:46-56` | Sets the key's leaf and drops the cache, or refuses an empty key or a value that is not 32 bytes and changes nothing |
| `MerkleTree.MerkleTree.Remove` | `crypto/src/merkle.ts:62-66` | Removes the key, and drops the cache only if it was there |
| `MerkleTree.MerkleTree.GetSortedKeys` | `crypto/src/merkle.ts:194-199` | Returns and caches exactly the keys, each preceding all that follow |
| `MerkleTree.MerkleTree.GetRoot` | `crypto/src/merkle.ts:77-99` | Returns the root over the leaves in ascending key order; 32 zero bytes for an empty map |
| `MerkleTree.MerkleTree.Pair` | `crypto/src/merkle.ts:85-96` | One pass over a level pairs neighbours and promotes an odd last node |
| `MerkleTree.MerkleTree.Fold` | `crypto/src/merkle.ts:84-99` | Repeated pairing ends at the bottom-up root |
| `MerkleTree.MerkleTree.GetProof` | `crypto/src/merkle.ts:107-156` | Returns the audit path of the key's leaf in the tree the map determines, which verifies against the root, or an error for a missing key |
| `MerkleTree.MerkleTree.Climb` | `crypto/src/merkle.ts:118-155` | The level loop collects the bottom-up proof |
| `MerkleTree.MerkleTree.PairWithProof` | `crypto/src/merkle.ts:121-150` | One pass gives the sibling of the tracked node (none when promoted), the next level and the node's place in it |
| `MerkleTree.MerkleTree.VerifyProof` | `crypto/src/merkle.ts:166-189` | Answers whether replaying the proof from the leaf ends at the root; errors on sizes as the source throws |
| `WalCodec.RoundTrip` | `crypto/src/wal.ts:53-221` | For every segment, empty or on either side of the 1 MB threshold: decryption gives the segment back if and only if its chunk count is below 2^32 |
| `WalCodec.ChunkNoncesDistinct` | `crypto/src/wal.ts:22-30` | Two chunks share a nonce exactly when their indices agree modulo 2^32 |
| `WalCodec.ChunkNonceExactly` | `crypto/src/wal.ts:22-30` | A chunk's nonce is the base nonce with the index xored, bit by bit, into bytes 16 to 19, and nothing else changed |
| `WalCodec.EncryptedLayout` | `crypto/src/wal.ts:64-90` | Length and header of the encrypted segment: chunk size (65536 above 1048576 bytes, else all), chunk count and zero as little-endian words, then the base nonce |
| `WalCodec.ChunkLayout` | `crypto/src/wal.ts:95-116` | Chunk k is bytes k * size on, sealed under the k-th nonce, at offset 36 + k * (size + 16) |
| `WalCodec.DecryptedExactly` | `crypto/src/wal.ts:127-205` | Decryption answers the key's error, then the header's, then that of the first chunk that is truncated or does not open; it succeeds when every chunk opens |
| `Bytes.XorBit` | `crypto/src/wal.ts:22-30` | Bit k of the result is set exactly when bit k of one word is and of the other is not |
| `Bytes.LittleEndian` | `crypto/src/wal.ts:135-150` | The first byte of a header word counts least |
| `WalCodec.OpensWhatWasSealed` | `crypto/src/wal.ts:97-213` | Opening the sealed chunks in order gives the data back, the last chunk taking the remainder |
| `WalCodec.OpenedLength` | `crypto/src/wal.ts:164-213` | Successful decryption accounts for every byte: the plaintext plus one tag per chunk |
| `WalCodec.SealedLength` | `crypto/src/wal.ts:77-85` | The sealed chunks fill exactly the data plus one tag per chunk |
| `WalCodec.ShortRead` | `crypto/src/wal.ts:127-221` | Reading fewer chunks than were sealed never gives the data back |
| `WalCodec.TotalChunksIsCeiling` | `crypto/src/wal.ts:65-75` | The source's ceiling formula counts the pieces the data falls into |
| `WalCodec.NonceWord` | `crypto/src/wal.ts:22-30` | A chunk's nonce holds the base nonce's word xor the index in bytes 16 to 19 |
| `WalCodec.EncryptWalSegment` | `crypto/src/wal.ts:53-118` | The method returns header and sealed chunks as specified, or the key error |
| `WalCodec.EncryptedSize` | `crypto/src/wal.ts:77-85` | The size loop computes header plus data plus one tag per chunk |
| `WalCodec.SealChunks` | `crypto/src/wal.ts:86-117` | The write loop fills the precomputed buffer exactly |
| `WalCodec.Store` | `crypto/src/wal.ts:86-116` | Writing bytes at an offset extends the filled part by them and stays within the buffer |
| `WalCodec.DecryptWalSegment` | `crypto/src/wal.ts:127-221` | The method returns what the format's reading says, with its four errors |
| `WalCodec.OpenChunks` | `crypto/src/wal.ts:164-205` | The read loop opens consecutive chunks, never past the end |
| `WalCodec.Concatenate` | `crypto/src/wal.ts:207-221` | The result is the opened chunks end to end |
| `Bytes.ConstantTimeEqual` | `crypto/src/wal.ts:295-302` | Accumulated xor differences answer exactly equality |
| `Bytes.XorInvolution` | `crypto/src/wal.ts:22-30` | Xor with the same word twice gives the word back |
| `Bytes.Le32RoundTrip` | `crypto/src/wal.ts:87-90` | A header word reads back as its value modulo 2^32 |
| `WalChain.VerifyWalChain` | `crypto/src/wal.ts:260-290` | Accepts exactly the chains that iterating the chain hash builds: those in which each entry carries the hash of its predecessor's hash and its own data |
| `WalChain.BuildPrefix` | `crypto/src/wal.ts:260-290` | A prefix of an accepted chain is the accepted chain of the shorter list |
| `WalChain.DatasOfBuild` | `crypto/src/wal.ts:231-249` | Every segment list has an accepted chain that carries it |
| `WalChain.HeadBinds` | `crypto/src/wal.ts:231-249` | Equally long segment lists with one chain hash are equal, or an explicit collision among the strings hashed |
| `WalChain.AcceptedChainsBind` | `crypto/src/wal.ts:260-290` | Two accepted chains of one length with one last hash are the same chain, or collide |
| `WalChain.LengthMatters` | `crypto/src/wal.ts:231-249` | Equal length is needed: one segment that starts with a chain hash stands for a longer chain |
| `EscrowLedger.EscrowConserved` | `contracts/programs/supaba-registry/src/lib.rs:454-633` | Over every run from a new instance, with any accounts named and any number of replicas: distributed never exceeds deposited; and until the first destroy the vault holds its start plus deposits minus payments (and what else came in) if and only if every committed paying crank drew on the vault |
| `EscrowLedger.ForeignMintBreaks` | `contracts/programs/supaba-registry/src/lib.rs:1083-1099` | The program takes any token account the escrow owns: a crank on one of another mint pays 70 of 100 on the books and leaves the vault as it was |
| `EscrowLedger.DrawnExactly` | `contracts/programs/supaba-registry/src/lib.rs:502-633` | What was paid out exceeds what the vault paid, by nothing exactly when every paying crank drew on it |
| `EscrowLedger.FirstDestroySettles` | `contracts/programs/supaba-registry/src/lib.rs:399-451` | The first destroy settles: all deposits were paid out or are refunded; and the vault is back at its start (but for what else came in) if and only if every paying crank drew on it and so does the refund, if any |
| `EscrowLedger.DestroyCommitsExactlyWhen` | `contracts/programs/supaba-registry/src/lib.rs:399-451` | Before the first destroy, destroying commits exactly when there is an escrow, the node counts an instance, the accounts named belong to escrow and agent, and a refund finds the same mint, room, and, unless it is drawn on the vault, funds |
| `EscrowLedger.RunBalances` | `contracts/programs/supaba-registry/src/lib.rs:399-633` | The books, with what cranks drew on the vault kept apart from what they paid, balance after every instruction, committed or reverted, and every transfer made without the program |
| `EscrowLedger.RunKeepsSupply` | `contracts/programs/supaba-registry/src/lib.rs:399-633` | No instruction makes or destroys tokens of any mint |
| `EscrowLedger.SplitBounds` | `contracts/programs/supaba-registry/src/lib.rs:533-606` | A crank pays at most (70 + 15 r)% of the capped payment, at most all of it with two replicas, and with exactly two at least all but 2 units |
| `EscrowLedger.OverpaysExactlyWhen` | `contracts/programs/supaba-registry/src/lib.rs:533-606` | A crank pays more than the capped payment if and only if there are three replicas and the payment is 14 to 16 or at least 20 units |
| `EscrowLedger.PaysNothingExactlyWhen` | `contracts/programs/supaba-registry/src/lib.rs:517-614` | A crank's payments sum to nothing if and only if the capped payment is at most 1 |
| `EscrowLedger.WholeRemainderReverts` | `contracts/programs/supaba-registry/src/lib.rs:533-620` | With three paid replicas, a crank whose capped payment is the whole remainder, 14 to 16 or at least 20 units, always reverts |
| `EscrowLedger.AccrualBound` | `contracts/programs/supaba-registry/src/lib.rs:477-614` | With a rate other than 1, or a clock that never goes back, payouts never exceed rate times time from the first deposit to the last payout, times 70% plus 15% per replica paid; with at most two replicas never the rate itself |
| `EscrowLedger.BackwardDueExactlyWhen` | `contracts/programs/supaba-registry/src/lib.rs:517-533` | A crank before the last payout time has something to pay if and only if the rate is 1, something is left and the clock is at most 2^63 seconds back |
| `EscrowLedger.RateOneBackwardsBreaks` | `contracts/programs/supaba-registry/src/lib.rs:517-614` | At rate 1 the bound does fail: a crank one second before the first deposit pays 70 of 100 |
| `EscrowLedger.RunAccrues` | `contracts/programs/supaba-registry/src/lib.rs:477-552` | The bound is kept by every such run, and rate and start time stay fixed after the first deposit |
| `EscrowLedger.CrankExactly` | `contracts/programs/supaba-registry/src/lib.rs:502-633` | A committed crank with no time gone back raises the books by exactly 70%, and 15% per replica paid, each rounded down, of what is due: rate times seconds per hour, or the remainder; it moves the payout time unless nothing is due, and suspends the escrow's own instance when nothing is left |
| `EscrowLedger.CrankPaysEach` | `contracts/programs/supaba-registry/src/lib.rs:533-606` | Each recipient, when all differ, gets its own share, the source gives them all, and no other account changes |
| `EscrowLedger.CrankCommitsExactlyWhen` | `contracts/programs/supaba-registry/src/lib.rs:502-620` | A crank commits exactly when escrow and source match, time and price fit their types, the shares fit into the remainder and the source, and each recipient has mint and room |
| `EscrowLedger.AccrualFromBelow` | `contracts/programs/supaba-registry/src/lib.rs:477-614` | Over every run in which each paying crank pays two replicas and finds enough left, 3600 times the payouts is at least rate times time less 10800 per paying crank |
| `EscrowLedger.DepositExactly` | `contracts/programs/supaba-registry/src/lib.rs:454-499` | When a deposit commits, and its whole effect; the first one fixes rate and time |
| `EscrowLedger.DestroyExactly` | `contracts/programs/supaba-registry/src/lib.rs:399-451` | When a destroy commits, and its whole effect |
| `EscrowLedger.ZeroDueLosesNothing` | `contracts/programs/supaba-registry/src/lib.rs:517-552` | A crank with nothing due changes nothing, so no accrued time is lost; any other moves the payout time to now |
| `EscrowLedger.EscrowProgram.Deposit` | `contracts/programs/supaba-registry/src/lib.rs:454-499` | Commits the deposit, fixing rate and time at the first one, or reverts as a whole |
| `EscrowLedger.EscrowProgram.Distribute` | `contracts/programs/supaba-registry/src/lib.rs:502-633` | Commits the crank's payments and bookkeeping, or reverts as a whole |
| `EscrowLedger.EscrowProgram.Settle` | `contracts/programs/supaba-registry/src/lib.rs:533-620` | Payments and bookkeeping of a crank with something due |
| `EscrowLedger.EscrowProgram.PaySplit` | `contracts/programs/supaba-registry/src/lib.rs:533-606` | The primary's share and the replica loop make exactly the listed transfers and return their sum |
| `EscrowLedger.EscrowProgram.PayReplicas` | `contracts/programs/supaba-registry/src/lib.rs:562-606` | The replica loop pays each replica account in order and stops at the first failure |
| `EscrowLedger.EscrowProgram.MoveTokens` | `contracts/programs/supaba-registry/src/lib.rs:533-560` | A transfer that moves the amount or leaves the balances alone |
| `EscrowLedger.EscrowProgram.Destroy` | `contracts/programs/supaba-registry/src/lib.rs:399-451` | Refunds deposited minus distributed and marks the instance destroyed, or reverts |
| `StakeLedger.StakeConserved` | `contracts/programs/supaba-registry/src/lib.rs:101-259` | Over every run: initial stake = stake + slashed + claimed, the node account holds rent plus stake plus exactly what reached its address besides, the treasury gains exactly what was slashed, and lamports are conserved |
| `StakeLedger.ClaimAfterCooldown` | `contracts/programs/supaba-registry/src/lib.rs:217-259` | A committed claim has no active instances and follows the deregistration by at least the cooldown, with nothing in between that moves the timestamp |
| `StakeLedger.FindDeregistration` | `contracts/programs/supaba-registry/src/lib.rs:197-259` | Every committed claim goes back to one committed deregistration, with no committed heartbeat since |
| `StakeLedger.NothingAfterTheEnd` | `contracts/programs/supaba-registry/src/lib.rs:181-259` | After a claim or a slash no heartbeat, deregistration or claim ever commits: stake is claimed at most once |
| `StakeLedger.CapacityRespected` | `contracts/programs/supaba-registry/src/lib.rs:150-336` | The active count never exceeds the capacity |
| `StakeLedger.RegisterExactly` | `contracts/programs/supaba-registry/src/lib.rs:101-147` | When a registration commits, and the whole new account |
| `StakeLedger.RegisterErrsExactly` | `contracts/programs/supaba-registry/src/lib.rs:101-147` | Which error a registration gets, by the first failing check |
| `StakeLedger.BeatExactly` | `contracts/programs/supaba-registry/src/lib.rs:181-194` | A heartbeat commits exactly for an active node, and sets the time only |
| `StakeLedger.DeregisterExactly` | `contracts/programs/supaba-registry/src/lib.rs:197-214` | A deregistration commits exactly for an active node, and sets status and time only |
| `StakeLedger.ClaimExactly` | `contracts/programs/supaba-registry/src/lib.rs:217-259` | A claim commits exactly for a deregistering node without instances after the cooldown, and moves the stake to the operator; the saturating difference decides like the plain one |
| `StakeLedger.ClaimErrsExactly` | `contracts/programs/supaba-registry/src/lib.rs:217-259` | Which error a claim gets, by the first failing check |
| `StakeLedger.SlashExactly` | `contracts/programs/supaba-registry/src/lib.rs:660-700` | A slash moves stake * percent / 100, rounded down, to the treasury and suspends the node, exactly when the amounts fit |
| `StakeLedger.SlashBounds` | `contracts/programs/supaba-registry/src/lib.rs:660-675` | A slash takes at most the stake, and all of it at 100 percent |
| `StakeLedger.CountersExactly` | `contracts/programs/supaba-registry/src/lib.rs:150-178` | When capacity and instance counts change, and by how much |
| `StakeLedger.NodeProgram.Register` | `contracts/programs/supaba-registry/src/lib.rs:101-147` | Commits the registration with the minimum stake and the rent not yet at the address, or reverts |
| `StakeLedger.NodeProgram.Beat` | `contracts/programs/supaba-registry/src/lib.rs:181-194` | Commits the heartbeat of an active node, or reverts |
| `StakeLedger.NodeProgram.Deregister` | `contracts/programs/supaba-registry/src/lib.rs:197-214` | Commits the start of the cooldown, or reverts |
| `StakeLedger.NodeProgram.Claim` | `contracts/programs/supaba-registry/src/lib.rs:217-259` | Commits the claim after the cooldown, or reverts with the first failing check |
| `StakeLedger.NodeProgram.Slash` | `contracts/programs/supaba-registry/src/lib.rs:660-700` | Commits the slash of the configured share, or reverts |
| `PortBlocks.FirstFitIsFirstFit` | `node-rs/src/db/mod.rs:566-597` | The walk over the sorted bases ends at the least base from the start on whose ten ports avoid every allocated block |
| `PortBlocks.ExactExactlyWhen` | `node-rs/src/db/mod.rs:566-597` | The 16-bit loop is exact first fit if and only if the first free block starts at 65525 or below or the wrapped end of the candidate exceeds the range end; for range ends from 9 on, if and only if the first holds |
| `PortBlocks.FailsExactlyWhen` | `node-rs/src/db/mod.rs:566-597` | Exact first fit fails if and only if no free block ends by the end of the range |
| `PortBlocks.RunKeeps` | `node-rs/src/db/mod.rs:566-628` | Over every run of provisioning and teardown, either of which may stop between its steps, all blocks are pairwise disjoint and within the range |
| `PortBlocks.ProvisionExactly` | `node-rs/src/db/mod.rs:566-628` | A provisioned instance has the block found, bound to it; a provisioning that stops leaves the block allocated and unbound |
| `PortBlocks.TearDownExactly` | `node-rs/src/db/mod.rs:610-618` | Teardown takes exactly the instance's blocks out of the table |
| `PortBlocks.NoSharedPort` | `node-rs/src/instance_manager.rs:245-258` | In every reachable state no port of base to base + 9 belongs to two instances whose blocks are not freed |
| `PortBlocks.SharedOnlyAfterFreeing` | `node-rs/src/instance_manager.rs:658-677` | Two instances not marked destroyed share a port only if the block of one of them is freed |
| `PortBlocks.StoppedTearDownShares` | `node-rs/src/instance_manager.rs:658-677` | A teardown that stops between freeing and marking does let the next instance have the ports of one that is not marked destroyed |
| `PortBlocks.PortAllocations.AllocatePortBlock` | `node-rs/src/db/mod.rs:566-597` | The loop returns the walk's base and adds it to the table, or nothing |
| `PortBlocks.PortAllocations.BindPortToInstance` | `node-rs/src/db/mod.rs:621-628` | Binds an allocated block to an instance and changes no other row |
| `PortBlocks.PortAllocations.FreePortBlock` | `node-rs/src/db/mod.rs:610-618` | Frees exactly the instance's blocks |
| `NonceWindow.PassesExactlyWhen` | `node-rs/src/sigauth.rs:99-121` | The pruned map answers like the whole history: a request passes if and only if it is in the window and no request with its nonce passed less than 600 s before |
| `NonceWindow.InWindowExactlyWhen` | `node-rs/src/sigauth.rs:164-175` | The wrapping i64 test admits timestamps within 300 s of the clock's whole seconds, the one exactly 2^63 s back, and those within 300 s of 2^64 s back |
| `NonceWindow.SameRequestTwice` | `node-rs/src/sigauth.rs:164-188` | One signed request passes twice at most at the two ends of its window, at least 600 s apart, unless the second time is 2^63 s or more after its timestamp |
| `NonceWindow.WindowEndsMeet` | `node-rs/src/sigauth.rs:45-58` | Such a pair of presentations does pass both times |
| `NonceWindow.RecordKnows` | `node-rs/src/sigauth.rs:99-121` | Recording and pruning keep the map's knowledge of every passed request within retention |
| `NonceWindow.SeenNonces.CheckAndRecordNonce` | `node-rs/src/sigauth.rs:99-121` | Answers whether the nonce is new and records it; prunes expired entries above the threshold |
| `EnvFile.RenderedReadsBack` | `node-rs/src/instance_manager.rs:1421-1440` | Under any comment lines, the rendered file reads back as the exact key/value list, with one line per entry |
| `EnvFile.Render` | `node-rs/src/instance_manager.rs:1421-1440` | The rendering loop writes the specified file; with two comment lines and accepted keys it reads back as the entries |
| `EnvFile.LineReadsBackExactlyWhen` | `node-rs/src/instance_manager.rs:1421-1440` | For any value, a written line gives its entry back if and only if the key has no equals sign and does not start a comment; accepted keys qualify |
| `EnvFile.UnquoteUndoesEscape` | `node-rs/src/instance_manager.rs:1424-1437` | Reading a double-quoted value undoes the escaping, whatever follows it |
| `EnvFile.EscapedCharacters` | `node-rs/src/instance_manager.rs:1424-1437` | Exactly backslash, double quote, dollar, newline and carriage return get a backslash; every other character stands for itself |
| `EnvFile.EscapeConcat` | `node-rs/src/instance_manager.rs:1424-1437` | A value is escaped character by character |
| `EnvFile.EscapedStaysOnItsLine` | `node-rs/src/instance_manager.rs:1424-1437` | No value breaks its line |
| `EnvFile.RenderedIsInjective` | `node-rs/src/instance_manager.rs:1421-1440` | Two environments never share a file |
| `ShellQuote.QuotedIsOneWord` | `node-rs/src/frontend_build.rs:708-710` | Quote removal on the escaped and single-quoted string gives the original string, as one word |
| `ShellQuote.EscapeExactly` | `node-rs/src/frontend_build.rs:706-710` | Every single quote, and nothing else, is replaced by the five-character sequence of the source |
| `ShellQuote.QuotedAddsItself` | `node-rs/src/frontend_build.rs:708-710` | Whatever stands before and after it, the quoted string extends the current word by exactly itself |
| `ShellQuote.ShellCommandIsThreeWords` | `node-rs/src/frontend_build.rs:386-416` | The build script's command line is three words, the last one the command as given |
| `ShellQuote.RawQuotesExactlyWhen` | `node-rs/src/frontend_build.rs:706-710` | Single quotes alone are right if and only if the string holds no single quote |

## Left out

- SQLite, the file system, Docker, HTTP, tracing and async plumbing: tables are sequences and maps with their unique keys, and a failed call ends or skips the step.
- Hex and base64 encodings, JSON, request authentication and instance id checks.
- More than one instance per primary, and concurrent receives of one instance at one replica: the receiver is atomic but for a crash between its file write and its row insert.
- WalCatchUp.ReplicaEqualsPrimary: asks that no pass dies between a row insert and the shipment to that replica, because the code then loses the shipment for good, and that none of its turns is unanswered, because of `LostFirstRequest`; the safety theorems cover both.
- A replica registered while a pass runs counts from the next pass on, as the pass reads its replica list once.
- In the escrow, minting, freezing and closing of token accounts, events and the rent of the escrow account; an account not yet in use counts as an empty one.
- In staking, endpoint and region strings, program-derived addresses and events are not modelled; a registration's rent is a configuration value.
- `allocate_instance` and `migrate_instance` appear only as taking and releasing an instance at a node; that the active count equals the number of live instances is not kept by the code.
- `allocate_port_block_at`, the warm pool and the ports derived outside the ten-port block.
- Signature and body-hash checks beside the nonce window; the nonce is recorded before them.
- In the nonce window, instants are whole milliseconds of one monotonic clock, and the wall clock runs beside it at a fixed offset.
- The reader of `.env` files covers comments and double-quoted values, the only forms the renderer writes.
- In the shell's reading, tilde, parameter and command expansion, globbing and operators are not interpreted; text that would need them has no literal reading.
- `integrity.rs`, TEE reports, migration scripts, the studio token, job admission and the build store: dead code, fixed-offset reads or input and output.
