# A verified model of the DataCapsule file system client

DCFS stores a file as a set of records named by hashes. A client keeps the blocks of an open file in a
write-back cache. On last close it sends the dirty blocks, encrypted, to a middleware, which turns them
into a batch of records (data blocks, a block map, an inode) and moves an index to the new inode. Records
travel to the servers through a client that multicasts them and waits for acknowledgements.

This project models that path in Dafny and proves what it guarantees: about every input, every run,
every message order and every point at which a write may fail. Methods carry the program's own control
flow; each is tied to a specification function, and the theorems are about those functions and about
runs of them.

| file | what it holds |
|---|---|
| `Bytes.dfy`, `BlockLayout.dfy` | bytes and names; a byte range laid out over fixed-size blocks |
| `FlatFile.dfy` | the file as a flat byte sequence, and what the code makes of it |
| `BlockmapCodec.dfy` | the block map: serialised form, the client's reading, the middleware's update |
| `MapSessions.dfy` | the block map over many sessions, as the update loop means it |
| `Ciphers.dfy` | what is assumed of the cipher, and that the assumption can be met |
| `Capsules.dfy`, `Commits.dfy`, `Histories.dfy` | records, one commit, whole runs of commits |
| `Middleware.dfy` | the middleware and record server as an object |
| `BlockCache.dfy`, `Sessions.dfy` | the block cache and file handle as objects; write, close, reopen |
| `Reloads.dfy`, `Lifecycles.dfy` | what a handle on a stored version shows; a file from creation over its first and later sessions |
| `DcClient.dfy`, `Replication.dfy` | the replication client as an object; the protocol over all message orders |
| `Handles.dfy`, `Clients.dfy` | open files, descriptors and reference counts; one client with its store |
| `HexNames.dfy`, `WireSizes.dfy` | names as file paths; encoded record sizes against readers' buffers |
| `Consistency.dfy` | an instance of the assumptions on runs |

`dafny verify dfyconfig.toml` checks everything.

## Main results

- **The cache is a flat file, except where it is not** (`FlatFile.RunExact`, `Sessions.RunOps`). The cache
  methods are proved to splice exactly the bytes the code copies, over blocks of any size. From that: an
  interleaving of reads and writes behaves as a flat byte sequence whatever lies in memory behind the
  callers' buffers, if and only if no block-crossing write ends strictly inside the file.
- **Commits are atomic, versions immutable, history linear and chains complete** over any run of creations
  and modifications of any files in which any write may fail (`Histories.StoreInvariant`,
  `Commits.ModifyAtomic`, `Histories.VersionImmutable`, `Histories.LinearHistory`, `Histories.ChainComplete`).
  That a chain never meets itself is derived from the links alone, not from fresh time stamps.
- **Coherence and isolation** (`BlockCache.RecordCache.FlushCache`, `BlockCache.Inode.Unref`,
  `Sessions.CloseBeside`, `Sessions.WorkAcrossClose`). The cache stays coherent across fill, read, write
  and flush, and whatever other files commit to the same store, wherever such a commit stops, an open
  file keeps its contents.
- **Close and reopen** (`Sessions.CloseAndReopen`) composes split, reference count, flush, encryption,
  commit, load, decryption and split: each block comes back unless its name starts with a zero byte or
  the map exceeds the cover. `Lifecycles.WriteCloseReopen` puts it behind any sequence of operations on a
  new file, and `Lifecycles.LaterCommitShows` says what later sessions come back as.
- **One client** (`Clients.Reachable`, `Clients.FlushNeverRefused`, `Clients.VersionsAreCommits`): in every
  reachable state of handles, inodes and store together every in-memory inode stands on the latest version
  of its file, so no flush is refused, and a file has as many versions as last closes whose writes went
  through.
- **Any number of sessions** (`Sessions.MapOverFlushes`): with the stored size loaded, which the update
  loop is written for, entry i of the block map is the name from the last session in which block i was
  dirty. `Histories.CommitUpdatesMap` says what happens without.
- **Quorum safety and progress** over all message orders (`Replication.QuorumSafety`,
  `Replication.ReturnExact`, `Replication.DoneExact`, `Replication.PutCanFinish`, `Replication.WrittenCanBeRead`).

## Assumptions

- The header hash is a parameter `nameOf` into 32-byte strings. A request is legal (`Commits.LegalModify`)
  if the records of its own batch do not collide with each other or with different records of the same
  file. Creations are assumed not to share a clock tick; `Commits.CreateForgetsExact` says when one that
  does takes versions away. `Consistency.TwoCommits` builds legal runs, so the assumptions are not empty.
- Encryption is a pair of functions with `dec(k, enc(k, m)) == m` and the padded length of section 6.3 of
  RFC 5652. `Ciphers.AddOneSound` gives an instance.
- Clocks, the answers of the file system, allocation results and message delivery are parameters.
- The record server is the simulated one, with one directory per file (`src/fs/backend_sim.cpp:428-478`).
- The client's block size equals the middleware's.

## Where the code does less than it means to

Each of these is kept as the code has it, with a lemma that says exactly when the intent is met.

- A block-crossing write copies one byte too many: `FlatFile.OneWriteExact`, `FlatFile.RunExact`. A
  block-crossing read stores one byte too many in the caller's buffer: `BlockCache.RecordCache.Read`.
- The middleware never loads the stored size, so it only appends to the block map, and records the size
  of the last flush: `BlockmapCodec.WrittenUpdateExact`, `Histories.CommitUpdatesMap`. With the size
  loaded the same loop does what is meant: `BlockmapCodec.LoadedSizeUpdates`, `Sessions.FlushUpdatesMap`.
- From the second version on the stored key is encrypted again: `Histories.KeyRounds`,
  `Histories.RunKeysExact`, with a failing run in `Consistency.KeyDriftsInRun`.
- The name of a new file depends on the clock alone, so a second creation in one tick resets the index
  entry of the first: `Commits.CreateForgetsExact`, with a failing run in `Consistency.SecondCreationForgets`.
- A name is taken as absent if its first byte is zero: `BlockmapCodec.CodecAgreement`.
- The test for an unknown file cannot fire, because the comparison before it enters the name into the
  index; such a request still fails, at its first write, but the entry stays, and a later lookup of the
  name answers success with an empty inode name: `Commits.ModifyAtomic`, `Middleware.Backend.GetInodeName`.
- A block map beyond the cover is committed but cannot be loaded. The first read of such a version fails;
  the failed load leaves a map of zeros behind, so every read after it succeeds and returns zeros:
  `Reloads.ShownExact`, with the failing input in `Lifecycles.ReadTwice`.
- The last close returns 0 and releases the inode, with all that was written, even if its flush failed:
  `Clients.FailureIsSilent`, with a failing run in `Consistency.SilentLoss`.
- A later session that flushes no more blocks than the file had shows none of its writes when reopened:
  `Lifecycles.LaterCommitShows`.
- A second `Put` of a hash never returns: `Replication.SecondPutBlocks`, `Replication.ReturnExact`.
- The comment on the inode payload lists a 16-byte key; the code stores the 32 bytes of its encryption,
  and that is what the model has: `Capsules.INODE_PAYLOAD_SIZE`.
- A new file always comes back with its size rounded up past its end, even when it ended on a block
  boundary: `Sessions.CloseAndReopen`.

## Model

| member | source | states |
|---|---|---|
| FlatFile.OneWriteExact | src/fs/inode.cpp:218-255 | a write stores exactly what was asked, whatever follows the buffer in memory, if and only if it does not cross a block boundary and end strictly inside the file |
| FlatFile.RunExact | src/fs/inode.cpp:426-448 | for any interleaving of reads and writes, the file equals the flat byte sequence after every operation and for every content of memory behind the buffers, if and only if no write of the run spills |
| FlatFile.FlatWriteBytes | src/fs/inode.cpp:437-448 | the intended write byte by byte: at or beyond the end it appends; inside the file it overwrites in place and extends by what it reaches beyond |
| FlatFile.FlatReadBytes | src/fs/inode.cpp:426-435 | a read returns as many bytes as asked for and left in the file, each from its own place |
| FlatFile.CodedWriteBytes | src/fs/inode.cpp:218-255 | the write as coded byte by byte: as intended, except that the byte behind it comes from behind the buffer if offset in the block and size reach the next block and the file goes on there |
| FlatFile.ReadBack | src/fs/inode.cpp:426-448 | what was written is read back from where it went |
| BlockLayout.FlatPatch | src/fs/inode.cpp:231-252 | a copy into one block is a copy at the block's address in the concatenation |
| BlockLayout.SplitRange | src/fs/inode.cpp:183-188 | first and last block and the offsets in them address the two ends of the range, and a range inside one block fits it |
| BlockCache.RecordCache.constructor | src/fs/inode.hpp:73-79 | both vectors get one block more than the size fills, nothing cached or dirty |
| BlockCache.RecordCache.FillBmcache | src/fs/inode.cpp:322-344 | the map is fetched once, zero-filled to the cover; the call fails exactly if the record cannot be read, and leaves zeros then |
| BlockCache.RecordCache.BmCheck | src/fs/inode.cpp:347-364 | the name at an index, absent without a map, beyond the cover, or if its first byte is zero |
| BlockCache.RecordCache.FillOne | src/fs/inode.cpp:275-317 | one turn of the fill caches the block, extends both vectors in step, and changes no block as seen by the client |
| BlockCache.RecordCache.FillDcache | src/fs/inode.cpp:259-320 | the fill keeps the coherence invariant, makes the whole range cached, alters nothing a client can see, sets no dirty flag, and fails exactly if a needed block cannot be read, or the map cannot and no fill tried before; after a failed load it goes on with a map of zeros |
| BlockCache.RecordCache.Read | src/fs/inode.cpp:179-215 | stores the bytes of the range, and one more if it crosses a block boundary; contents and dirty flags stay |
| BlockCache.RecordCache.Write | src/fs/inode.cpp:218-255 | splices the caller's bytes, and one more if the range crosses a block boundary, into the contents; exactly the blocks of the range become dirty; the invariant holds |
| BlockCache.RecordCache.FlushCache | src/fs/inode.cpp:367-424 | sends the dirty blocks encrypted in increasing order as one request, and drops the cache exactly if the backend accepted it; the store stays well-formed and loses nothing, and the cache is coherent afterwards in both cases, with unchanged contents after a failure |
| BlockCache.RecordCache.Undisturbed | src/fs/inode.cpp:259-364 | a cache keeps its coherence, its map and every block it shows when records are added to the store |
| BlockCache.Inode.Undisturbed | src/fs/inode.cpp:426-448 | so does an open file keep its contents |
| BlockCache.DirtyRunGrows | src/fs/inode.cpp:437-448 | the offset clamp keeps every block between the old and the new end dirty and none beyond |
| BlockCache.Inode.constructor | src/fs/inode.cpp:91-125 | a handle for a stored or a new file satisfies the invariant with nothing cached |
| BlockCache.Inode.Read | src/fs/inode.cpp:426-435 | returns the bytes the handle shows, cut at the end of the file, and leaves them as they were: byte j is byte offset + j, for as many as were asked for and are left; it fails exactly if the fill does |
| Reloads.MapLoadsExact | src/fs/inode.cpp:322-344 | the block map of a stored version can be loaded if and only if it has no more entries than the cover; otherwise the client is left with zeros |
| Reloads.ShownExact | src/fs/inode.cpp:259-364 | a handle shows the blocks of its version if and only if the map is within the cover or there are only zeros to show; beyond the cover it shows zeros |
| Sessions.CleanBlocksShow | src/fs/inode.cpp:259-364 | the same for the clean blocks of a handle in any state |
| Lifecycles.ReadTwice | src/fs/inode.cpp:326-340 | the failing input: with a map that cannot be loaded the first read fails and the second succeeds with zeros |
| BlockCache.Inode.Write | src/fs/inode.cpp:437-448 | a write at or beyond the end appends; one inside the file replaces its bytes, and the one behind them if it crosses a block; the size grows to its end if that lies beyond |
| BlockCache.Inode.Ref | src/fs/inode.cpp:163-165 | one more reference |
| BlockCache.Inode.Unref | src/fs/inode.cpp:167-176 | one reference less; only the last one flushes, and only if something is dirty; the cache stays coherent, and unless a version was committed the file is as it was |
| BlockmapCodec.ParseUndoesSerialise | src/fs/backend_sim.cpp:270-276 | parsing a serialised map gives the map back |
| BlockmapCodec.ParsePayload | src/fs/backend_sim.cpp:270-276 | the parsing loop computes the parse of the payload |
| BlockmapCodec.SerialiseMap | src/fs/backend_sim.cpp:345-352 | the copying loop fills the buffer with the serialised map |
| BlockmapCodec.EntryOfMap | src/fs/inode.cpp:347-364 | what the client finds at any index of any map up to the cover |
| BlockmapCodec.CodecAgreement | src/fs/inode.cpp:326-363 | the middleware's list and the client's buffer describe the same map if and only if no name in it starts with a zero byte |
| BlockmapCodec.UpdateMap | src/fs/backend_sim.cpp:339-344 | the update loop, for the inode size it is run with, computes the specified update |
| BlockmapCodec.LoadedSizeUpdates | src/fs/backend_sim.cpp:339-344 | run with the stored size, on ascending blocks without a hole, the loop is the indexed map update |
| MapSessions.SizeFollowsMap | src/fs/backend_sim.cpp:339-344 | after such an update the end of the furthest block is the size of the map, so a middleware that recorded it, where this one counts the blocks of the flush, could rely on it in the next session |
| MapSessions.MapOverSessions | src/fs/backend_sim.cpp:339-344 | over any number of such sessions the map has just the blocks ever pushed, each with the name from the last session that pushed it |
| BlockmapCodec.ZeroSizeAppends | src/fs/backend_sim.cpp:339-344 | run with size 0, as the middleware does, it appends every block |
| BlockmapCodec.WrittenUpdateExact | src/fs/backend_sim.cpp:339-344 | so the written update is the indexed one if and only if the flush carries just the blocks directly behind the map |
| BlockmapCodec.RewriteIsLost | src/fs/backend_sim.cpp:339-344 | a second flush of block 0 keeps the stale name in entry 0 |
| Capsules.DataRecordAt | src/fs/backend_sim.cpp:294-327 | each data record of a batch carries its block and links to the one before, the first to the latest stored one or the META record |
| Capsules.AddedClosed | src/fs/backend_sim.cpp:287-401 | if every record is supported by those pushed before it, the capsule is closed wherever the pushes stop |
| Commits.BaseFound | src/fs/backend_sim.cpp:244-281 | in a well-formed store the inode and block map a request needs are there and parse |
| Commits.BatchSupported | src/fs/backend_sim.cpp:287-401 | the push order data, block map, inode keeps every prefix of a batch supported |
| Commits.ModifyKeepsInv | src/fs/backend_sim.cpp:196-408 | wherever a request stops, the store stays well-formed and no stored record changes |
| Commits.ModifyAtomic | src/fs/backend_sim.cpp:225-401 | a failed request moves no index entry, a successful one only its own; it succeeds exactly if it names the latest version, the file exists and every write goes through; in any case the file is in the index afterwards, an unknown one with the empty name |
| Commits.ModifyStopsAt | src/fs/backend_sim.cpp:225-400 | a request that does not name the latest version is refused without a write; one that does stores exactly the records before its first failing write |
| Commits.ModifyLinksBack | src/fs/backend_sim.cpp:298-374 | inode, block map and first data block of a new version link to inode, block map and last data block of the one before, those of a first version to META |
| Commits.ModifyPublishes | src/fs/backend_sim.cpp:329-401 | the new version's map is the old one followed by the new blocks, all stored; its links, size field and key field are as stated |
| Commits.CreateKeepsInv | src/fs/backend_sim.cpp:151-169 | a creation with a new name keeps the store well-formed and all other files as they were |
| Commits.CreateForgetsExact | src/fs/backend_sim.cpp:118-169 | a creation keeps the latest version of every file if and only if its write fails or the name it gets has no version yet |
| Consistency.SecondCreationForgets | src/fs/backend_sim.cpp:118-169 | a legal run after which a second creation in the same clock tick takes the versions of the first file away |
| Histories.StoreInvariant | src/fs/backend_sim.cpp:151-408 | in every reachable store every name reachable from the index is a stored record of the right kind |
| Histories.RecordsPersist | src/fs/backend_sim.cpp:318-400 | over any run no stored record changes or disappears |
| Histories.VersionImmutable | src/fs/backend_sim.cpp:86-149 | the blocks, size and key reached from any committed inode are the same in all later states |
| Histories.HistoryTracked | src/fs/backend_sim.cpp:244-401 | every reachable store carries the full history of every file: both chains, the map and the keys |
| Histories.ChainComplete | src/fs/backend_sim.cpp:307-374 | first links from the latest inode visit each committed version once and end at META; those from its block map visit the block map of each version once; those from the latest data block visit each committed block once in reverse order; the map lists them in order |
| Histories.LinearHistory | src/fs/backend_sim.cpp:226-228 | of two commits on a file the later is based on a version not older than the earlier one's result, so no two share a base |
| Histories.NeverReturns | src/fs/backend_sim.cpp:226-401 | any two states of a run with a commit of the file between them have different latest versions: the index never returns to a version |
| Histories.IndexMovesExact | src/fs/backend_sim.cpp:151-401 | the latest version of a file is the same in two states of a run if and only if no commit of that file lies between them |
| Histories.CommitUpdatesMap | src/fs/backend_sim.cpp:339-378 | at every commit of every run the published map is the indexed update if and only if the flush lies directly behind the old map, and the recorded size covers the map if and only if it is the first commit |
| Histories.KeyRounds | src/fs/backend_sim.cpp:256-392 | the key a client gets for version i is the first one after i rounds of encrypt-and-truncate |
| Histories.RunKeysExact | src/fs/backend_sim.cpp:256-392 | in any run, once a file has two versions, all of them hand out its first key if and only if encrypting that key with the middleware's and cutting it to 16 bytes gives it back |
| Histories.KeyStableExact | src/fs/backend_sim.cpp:385-392 | the same for the rounds of encrypt-and-truncate by themselves |
| Consistency.KeyDriftsInRun | src/fs/backend_sim.cpp:256-392 | for every key and any two flushes there is a legal run whose first version hands out that key and whose second another one |
| Middleware.Backend.WriteRecord | src/fs/backend_sim.cpp:455-478 | only the record that bears the capsule's name creates the directory; other writes to a missing one fail |
| Middleware.Backend.ReadRecord | src/fs/backend_sim.cpp:428-450 | the stored record or not found |
| Middleware.Backend.CreateNew | src/fs/backend_sim.cpp:151-169 | stores the META record and enters the file with no version, or fails without effect |
| Middleware.Backend.GetInodeName | src/fs/backend_sim.cpp:177-194 | the latest inode name of a known file |
| Middleware.Backend.ReadBase | src/fs/backend_sim.cpp:244-281 | what a request takes from the stored version, or that it is missing |
| Middleware.Backend.PushBlocks | src/fs/backend_sim.cpp:289-327 | the push loop writes the data records of the batch up to the first failure and returns their names and offsets |
| Middleware.Backend.PublishVersion | src/fs/backend_sim.cpp:329-405 | writes block map and inode and moves the index only after both |
| Middleware.Backend.Modify | src/fs/backend_sim.cpp:196-408 | the whole request is the specified step: result code, index and records |
| Middleware.Backend.WriteBlocks | src/fs/backend.cpp:110-144 | a flush without blocks asks for nothing, any other is one request |
| Sessions.FlushOrder | src/fs/inode.cpp:380-402 | a flush carries each dirty block once, encrypted, in increasing order at its own offset |
| Sessions.FlushHasNoHole | src/fs/inode.cpp:380-402 | the flushed blocks at or beyond the file-backed ones form one run that starts where those end |
| Sessions.FlushUpdatesMap | src/fs/backend_sim.cpp:339-344 | whatever was written to a stored file, the flush carries blocks for which the loop, given the stored size, is the indexed update, and the furthest block ends where the updated map does |
| Sessions.MapOverFlushes | src/fs/backend_sim.cpp:339-344 | any number of sessions on one file, each opened with the size the one before stored: entry i of the map is the name from the last session in which block i was dirty |
| Sessions.FirstFlush | src/fs/inode.cpp:380-402 | the first flush of a new file carries its blocks 0, 1, ... up to the one that holds its end |
| Sessions.FirstCommitComesBack | src/fs/backend_sim.cpp:287-405 | after the first commit size, key and blocks are recorded; the map loads back if and only if it is within the cover, and then every block does, up to the zero-byte test |
| Sessions.Apply | src/fs/dcfs.cpp:245-293 | one read or write on an open file is one step of the flat specification |
| Sessions.WriteThenRead | src/fs/dcfs.cpp:245-293 | a read of the place a write went to returns the bytes the write was given |
| Sessions.RunOps | src/fs/inode.cpp:179-255 | any sequence of them is a run of it, and every read returned the bytes the file then held |
| Sessions.ReadFileMeta | src/fs/backend.cpp:25-74 | name, size, key and block map of the latest version |
| Sessions.OpenStored | src/fs/inode.cpp:44-79 | a handle on the latest version with those values and an empty cache |
| Sessions.Close | src/fs/inode.cpp:167-176 | the close of a new file commits it exactly if it drops the last reference, the file exists and all writes go through, and then its blocks are recorded; otherwise it has no version and the handle shows what it did |
| Sessions.Reopen | src/fs/inode.cpp:44-79 | a handle on a recorded version shows its blocks if they are within the cover, and zeros otherwise |
| Sessions.CloseBeside | src/fs/inode.cpp:167-424 | closing any file, last close or not, wherever the flush stops, leaves every other open file readable and with its contents |
| Sessions.WorkAcrossClose | src/fs/inode.cpp:167-448 | operations on one file before and after the close of another form one run of the flat specification |
| Sessions.CloseAndReopen | src/fs/inode.cpp:44-424 | the round trip: same key, size rounded up to the block that holds the end, each block as it was unless its name starts with zero or there are more blocks than the cover, hence all bytes below the old size otherwise; other open files notice nothing |
| Lifecycles.WriteCloseReopen | src/fs/dcfs.cpp:152-332 | create, any reads and writes, last close, reopen: within the cover and with passing names the file starts with the bytes of the coded run, which are those of the flat run if nothing spills |
| Lifecycles.LaterCommitShows | src/fs/backend_sim.cpp:339-378 | after a later commit in any run, with a stable key, a handle shows the old blocks, then the flushed ones, cut to the size of the flush; so none of the writes if it flushed no more blocks than there were |
| Clients.Reachable | src/fs/dcfs.cpp:152-332 | in every reachable state of one client the counts are right, its requests are a legal run, and every in-memory inode names the latest version of its file and has its key |
| Clients.FlushNeverRefused | src/fs/backend_sim.cpp:225-228 | at every last close the request passes the version comparison, and succeeds if and only if its writes do |
| Clients.FailureIsSilent | src/fs/dcfs.cpp:319-331 | at every last close the call returns 0 and the inode is gone, while the file gets a new version if and only if all writes went through |
| Clients.VersionsAreCommits | src/fs/dcfs.cpp:297-332 | at any point of any run a file has as many versions as last closes with something dirty whose writes all went through |
| Clients.PendingExact | src/fs/dcfs.cpp:216-293 | at every call of every run a write sets what its own file has to flush, a file that comes into memory has nothing, and other calls change it for no file in memory |
| Consistency.SilentLoss | src/fs/dcfs.cpp:319-331 | a run in which what was written is lost in a close that returns 0 |
| DcClient.DCClient.PutBegin | src/dc-client/dc_client.cpp:26-43 | registers the hash, and multicasts exactly if it was not outstanding |
| DcClient.DCClient.PutEnd | src/dc-client/dc_client.cpp:45-57 | a finished write is removed |
| DcClient.DCClient.CommitAck | src/dc-client/dc_client.cpp:108-121 | marks an outstanding write done, or reports that there is none |
| DcClient.DCClient.HandleAck | src/dc-client/client_comm.cpp:161-178 | counts the acknowledgement and commits exactly when the count equals the threshold |
| DcClient.DCClient.GetBegin | src/dc-client/dc_client.cpp:60-94 | registers the key, and sends a request exactly if it was new |
| DcClient.DCClient.HandleGetResp | src/dc-client/client_comm.cpp:179-208 | files a successful response under its hash and the kind its payload suggests |
| Replication.PutInvKept | src/dc-client/client_comm.cpp:94-178 | every protocol step keeps the phase invariant of every hash and conserves its messages: each multicast is, for each server, under way to it, under way back, or counted |
| Replication.PutCanFinish | src/dc-client/dc_client.cpp:26-57 | from every reachable state a first outstanding write can be brought to return by delivering the messages under way, given enough servers |
| Replication.QuorumSafety | src/dc-client/dc_client.cpp:26-57 | when a write returns, as many servers as the threshold store its record, then and ever after |
| Replication.ThresholdNotLost | src/dc-client/dc_client.cpp:34-43 | the acknowledgement that reaches the threshold finds its write outstanding and finishes it |
| Replication.CommitOnce | src/dc-client/client_comm.cpp:170-177 | the threshold is reached at most once per hash in a run |
| Replication.ReturnExact | src/dc-client/dc_client.cpp:45-57 | at any point of any run a write can return if and only if its acknowledgements have reached the threshold and no write of its hash has returned |
| Replication.SecondPutBlocks | src/dc-client/client_comm.cpp:170-171 | after a write has returned, no later write of the same hash ever can |
| Replication.EveryServerServes | src/dc-client/client_comm.cpp:109-118 | with the threshold equal to the number of servers, whichever server is asked after the return holds the record |
| Replication.ReplyFinishes | src/dc-client/dc_client.cpp:123-142 | a response with a payload finishes the outstanding request for its hash |
| Replication.DoneExact | src/dc-client/client_comm.cpp:179-208 | at any point of any run a request is done if and only if a response to it was taken after it was sent, and from then on it holds the record its hash names |
| Replication.GetCanFinish | src/dc-client/dc_client.cpp:60-106 | if the asked server holds the record, serving it and taking the response finishes the request |
| Replication.WrittenCanBeRead | src/dc-client/dc_client.cpp:26-106 | after a write has returned under a threshold of all servers, any outstanding request for it can be finished with that record |
| Replication.GetAgrees | src/dc-client/dc_client.cpp:60-106 | no key is requested twice in a run, and a finished request holds the record its hash names, which has a payload |
| Handles.Dcfs.Create | src/fs/dcfs.cpp:152-182 | refuses an existing name, otherwise enters the file with one reference under a new descriptor |
| Handles.Dcfs.Open | src/fs/dcfs.cpp:184-214 | finds or loads the inode, references it and gives a new descriptor |
| Handles.Dcfs.GetAttr | src/fs/dcfs.cpp:96-125 | keeps the inode in memory without a reference |
| Handles.Dcfs.Flush | src/fs/dcfs.cpp:297-332 | drops a reference; the last one flushes, releases the inode and clears the descriptor |
| Handles.SuccessExact | src/fs/dcfs.cpp:152-214 | a creation succeeds exactly for a new path that can be allocated, an open exactly for a known one that is in memory or can be loaded; every directory entry is kept and a failed call changes nothing |
| Handles.EntriesStay | src/fs/dcfs.cpp:152-182 | over any run a directory entry never changes |
| Handles.OpensExact | src/fs/dcfs.cpp:152-214 | at every step of every run that condition decides, and the new descriptor was not open and is on the file of the path |
| Handles.UnrefSafe | src/fs/inode.cpp:167-176 | the reference-count assertion holds for every open handle |
| Handles.Accounting | src/fs/dcfs.cpp:152-214 | in every reachable state the reference count of a file is the number of handles open on it, its inode is in memory, and all handles opened by one path are on one file of their own |
| Handles.FlushedAtLastClose | src/fs/dcfs.cpp:319-328 | the cache of a file is flushed exactly at the close of its last open handle |
| HexNames.BinaryToHex | src/util/encode.cpp:4-12 | the loop computes the lower-case base16 form |
| HexNames.HexToBinary | src/util/encode.cpp:14-22 | the loop decodes two digits a byte |
| HexNames.EncodeDigits | src/util/encode.cpp:4-12 | digits 2i and 2i + 1 are those of the high and the low half of byte i, in lower case |
| HexNames.DecodeBytes | src/util/encode.cpp:14-22 | every two digits give one byte, a digit left over its own value |
| HexNames.DecodeUndoesEncode | src/util/encode.cpp:4-22 | decoding undoes encoding for every byte string |
| HexNames.PathsDistinct | src/fs/backend_sim.cpp:428-467 | distinct (file, record) pairs have distinct paths |
| WireSizes.FullMapExact | src/fs/backend.cpp:87-101 | for every time stamp, a block map of full cover fits the client's buffer if and only if reply address and time field take at most 417 bytes, so with the longest time stamps an address of 406 |
| WireSizes.RecordsFit | src/fs/backend.hpp:46-55 | with such an address every inode, block-map and data record of a well-formed store, within cover and block size, fits the buffer of each of its readers |
| Consistency.TicksNameFiles | src/fs/backend_sim.cpp:118-161 | when names follow the time, two creations get the same name if and only if they share a tick |
| Consistency.NewTimesDoNotCollide | src/fs/backend_sim.cpp:118-130 | records with new, distinct time stamps meet the collision assumption when names follow the time |
| Consistency.ClockedModify | src/fs/backend_sim.cpp:196-408 | with a running clock every request on an existing file is legal |
| Consistency.TwoCommits | src/fs/backend_sim.cpp:226-401 | for any two flushes there is a legal run that commits both on one file |

## Left out

- BlockCache.RecordCache.Write: requires that the blocks of its range can be read. The code copies even when the fill has failed, and returns the error afterwards: the block whose read failed is allocated but holds no data, so a write inside that one block leaves it dirty and not cached, and a write beyond it copies into blocks that were never allocated.
- BlockCache.Inode.Write: requires the same, for the same reason.
- Sessions.Apply: requires that everything the block map names can be read, for the same reason.
- Sessions.RunOps: requires the same.
- BlockCache.RecordCache.FetchBlock: bytes of a block buffer that a short decrypted payload does not reach are taken as zeros; the code leaves them uninitialised.
- BlockCache.Inode.Read: the read size for an offset beyond the end is taken as 0; the code leaves it unset.
- Middleware.Backend.ReadRecord: a buffer too small for the record and errors of the disk are not modelled; `WireSizes.RecordsFit` shows that the buffers suffice.
- Middleware.Backend.WriteRecord: a failed write stores nothing; a file cut short by a failing disk and an empty directory left by a failed META write are not modelled.
- Middleware.Backend.Modify: requires that stored inode and block-map records parse, which `Commits.BaseFound` gives for every reachable store; signatures are taken as valid.
- Middleware.Backend.CreateNew: the random file key it also returns is the `key` argument of the client's handle.
- Sessions.ReadFileMeta: requires that the inode record exists, because the code aborts otherwise; so reopening a file that was closed without a commit is not modelled.
- Sessions.OpenStored: requires the same.
- Handles.Dcfs.GetAttr: requires that the file can be loaded, because the code dereferences null otherwise.
- Handles.Dcfs.Create: requires a free descriptor; descriptors are never reused, and the code writes past its table after 245 opens.
- Handles.Dcfs.Open: requires a free descriptor, for the same reason.
- Handles.Dcfs.Flush: one flush per handle; requests that come without a descriptor and look the file up by path are not modelled.
- HexNames.HexToBinary: requires hexadecimal digits, which is what the program's own names consist of; what `strtol` makes of other characters is not modelled.
- Sessions.CloseAndReopen: new files with something written to them; for later sessions `Lifecycles.LaterCommitShows`, `Histories.CommitUpdatesMap` and `Histories.KeyRounds` say what the code does instead.
- Clients.Reachable: a write leaves any list of blocks to be flushed, and files that have to be loaded have a version, because the code aborts otherwise; what the caches hold is in `Sessions`.
- 64-bit overflow of offset plus size, and of counters; only the stored size field is taken modulo 2^64.
- Sharing between block buffers: blocks are values, so aliasing and release of memory are not captured.
- The networked record server as a whole: its client and protocol are modelled, but the commits are proved over the simulated server.
- Freshness and metadata-only requests, proxy mode: not used by the file system.
- Directory iteration, attribute formatting, option parsing, logging, address parsing, sockets, threads and locks: plumbing; each lock region is one atomic step.
- OpenSSL calls: foreign code, represented by the assumptions above.
