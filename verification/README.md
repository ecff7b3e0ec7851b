# Verified models of a C implementation of IPFS

Dafny models of the parts of the node in which most can go wrong, with proofs of
what they promise. `dafny verify dfyconfig.toml` checks everything.

| files | what they model |
|---|---|
| Basics.dfy | options and bytes, shared by the rest |
| JobQueue.dfy, ThreadPool.dfy | the thread pool: its linked job list as heap objects, and the pool as a transition system of any number of workers, producers and callers of `thpool_wait` |
| Jsmn.dfy, JsmnTheory.dfy, JsmnTree.dfy, JsmnText.dfy, JsmnParser.dfy | the JSON tokenizer: what it computes, what that promises of tokens, tree and text, and the parser object that works in place on the token array |
| Wire.dfy | the Protocol Buffers wire format, the output buffer of the encoders and the loop of the decoders |
| Blocks.dfy, Nodes.dfy, Messages.dfy, Journals.dfy | the nested codecs: cids, blocks, UnixFS records, links and nodes, bitswap messages, journal messages |
| Layouts.dfy | what the encoders write byte by byte, and how much their estimates leave over |
| Decoders.dfy | what the decoders make of any bytes |
| Dag.dfy, Import.dfy, Export.dfy, Stores.dfy | the Merkle DAG, chunked import, export and cat, and the stores that any number of imports build |
| Requests.dfy, Bitswap.dfy | bitswap as functions and as a system of any number of nodes whose messages are bytes in flight, and the safety of every run |
| BitswapHistory.dfy | what whole runs of bitswap never undo and never repeat |
| BitswapDelivery.dfy | that what is asked for is served, delivered and filled in |
| BitswapBlocking.dfy | where the wantlist stands still |
| BitswapQueues.dfy, BitswapEngine.dfy | bitswap's queues and threads as objects that change in place, proved against the functions |
| Pins.dfy | reachability in the DAG |
| Proquint.dfy | the proquint codec |

Code that changes things step by step is a class or a method with loops. Its
contract ties it to a function on values, and the theorems are about that function.

## What is taken as given

- The wire format is that of the sections "Base 128 Varints" and "Length-Delimited
  Records" of the public Protocol Buffers Encoding document. A primitive encoder
  fails exactly when its field does not fit the rest of the buffer. A decoder reads
  a tag from the bytes that remain (the source passes the whole buffer's length
  there). A varint is read at any width and then narrowed to its C variable.
- C types: `int` has 32 bits, `size_t` and `unsigned long long` 64, and `char` is
  signed. The codec of a cid passes through a `char` on decoding, so it survives
  exactly from -128 to 127; `Cids.RoundTripExact` says so.
- The hash function is a parameter with 32-byte digests. It is never taken to be
  injective. Where two contents with one hash would break a promise, the promise
  names the nodes concerned (`CollisionFree`, `NoClash`, `NoCollisions`).
- Blockstore and datastore are one map from hash to bytes. A block read from it
  carries the cid it was asked for (blocks/blockstore.c:137). The router's `GetValue`
  reads the map and encodes the node again.
- A file has fewer than 2^56 - 1 bytes, so that all sizes of its nodes are exact.
- The chunk size is any positive number; the source's is `MAX_DATA_SIZE`, 262144.
- In the thread pool every stretch of code that the locks make atomic is one step.
  Posting the semaphore inside `jobqueue_push` and `jobqueue_pull` is a step of its
  own, since `thpool_wait` and `bsem_wait` do not take `rwmutex`. Wake-ups may be
  spurious, and a signal wakes any one sleeper. `threads_keepalive` may fall at any
  time.
- In bitswap the network may lose, repeat, delay and reorder messages. Whether a
  peer can be reached, whether a write succeeds and what the router finds are up to
  the environment. Nodes are honest: what is stored at first, or later by a node's
  user, is the data that its hash stands for.
- Entries have numbers where the source has addresses, and requests keep a history
  of what was put into messages. Neither influences what the code does.

## What turned out not to hold

- Two threads in `thpool_wait` at once: `pthread_cond_signal` wakes one of them, and
  nothing that the pool or any caller does afterwards wakes the other, short of new
  work or a spurious wake-up (`ThreadPools.StrandingExactly`: if and only if there
  are a worker and two callers).
- A link without hash, name and size does not fit its own estimate, because its
  empty name is written though not counted (`Nodes.LinkSizeBounds`).
- A journal message can be longer than its estimate, because the tag and length
  around each entry are not counted (`Journals.JournalFitsExactly`,
  `Journals.JournalCanOverrun`); with pins of 0 or 1 and hashes below 2^27 bytes it
  cannot. The pin of 200 in the example is one that the functions accept;
  journal/journal.c only makes entries with a pin of 1 (line 173).
- A cid whose codec does not fit a `char` is not read back (`Cids.LargeCodecIsLost`).
- A journal entry whose pin is above 1 is read back as unpinned
  (`Journals.RoundTripExact`).
- A block whose data does not fit the buffer can be reported as written, without its
  data: exactly where there was room for the cid but not for the data
  (`Blocks.WrittenExactly`, `Blocks.DataCanBeLost`).
- `ipfs_proquint_decode` means to refuse what is no proquint, but of such strings it
  refuses only those whose length plus one is a multiple of three
  (`Proquint.RefusesExactly`; `Proquint.NonsenseIsDecoded` decodes "bababa").
- The loop of `ipfs_proquint_decode` stays inside string and allocation exactly for
  lengths of 0 or 5 modulo 6 (`Proquint.StaysInsideExactly`). For 1, 3 and 4 it writes
  two bytes where one is left, and for 1 and 3 it also reads behind the string; 2 is
  refused. `ipfs_proquint_encode` writes before its allocation for an empty buffer.
- An entry of the wantlist that has failed eleven times stays first in its queue, and
  nothing behind it is tried or asked for until its block arrives
  (`BitswapBlocking.SpentBlocks`; `SpentIsReached` is a run from the start that gets
  there). `HeadBlocksExactly`: no turn can take the first open entry out of the way
  exactly if it is such an entry, or one that only other peers want and that is not in
  store. The second kind needs a caller of `ipfs_bitswap_wantlist_queue_add` with a
  remote session, of which the repository has none (exchange/bitswap/bitswap.c:186, 234);
  where all sessions are local it does not come about (`ForeignIsSpent`).
- A want is marked as asked for, and then never tried again, even if nothing was
  written to anybody: exactly if providers are found and none of them is reached
  (`BitswapBlocking.AskedInVainExactly`; `AskedInVain` is a run).
- `ipfs_exporter_to_filestream` and cat write different bytes for some nodes, since the
  first looks only one link deep and passes over the node's own bytes
  (`Exporter.ExportersAgreeExactly`, `ExportersCanDiffer`); for imported files they
  agree.
- The wantlist processor means to remove all sessions of an entry that failed too
  often, but its loop skips every other one (`Bitswap.SessionsRemain`: all are removed
  exactly if there is at most one, and every entry starts with two).

## Model

| member | source | states |
|---|---|---|
| JobQueues.JobQueue.Push | util/thread_pool.c:438-459 | on the linked list: the job goes behind all others and the semaphore is up |
| JobQueues.JobQueue.Pull | util/thread_pool.c:469-495 | the oldest job leaves, or NULL if there is none; the semaphore is posted exactly when jobs remain |
| JobQueues.JobQueue.Clear | util/thread_pool.c:422-433 | the list ends empty, with both ends NULL and the semaphore down |
| ThreadPools.StepInv | util/thread_pool.c:321-388 | every step of every thread keeps the whole invariant: counters, lock owners, job conservation, no lost wake-up, justified sleep |
| ThreadPools.ReachableInv | util/thread_pool.c:121-172 | so it holds in every reachable state, for any number of workers, producers and callers |
| ThreadPools.CountedStep | util/thread_pool.c:359-379 | num_threads_working is the number of workers between increment and decrement, num_threads_alive the number not gone |
| ThreadPools.ConservedStep | util/thread_pool.c:438-495 | queue = pushed minus pulled, each pulled job in one hand or executed, never both, never twice |
| ThreadPools.PullOrder | util/thread_pool.c:469-495 | the job pulled is always the oldest one not yet pulled: first in, first out over whole runs |
| ThreadPools.JobsAreConserved | util/thread_pool.c:366-372 | in every reachable state each job ever added is in the queue, in exactly one worker's hands, or executed, and only one of these |
| ThreadPools.NeverTwice | util/thread_pool.c:366-372 | a job about to be executed was added once and has not been executed before |
| ThreadPools.PassesArePosted | util/thread_pool.c:530-555 | over every run no more workers get past bsem_wait than posts were made, spurious wake-ups or not; a post leaves the semaphore up, and no step but getting past it takes it down |
| ThreadPools.NoLostWakeupStep | util/thread_pool.c:530-555 | while alive: jobs in the queue imply the semaphore is up, is about to be posted, or a worker is past it and has not pulled; and an up semaphore implies that not all workers sleep |
| ThreadPools.JobsGetServed | util/thread_pool.c:353-381 | while alive, with a worker and a job, some thread of the pool itself can take a step |
| ThreadPools.WorkingIsFrozen | util/thread_pool.c:197-203 | between a caller's two reads no worker can count itself in or out, because the caller holds thcount_lock |
| ThreadPools.WaitReturnsWhenDone | util/thread_pool.c:197-203 | when thpool_wait returns, then at its last read of len every job added so far had been executed, although len is read without the queue's lock |
| ThreadPools.SleepIsJustifiedStep | util/thread_pool.c:374-379 | with one caller, a sleeping caller always has a job in the queue or a worker at work: its signal is not missed |
| ThreadPools.SleeperWillBeServed | util/thread_pool.c:197-203 | a single sleeping caller has something to wait for, and the pool can step towards it |
| ThreadPools.RemainingFalls | util/thread_pool.c:353-381 | every step of the pool itself lowers a measure of posts still to be taken and of how far each thread is from standing still |
| ThreadPools.InternalRunsEnd | util/thread_pool.c:353-381 | so a run of such steps is no longer than the measure, whatever the scheduler does |
| ThreadPools.SettledIsDone | util/thread_pool.c:353-381 | where none of them is enabled in a live pool with workers, nothing is queued, nobody works, every job added is executed, and a single caller is not in thpool_wait |
| ThreadPools.SettlingRun | util/thread_pool.c:353-381 | from every state there is a run of such steps to where none is enabled |
| ThreadPools.EverythingGetsDone | util/thread_pool.c:197-203 | every run of the pool itself from a reachable state, carried on until it stops, ends with every job added executed and with the one caller of thpool_wait returned |
| ThreadPools.NoNewJobs | util/thread_pool.c:353-357 | once threads_keepalive is down, no worker that is not at a job gets to one, in any run |
| ThreadPools.OneLeaves | util/thread_pool.c:227-231 | from a stopped pool that is kept alive no more, each bsem_post_all and what follows ends with exactly one worker fewer, whatever the scheduler does |
| ThreadPools.RoundsEnd | util/thread_pool.c:227-231 | so after as many rounds as workers are alive num_threads_alive is 0 and every worker is gone |
| ThreadPools.ClosesDown | util/thread_pool.c:207-231 | from every reachable state there is such a run: destroy, stop, and no more rounds than workers |
| ThreadPools.PushedIsSubmitted | util/thread_pool.c:176-193 | the jobs pushed are the work of the calls of thpool_add_work, in order |
| ThreadPools.QuietStays | util/thread_pool.c:353-381 | where there is no job, nobody at work and no worker past the semaphore, every step but new work or a spurious wake-up of the caller leaves all that so and the caller asleep |
| ThreadPools.QuietStrands | util/thread_pool.c:197-203 | so a caller asleep there sleeps on in every run without those two |
| ThreadPools.TwoCallersStrand | util/thread_pool.c:376-378 | with two callers and a worker there is a run to a quiet state in which everything is done and one caller sleeps for good, since one signal wakes one |
| ThreadPools.StrandingExactly | util/thread_pool.c:197-203 | a caller can be left asleep with nothing to wait for, so that no run without new work or a spurious wake-up wakes it, if and only if there is a worker and more than one caller |
| JsmnParser.Parser.AllocToken | repo/fsrepo/jsmn.c:8-21 | a fresh token behind the used ones, or none and nothing changed when the array is full |
| JsmnParser.Parser.ParsePrimitive | repo/fsrepo/jsmn.c:37-81 | finds the end of the primitive; on INVAL and NOMEM position and tokens are as before |
| JsmnParser.Parser.ParseString | repo/fsrepo/jsmn.c:86-148 | finds the closing quote over escapes and \u digits; on INVAL, PART and NOMEM position and tokens are as before |
| JsmnParser.Parser.OpenContainer | repo/fsrepo/jsmn.c:166-183 | opens a token, counts it in its superior and makes it the superior |
| JsmnParser.Parser.ScanBack | repo/fsrepo/jsmn.c:211-230 | the backward scan finds the last open token |
| JsmnParser.Parser.CloseContainer | repo/fsrepo/jsmn.c:184-232 | closes the last open token if it is of the bracket's kind and returns to the one before it; otherwise INVAL and nothing changed |
| JsmnParser.Parser.ReturnToContainer | repo/fsrepo/jsmn.c:245-262 | a comma behind a value makes the last open container the superior again |
| JsmnParser.Parser.Turn | repo/fsrepo/jsmn.c:160-293 | one turn of the loop, filling or counting, with every error leaving the tokens alone |
| JsmnParser.Parser.Parse | repo/fsrepo/jsmn.c:153-305 | result, position, tokens and superior are those of the specified run, and with tokens NULL the specified count |
| JsmnSpec.Step | repo/fsrepo/jsmn.c:160-293 | each turn moves forward inside the text, never drops a token and keeps -1 <= toksuper < toknext |
| JsmnTheory.RunWithMoreRoom | repo/fsrepo/jsmn.c:66-75 | a larger array changes nothing unless the smaller one ran out, and then the larger run goes on from where the smaller stopped |
| JsmnTheory.NomemStopsBefore | repo/fsrepo/jsmn.c:70-74 | NOMEM leaves the array exactly full, the position on the character that begins the next token, and calling again changes nothing |
| JsmnTheory.ResumeAfterNomem | repo/fsrepo/jsmn.c:103-107 | resuming after NOMEM with the tokens in a larger array equals one run with that array |
| JsmnTheory.CountAgrees | repo/fsrepo/jsmn.c:295-304 | a successful parse returns the number of tokens used, which is what counting from the same state returns |
| JsmnTheory.CountIsEnough | repo/fsrepo/jsmn.c:66-69 | an array with as many slots as counting returns never gives NOMEM |
| JsmnTheory.FewerIsTooFew | repo/fsrepo/jsmn.c:11-13 | and with fewer slots the parse never succeeds |
| JsmnTheory.CountingAndFilling | repo/fsrepo/jsmn.c:153-305 | the three facts for a fresh parser, any text and any array |
| JsmnTheory.ScanIsStack | repo/fsrepo/jsmn.c:211-260 | every turn of the stackless parser is the turn of a parser with an explicit stack of open containers |
| JsmnTheory.RunIsMachineRun | repo/fsrepo/jsmn.c:153-305 | hence the whole run refines the stack machine: same result, same tokens |
| JsmnTheory.OpensClose | repo/fsrepo/jsmn.c:211-221 | closing the last open token pops the stack |
| JsmnTheory.ForestRun | repo/fsrepo/jsmn.c:160-305 | at every point tokens lie in the text read, starts increase, and closed tokens are nested or disjoint |
| JsmnTheory.ParseIsForest | repo/fsrepo/jsmn.c:153-305 | a successful parse yields a forest: 0 <= start <= end <= len, right delimiters, increasing starts, any two tokens nested or disjoint |
| JsmnTheory.FailsExactly | repo/fsrepo/jsmn.c:153-305 | each error code has its cause at the position where the run stops: a full array, an open container or unfinished string at the end, or a bracket, string or primitive that is wrong |
| JsmnTree.RunIsReadRun | repo/fsrepo/jsmn.c:153-305 | the run is that of a reader that keeps a stack and the item each item belongs to, and never looks at sizes |
| JsmnTree.TokensAreATree | repo/fsrepo/jsmn.c:174-284 | for every text and array: each token belongs to the innermost container open where it begins, or to the token before a colon that no bracket and, in a container, no comma has taken back; and its size is the number that belongs to it |
| JsmnText.StringEndsExactly | repo/fsrepo/jsmn.c:95-145 | a string ends at a quote if and only if whole characters and escapes, of two or six characters, lead there |
| JsmnText.StringFailsExactly | repo/fsrepo/jsmn.c:115-143 | a string is invalid if and only if they lead to a backslash with an unknown letter, or \u with a wrong digit |
| JsmnText.PrimitiveEndsExactly | repo/fsrepo/jsmn.c:44-58 | a primitive ends at the first delimiter or end, through printable characters only |
| JsmnText.CharacterClasses | repo/fsrepo/jsmn.c:44-143 | the escapes, hexadecimal digits, delimiters, printable characters and error codes |
| Wire.RunDecoder | cid/cid.c:59-88 | the decoders' shared loop over fields computes the fold that the lemmas reason about |
| Wire.OutBuffer.Put | cid/cid.c:29-42 | a field is appended, or the call fails and nothing is counted as written, exactly when it does not fit |
| Wire.ReadVarintBack | cid/cid.c:46-91 | reading a Base 128 Varint gives back the number and what follows it |
| Wire.DecodeEncoded | cid/cid.c:46-91 | decoding what an encoder wrote replays exactly the fields written, in order |
| Wire.RecordsBack | exchange/bitswap/message.c:354-407 | a repeated field comes back as the fold of its items in order |
| Wire.RecordsBound | exchange/bitswap/message.c:293-303 | if each record fits its estimate, any number of them fits the sum |
| Wire.VarintBounds | cid/cid.c:19-23 | which numbers need how many bytes: the constants 11 and 12 of the source rest on it |
| Wire.VarintGroups | journal/journal_message.c:37-46 | a number takes as many bytes as it has groups of seven bits |
| Layouts.VarintMeans | cid/cid.c:29-42 | every byte but the last has its top bit set, and groups of seven bits, least significant first, make up the number |
| Layouts.RawFieldsBack | cid/cid.c:29-42 | a reader that knows no schema finds exactly the fields written |
| Layouts.CidLayout | cid/cid.c:25-44 | byte by byte: tags 8, 16 and 26 |
| Layouts.BlockLayout | blocks/block.c:35-53 | byte by byte: tags 10 and 18 |
| Layouts.UnixFsLayout | unixfs/unixfs.c:221-254 | byte by byte: tags 8, 18, 24 and one 32 for each block size; empty data and size 0 are not written |
| Layouts.LinkLayout | merkledag/node.c:127-163 | byte by byte: tag 10 with the multihash 0x12, length, digest; tag 18; tag 24 |
| Layouts.NodeLayout | merkledag/node.c:262-289 | byte by byte: one record of tag 18 for each link, in order, then tag 10 with the data; a node with links begins with 0x12 and every node ends in its data |
| Layouts.NodeFields | merkledag/node.c:262-289 | a reader without schema finds the links as records of number 2, in order, then the data as number 1, and nothing more |
| Layouts.EntryLayout | exchange/bitswap/message.c:175-191 | byte by byte: tags 10, 16 and 24 |
| Layouts.WantlistLayout | exchange/bitswap/message.c:313-345 | byte by byte: tag 10 for each entry, in order, then 16 |
| Layouts.MessageLayout | exchange/bitswap/message.c:499-560 | byte by byte: tag 10 for each block, 18 for each payload block, in order, then 26 with the wantlist |
| Layouts.JournalEntryLayout | journal/journal_entry.c:54-82 | byte by byte: tags 8, 18 and 24 |
| Layouts.JournalLayout | journal/journal_message.c:56-98 | byte by byte: tags 8, 16, 24 and 34 for each entry, in order |
| Layouts.CidSpares | cid/cid.c:19-23 | how much the estimate leaves over, to the byte |
| Layouts.BlockSpares | blocks/block.c:23-25 | how much the estimate leaves over, to the byte |
| Layouts.UnixFsSpares | unixfs/unixfs.c:196-211 | how much the estimate leaves over, to the byte |
| Layouts.LinkSpares | merkledag/node.c:102-117 | how much the estimate leaves over, or falls short, to the byte |
| Layouts.NodeSpares | merkledag/node.c:239-252 | how much the estimate leaves over, to the byte |
| Layouts.EntrySpares | exchange/bitswap/message.c:162-165 | how much the estimate leaves over, to the byte |
| Layouts.WantlistSpares | exchange/bitswap/message.c:293-303 | how much the estimate leaves over, to the byte |
| Layouts.MessageSpares | exchange/bitswap/message.c:468-489 | how much the estimate leaves over, to the byte |
| Decoders.DecodesExactly | cid/cid.c:59-88 | a decoder succeeds on just those bytes that are a row of pieces, each of the kind its tag calls for, whose fields its switch takes; and then it has taken all of these in order |
| Decoders.CidReads | cid/cid.c:46-91 | of any such bytes: the last version, codec and hash that came, narrowed to their types; none from no bytes |
| Decoders.BlockReads | blocks/block.c:62-108 | the last data and the last cid; refused if and only if some cid record is |
| Decoders.UnixFsReads | unixfs/unixfs.c:263-314 | the last type, data and file size, and all block sizes in order |
| Decoders.LinkReads | merkledag/node.c:171-234 | the last hash without its first two bytes, name and size; refused if and only if some hash is shorter |
| Decoders.NodeReads | merkledag/node.c:298-354 | the last data, and in order the links whose records are not refused |
| Decoders.EntryReads | exchange/bitswap/message.c:200-251 | the last block, cancel and priority, narrowed to their types |
| Decoders.WantlistReads | exchange/bitswap/message.c:354-407 | all entries in order and the last full; refused if and only if some entry is |
| Decoders.MessageReads | exchange/bitswap/message.c:569-648 | all blocks and payload blocks in order and the last wantlist; refused if and only if some payload block or wantlist is |
| Decoders.JournalEntryReads | journal/journal_entry.c:90-141 | the last timestamp, hash and pin, which is 1 exactly for 1; refused if and only if no known field came |
| Decoders.JournalReads | journal/journal_message.c:107-171 | the last epochs and all entries in order; refused if and only if no known field came or some entry is refused |
| Cids.SizeBounds | cid/cid.c:19-23 | the estimate bounds what the encoder writes |
| Cids.Encode | cid/cid.c:25-44 | writes exactly the cid's bytes, and fails exactly when they do not fit |
| Cids.Serialize | cid/cid.c:25-44 | a buffer of the estimated size always suffices |
| Cids.RunDecode | cid/cid.c:46-91 | the decoder loop; an empty buffer is a NULL cid |
| Cids.RoundTrip | cid/cid.c:25-91 | decoding an encoded cid gives it back up to what a char keeps of the codec |
| Cids.RoundTripExact | cid/cid.c:77-78 | it comes back unchanged if and only if the codec fits a signed char |
| Cids.LargeCodecIsLost | cid/cid.c:77-78 | a cid with codec 0x90 does not come back |
| Cids.Compare | cid/cid.c:319-342 | 0 if and only if both are the same cid or both NULL; else by how much b exceeds a where they first differ: version, codec, length, or the first differing byte |
| Blocks.SizeBounds | blocks/block.c:23-25 | the estimate bounds what the encoder writes |
| Blocks.Encode | blocks/block.c:35-53 | for every buffer: result and bytes are those specified, where data that does not fit is left out and the cid alone decides the result |
| Blocks.WrittenExactly | blocks/block.c:40-51 | a success is a block exactly if there was room for the data; all is written exactly if there is room for all |
| Blocks.DataCanBeLost | blocks/block.c:40-51 | a block and a buffer for which success is reported without the data |
| Blocks.RunDecode | blocks/block.c:62-108 | the decoder loop |
| Blocks.RoundTrip | blocks/block.c:35-108 | decoding an encoded block gives back data and cid |
| UnixFiles.SizeBounds | unixfs/unixfs.c:196-211 | the estimate bounds what the encoder writes, for any number of block sizes |
| UnixFiles.Encode | unixfs/unixfs.c:221-254 | in a large enough buffer, writes exactly the record |
| UnixFiles.RunDecode | unixfs/unixfs.c:263-314 | the decoder loop; an empty buffer fails |
| UnixFiles.RoundTrip | unixfs/unixfs.c:221-314 | decoding an encoded record gives it back, block sizes in order |
| Nodes.LinkSizeBounds | merkledag/node.c:102-117 | the estimate bounds a link's bytes if and only if hash, name and size are not all empty |
| Nodes.EncodeLink | merkledag/node.c:127-163 | writes exactly the link's bytes, and fails exactly when they do not fit |
| Nodes.LinkRoundTrip | merkledag/node.c:127-234 | a link comes back with its hash out of the multihash and a NULL name as "" |
| Nodes.NodeSizeBounds | merkledag/node.c:239-252 | the estimate bounds a node's bytes for any number of links |
| Nodes.EncodeNode | merkledag/node.c:262-289 | writes exactly the node's bytes; fails exactly when a link is empty or the buffer is too short |
| Nodes.RunDecodeNode | merkledag/node.c:298-354 | the decoder loop; an empty buffer fails |
| Nodes.NodeRoundTrip | merkledag/node.c:262-354 | a non-empty node comes back, links in order, NULL names as "" |
| Nodes.ReencodeDecoded | merkledag/node.c:262-354 | encoding the decoded node gives the very bytes it was decoded from |
| Messages.EntryBounds | exchange/bitswap/message.c:162-165 | 33 + block_size covers a wantlist entry and its wrapper |
| Messages.EntryRoundTrip | exchange/bitswap/message.c:175-251 | an entry comes back |
| Messages.WantlistBounds | exchange/bitswap/message.c:293-303 | the estimate bounds a wantlist with any number of entries, leaving 31 bytes |
| Messages.EncodeWantlist | exchange/bitswap/message.c:313-345 | writes exactly the wantlist; fails exactly when it does not fit |
| Messages.WantlistRoundTrip | exchange/bitswap/message.c:313-407 | a wantlist comes back, entries in order, an empty vector as NULL |
| Messages.MessageBounds | exchange/bitswap/message.c:468-489 | the estimate bounds a message with any number of blocks and entries |
| Messages.EncodeMessage | exchange/bitswap/message.c:499-560 | writes exactly the message; fails exactly when it does not fit |
| Messages.Serialize | exchange/bitswap/network.c:28-36 | the buffer that send_message allocates always suffices |
| Messages.RunDecode | exchange/bitswap/message.c:569-647 | the decoder loop; an empty buffer is a NULL message |
| Messages.MessageRoundTrip | exchange/bitswap/message.c:499-647 | through four levels of nesting blocks, payload and entries come back in order |
| Messages.EmptyMessage | exchange/bitswap/message.c:499-560 | a message writes nothing if and only if it carries nothing |
| Journals.EntryBounds | journal/journal_entry.c:34-44 | an entry fits its own estimate |
| Journals.EntryRoundTrip | journal/journal_entry.c:54-141 | an entry comes back, with pin 1 or 0 |
| Journals.JournalFitsExactly | journal/journal_message.c:37-46 | the estimate is large enough if and only if what the entries overrun, a function of timestamp, pin and hash size, fits what the three numbers leave of 30 bytes |
| Journals.JournalBounds | journal/journal_message.c:37-46 | it is large enough whenever pins are 0 or 1 and hashes are below 2^27 bytes |
| Journals.JournalCanOverrun | journal/journal_message.c:37-46 | a message that the functions accept, with a pin of 200 and a 2 MB hash, does not fit its estimate |
| Journals.Encode | journal/journal_message.c:56-98 | writes exactly the message; fails exactly when it does not fit |
| Journals.RunDecode | journal/journal_message.c:107-171 | the decoder loop; a buffer without a known field fails |
| Journals.RoundTrip | journal/journal_message.c:56-171 | a message comes back, entries in order, pins as 0 or 1 |
| Journals.RoundTripExact | journal/journal_message.c:56-171 | it comes back unchanged if and only if every pin is 0 or 1 |
| MerkleDag.HashtableNode.AddLink | merkledag/node.c:622-638 | the walk along next from head_link ends at the last link, behind which the new one is hung; all others stay in place |
| MerkleDag.HashtableNode.Read | merkledag/node.c:266-279 | the walk over the list reads every link in order |
| MerkleDag.FsRepo.Add | merkledag/merkledag.c:63-98 | fails and stores nothing exactly when a link is empty; otherwise the node is stored in a block under the hash it has or that of its encoding, and the size of the file is reported |
| MerkleDag.FetchesExactly | routing/offline.c:89-108 | a node that can be got is fetched if and only if it is not empty and none of its links is without hash, name and size |
| MerkleDag.FetchWritten | merkledag/merkledag.c:63-128 | what is fetched for a stored node is that node with "" for NULL names; it hashes to the key it was fetched by, and so do the bytes got under the key |
| MerkleDag.FileIsBlock | merkledag/merkledag.c:20-44 | the file of a node is a block with a cid of version 1 and codec 0x70 and the encoding of the node |
| MerkleDag.AddressedMeans | merkledag/merkledag.c:63-128 | in such a store the value got under a key hashes to the key |
| MerkleDag.WriteKeepsAddressed | merkledag/merkledag.c:63-98 | adding a node under its own hash keeps a store in which each file holds a node that hashes to the key of the file |
| MerkleDag.WriteKeepsAcyclic | merkledag/merkledag.c:63-98 | adding a node whose links are stored keeps the store free of cycles and dangling links |
| Importer.AddFilesize | importer/importer.c:32-53 | decode, append, re-encode keeps the data section the record of exactly the pieces so far |
| Importer.StoreChunk | importer/importer.c:98-115 | the piece is stored as a node of its own; the link names that node, and its t_size is the size of the file stored under it |
| Importer.LinkChunk | importer/importer.c:97-125 | one more piece: stored, linked last, counted in the record |
| Importer.ImportChunk | importer/importer.c:61-164 | a full chunk is linked; a short one is linked or becomes the parent, which is then stored |
| Importer.ImportFile | importer/importer.c:295-306 | the loop ends with root, hash and store those of the file's chunks, for any file and any chunk size |
| Importer.ParentRecord | importer/importer.c:32-53 | the root's record has one block size a link, each the length under that link, and their sum is file_size and the bytes read |
| Importer.ConcatOfChunks | importer/importer.c:61-63 | the chunks put together are the file |
| Importer.PiecesOfFile | importer/importer.c:19 | with the chunk size of the source: one piece of 2^18 bytes for each that the file holds, and one more with the rest |
| Importer.ChunksAre | importer/importer.c:301-305 | all pieces are full but the last, which is shorter and may be empty |
| Importer.LeafRecord | importer/importer.c:70-90 | the node of a piece is a file (type 2) with its bytes, its size and no links |
| Importer.RootRecord | importer/importer.c:126-159 | the root holds a short file itself; else it has a nameless link and a block size for each piece, the size of the file and no bytes |
| Importer.ChunksOfConcat | importer/importer.c:301-305 | full chunks read so far and the chunks of the rest are the chunks of the file, whatever was read |
| Exporter.ToFilestream | importer/exporter.c:73-129 | writes the bytes of the node, or of its links in order; fails when a node is missing |
| Exporter.CatNode | importer/exporter.c:228-254 | writes the node's bytes and then, recursively, those of each link |
| Exporter.CatInOrder | importer/exporter.c:228-254 | cat writes the bytes of the node first, then what each child writes, in the order of the links, up to the first that is missing |
| Exporter.CatFailsExactly | importer/exporter.c:228-254 | cat fails if and only if the record of the node itself does not decode or one of its own children is missing |
| Exporter.StreamFailsExactly | importer/exporter.c:73-129 | the stream fails if and only if the node is missing, or has no links and does not decode, or a child is missing or does not decode |
| Exporter.ExportersAgreeExactly | importer/exporter.c:73-129 | stream and cat both succeed with the same bytes if and only if the node is a leaf that decodes, or it holds no bytes itself, its children decode and nothing lies deeper |
| Exporter.ExportersCanDiffer | importer/exporter.c:73-129 | a store in which both succeed with different bytes |
| Exporter.ExportAfterImport | importer/exporter.c:73-129 | exporting the root of an import writes the original bytes, for every file and chunk size |
| Exporter.RootLinksAreSized | importer/importer.c:115-148 | at the end of an import every link of the root names a stored file and has its size |
| Exporter.CatAfterImport | importer/exporter.c:228-254 | so does cat, and the store stays addressed, closed and acyclic |
| Exporter.ImportKeepsAcyclic | importer/importer.c:105-154 | an import keeps the store free of cycles and dangling links |
| Exporter.ImportKeepsAddressed | importer/importer.c:105-159 | an import keeps every file under the hash of its node |
| Stores.LeafBytesDiffer | importer/importer.c:70-90 | two pieces with one encoding are the same piece |
| Stores.GrownIsFromImports | merkledag/merkledag.c:85-90 | after any imports every file is the block file of a node that one of them wrote, under its hash |
| Stores.AllAreHeld | merkledag/merkledag.c:85-90 | and every node that one of them wrote is there, unless the hash confuses two encodings |
| Stores.NextDoesNotClash | importer/importer.c:105-159 | so the next import never writes another file over a stored one |
| Stores.GrownIsSound | importer/importer.c:295-306 | every store that imports have built from nothing is addressed by the hashes of its nodes and has no cycle and no dangling link |
| Stores.EveryNodeIsFetched | importer/exporter.c:29-65 | every node that one of them wrote is fetched by the hash of its encoding, and hashes to it |
| Stores.EveryImportIsExported | importer/exporter.c:73-129 | after any number of imports the root of each still exports its file |
| Stores.EveryImportIsCat | importer/exporter.c:228-254 | so does cat |
| Pins.RunHasChild | pin/pin.c:118-147 | the recursive search with its early returns, which ends on every acyclic store |
| Pins.HasChildExactly | pin/pin.c:118-147 | it says yes if and only if a path of links leads from the stored root to the child through stored nodes with hashes of the size of the child's |
| Pins.AcyclicExactly | pin/pin.c:118-147 | in a store without dangling links the rank by which the searches end exists if and only if no chain of links leads from a hash back to itself |
| Pins.FoundHasPath | pin/pin.c:132-143 | a yes comes with such a path |
| Pins.PathIsFound | pin/pin.c:132-143 | no path is overlooked |
| Requests.WantedIsSent | exchange/bitswap/peer_request_queue.c:347-360 | we_want_cids says exactly whether add_wantlist_items appends something, and is false behind it |
| Requests.OneEach | exchange/bitswap/peer_request_queue.c:327-340 | every block found is one entry's, named in the history |
| Requests.ItemsInOrder | exchange/bitswap/message.c:666-689 | the items are those of all entries with something to say, in order, with 1 for a cancel and priority 1 |
| Requests.BlocksInOrder | exchange/bitswap/peer_request_queue.c:328-338 | the blocks are those stored for all uncancelled entries, in order |
| Requests.SentIsCancelled | exchange/bitswap/message.c:699-731 | each block sent cancels the first entry of its cid and no other entry changes |
| Requests.NothingLeft | exchange/bitswap/peer_request_queue.c:390-403 | behind a message nothing is due and no block waits, and there is cause for another exactly if an entry they want was neither answered nor cancelled |
| Requests.OutgoingKeepsWantedOnce | exchange/bitswap/message.c:655-691 | the flags of each entry say exactly what of it has been sent, and nothing is in the history twice |
| Requests.OutgoingKeepsServedOnce | exchange/bitswap/peer_request_queue.c:327-340 | no entry they want yields a second block |
| BitswapQueues.PeerRequest.RunWeWantCids | exchange/bitswap/peer_request_queue.c:347-360 | true if and only if some entry has something unsent to say |
| BitswapQueues.PeerRequest.RunCidsWaiting | exchange/bitswap/peer_request_queue.c:203-212 | true if and only if some entry is not cancelled |
| BitswapQueues.PeerRequest.GetBlocksTheyWant | exchange/bitswap/peer_request_queue.c:327-340 | appends the stored blocks of all uncancelled entries in order and cancels exactly those entries |
| BitswapQueues.PeerRequest.CancelCid | exchange/bitswap/message.c:699-708 | cancels the first entry with the cid, if there is one |
| BitswapQueues.PeerRequest.AddBlocks | exchange/bitswap/message.c:716-739 | all blocks become the payload, their cids are cancelled, the vector is emptied |
| BitswapQueues.PeerRequest.AddWantlistItems | exchange/bitswap/message.c:655-691 | one item for each entry with something unsent, in order, and the flags are set |
| BitswapQueues.PeerRequest.ProcessEntry | exchange/bitswap/peer_request_queue.c:368-406 | the message and the new state of all three vectors; nothing when there is no cause or no connection |
| BitswapQueues.PeerRequest.AdjustCidQueue | exchange/bitswap/network.c:59-81 | an entry is appended to an empty queue and a cancel leaves it empty; otherwise the change chosen is made |
| BitswapQueues.PeerRequest.AdjustAll | exchange/bitswap/network.c:131-142 | the wantlist loop, up to the first entry without a usable cid |
| BitswapQueues.PeerRequestQueue.FindEntry | exchange/bitswap/peer_request_queue.c:186-196 | the one entry of the peer, or none |
| BitswapQueues.PeerRequestQueue.FindPeer | exchange/bitswap/peer_request_queue.c:415-440 | the peer's request, or a new empty one linked at the end; the list keeps one entry a peer |
| BitswapQueues.PeerRequestQueue.Fill | exchange/bitswap/peer_request_queue.c:313-322 | the block is appended to that peer's request and no other request changes |
| BitswapQueues.WantlistQueue.Add | exchange/bitswap/wantlist_queue.c:68-88 | a new entry, with its session twice, or one more session; cids stay distinct |
| Bitswap.AddWantIs | exchange/bitswap/wantlist_queue.c:68-88 | one more session for the entry of the cid, or a new entry with the session twice; all others stay |
| Bitswap.SessionsRemain | exchange/bitswap/engine.c:45-50 | the loop that is to remove all sessions leaves half of them, and none exactly if there was at most one |
| Bitswap.StripExactly | exchange/bitswap/network.c:93-102 | what lies behind the first newline, and nothing exactly if there is none |
| Bitswap.HeaderIs | exchange/bitswap/network.c:38-39 | the header is /ipfs/bitswap/1.1.0 and a newline |
| BitswapQueues.WantlistQueue.Find | exchange/bitswap/wantlist_queue.c:114-126 | the first entry with the cid |
| BitswapQueues.WantlistQueue.Pop | exchange/bitswap/wantlist_queue.c:134-152 | the first entry neither filled nor asked for; it stays in the queue |
| BitswapQueues.WantlistQueue.Remove | exchange/bitswap/wantlist_queue.c:96-106 | one session less in the entry of the cid, and nothing else |
| BitswapQueues.WantlistQueue.RemoveSessions | exchange/bitswap/engine.c:47-50 | the loop that removes sessions while they move under its index |
| BitswapQueues.Decrement | exchange/bitswap/wantlist_queue.c:17-26 | removes the first equal session |
| BitswapEngine.LocalRequest | exchange/bitswap/wantlist_queue.c:237-245 | true if and only if a session is local |
| BitswapEngine.AfterNewline | exchange/bitswap/network.c:93-102 | what follows the first newline, or nothing |
| BitswapEngine.Exchange.HasBlock | exchange/bitswap/bitswap.c:149-163 | stores the block and fills the first wantlist entry of its cid |
| BitswapEngine.Exchange.ProcessPeer | exchange/bitswap/network.c:20-51 | what processing one peer writes to the stream, header and encoded message |
| BitswapEngine.Exchange.Serve | exchange/bitswap/engine.c:134-145 | a peer's turn: nothing for a peer without a request |
| BitswapEngine.Exchange.AskProviders | exchange/bitswap/wantlist_queue.c:271-290 | every provider gets the cid queued and its request processed, in order |
| BitswapEngine.Exchange.ProcessWant | exchange/bitswap/wantlist_queue.c:301-335 | the block found locally fills entry and remote sessions; otherwise ask or count the attempt |
| BitswapEngine.Exchange.WantTurn | exchange/bitswap/engine.c:43-61 | a turn of the wantlist processor |
| BitswapEngine.Exchange.HandleMessage | exchange/bitswap/network.c:91-146 | payload delivered, then the wantlist queued for the sender |
| BitswapSafety.OutgoingIsReceived | exchange/bitswap/network.c:20-51 | the bytes written for a request are read as the very message put together: its blocks, all honest, and its wantlist |
| BitswapSafety.OutgoingIsGood | exchange/bitswap/network.c:28-43 | so the bytes of a message, read by the receiver, carry only honest blocks |
| BitswapSafety.HandleMessageIsGood | exchange/bitswap/network.c:91-146 | a node stays good whatever honest bytes arrive |
| BitswapSafety.StepIsGood | exchange/bitswap/engine.c:40-161 | every step of every node keeps all stores, packets, wants and histories good |
| BitswapSafety.EveryRunIsGood | exchange/bitswap/engine.c:40-161 | so does every run, with any number of nodes, cids and messages lost, repeated or reordered |
| BitswapSafety.DataIntegrity | exchange/bitswap/bitswap.c:149-163 | in every run each store holds the data its hashes stand for, each filled entry a block of its own cid with that data, and no entry counts more than 11 attempts |
| BitswapSafety.PayloadIntegrity | exchange/bitswap/network.c:109-115 | in every run each payload block in the bytes on their way has a cid and the data its hash stands for |
| BitswapHistory.RunLater | exchange/bitswap/engine.c:40-161 | over any stretch of a run wants keep their cids, filled stays filled, asked stays asked, histories only grow |
| BitswapHistory.NeverPoppedAgain | exchange/bitswap/wantlist_queue.c:134-152 | a want that was filled or asked for at some moment is never popped later |
| BitswapHistory.HasBlockKeeps | exchange/bitswap/bitswap.c:149-163 | a block that arrives is in store under its hash with its data, fills the first entry of its cid, and changes nothing else |
| BitswapHistory.PayloadIsKept | exchange/bitswap/network.c:108-115 | every payload block with a cid of a message handled is in the store of the receiver |
| BitswapHistory.EveryFilledIsKept | exchange/bitswap/bitswap.c:149-163 | in every run the block of a filled entry is in the store of its node |
| BitswapHistory.DoneStaysDone | exchange/bitswap/engine.c:40-161 | over every run: what a step has stored, sought or delivered is in store or wantlist ever after, whatever else happens |
| BitswapHistory.OthersStay | exchange/bitswap/engine.c:40-161 | a step changes its own node only, and takes nothing off the net |
| BitswapHistory.CancelIsTold | exchange/bitswap/message.c:655-691 | a want that is taken back goes out as a cancel in the next message to that peer |
| BitswapHistory.OutgoingIsRead | exchange/bitswap/message.c:175-251 | the wantlist that the receiver reads out of the bytes is the one the sender put together |
| BitswapHistory.StepTold | exchange/bitswap/engine.c:40-161 | all items ever written to a peer stay, in order, a part of the history kept for it |
| BitswapHistory.EachEntryOnce | exchange/bitswap/message.c:655-691 | of all bytes a node has ever written to a peer, each wantlist item belongs to a different request or cancel of its own entries |
| BitswapDelivery.FillReaches | exchange/bitswap/wantlist_queue.c:319-331 | a block found goes to each remote session, as many copies as that peer has sessions, behind what waits there, and no peer sees any other change |
| BitswapDelivery.FoundIsHandedOn | exchange/bitswap/wantlist_queue.c:301-335 | the turn of an entry that is in store fills it, hands the block on to the peer of each session and does nothing else |
| BitswapDelivery.AskReaches | exchange/bitswap/wantlist_queue.c:275-285 | every provider gets an entry for the cid, and each that could be connected to has been sent the request |
| BitswapDelivery.ItemsTakeTurns | exchange/bitswap/network.c:129-142 | the items of a wantlist take their turns in order, up to the first without a usable cid, and nothing behind that is looked at |
| BitswapDelivery.NewItem | exchange/bitswap/message.c:655-691 | a cid newly queued is the last item of the wantlist, and no item stops the receiver |
| BitswapDelivery.Asks | exchange/bitswap/wantlist_queue.c:301-318 | the turn of a node that wants a cid writes one message whose wantlist, read back, ends with that cid, whatever else is due to that peer, as long as all of it has a hash |
| BitswapDelivery.Queues | exchange/bitswap/network.c:129-142 | the receiver of such a message reads the wantlist to its end and owes the sender the cid, if its queue takes the entry |
| BitswapDelivery.Serves | exchange/bitswap/peer_request_queue.c:393-402 | the turn of a node that owes a cid and has it writes a message that, read back, carries the block |
| BitswapDelivery.Fills | exchange/bitswap/network.c:108-115 | delivering a message that carries the block fills the want |
| BitswapDelivery.WantIsFilled | exchange/bitswap/engine.c:40-161 | from any good state a want next in turn is filled with the true data, which is then also in store, in four steps, if a node that has it is found and reached, nothing else due to it lacks a hash, and its queue takes the entry |
| BitswapDelivery.SoughtIsFound | exchange/bitswap/bitswap.c:224-241 | starting from one block at one of two nodes, there is a run of five steps that brings it into want and store of the other node when that seeks it, for every cid the wire keeps and any data |
| BitswapBlocking.SpentTurn | exchange/bitswap/engine.c:45-50 | the turn of an entry that failed eleven times sends nothing, takes half of its sessions and nothing else, and leaves it the next in turn |
| BitswapBlocking.ForeignTurn | exchange/bitswap/wantlist_queue.c:305-307 | the turn of an entry that is not spent, that only other peers want and that is not in store changes nothing |
| BitswapBlocking.SpentBlocks | exchange/bitswap/wantlist_queue.c:134-152 | over every run, until the block of such a spent entry arrives it stays first and nothing behind it is tried or asked for |
| BitswapBlocking.ForeignBlocks | exchange/bitswap/wantlist_queue.c:134-152 | likewise for an entry that only others want, until its hash is in store or the node wants it itself |
| BitswapBlocking.HeadBlocksExactly | exchange/bitswap/engine.c:43-56 | some turn can take the first open entry out of the way if and only if it is neither spent nor wanted by others only and not in store |
| BitswapBlocking.SpentIsReached | exchange/bitswap/engine.c:43-56 | a run of thirteen steps from the start after which one want is spent and another waits behind it |
| BitswapBlocking.ForeignIsSpent | exchange/bitswap/bitswap.c:184-186 | in every run in which all sessions are local, an entry that only others want is a spent one |
| BitswapBlocking.AskWritesExactly | exchange/bitswap/wantlist_queue.c:271-290 | asking the providers writes nothing if and only if none of them is reached |
| BitswapBlocking.AskedInVainExactly | exchange/bitswap/wantlist_queue.c:307-318 | a turn marks a want as asked for without writing anything if and only if it could ask, providers are found and none is reached |
| BitswapBlocking.AskedInVain | exchange/bitswap/wantlist_queue.c:307-318 | a run of two steps after which nothing is on the net and the want is never popped again in any run |
| Proquint.Index | namesys/proquint.c:13-38 | the first index of the letter, or 0 |
| Proquint.AlphabetsAre | namesys/proquint.c:9-10 | sixteen consonants and four vowels, each with its number |
| Proquint.Localhost | namesys/proquint.c:93-127 | 127.0.0.1 is lusab-babad |
| Proquint.CheckProquint | namesys/proquint.c:48-84 | accepts exactly words of five letters joined by hyphens |
| Proquint.Encode | namesys/proquint.c:93-127 | NULL for an odd length, out of bounds for an empty buffer, else the words of all byte pairs |
| Proquint.EncodeWords | namesys/proquint.c:114-124 | the loop over a buffer of 3 * size characters |
| Proquint.RefusesExactly | namesys/proquint.c:142-145 | the test before the loop refuses just what is no proquint exactly for proquints and for lengths of two modulo three |
| Proquint.NonsenseIsDecoded | namesys/proquint.c:142-145 | a string that is no proquint and is decoded all the same |
| Proquint.StaysInsideExactly | namesys/proquint.c:147-161 | all reads and writes of the loop stay in bounds if and only if the length is 0 or 5 modulo 6 |
| Proquint.Decode | namesys/proquint.c:136-164 | for every string: refused exactly by that test, else decoded exactly where the loop stays in bounds, else out of bounds |
| Proquint.DecodeWords | namesys/proquint.c:147-161 | the loop over the words, on any length: the bytes, or the first access out of bounds |
| Proquint.WordBack | namesys/proquint.c:115-121 | two bytes survive a word |
| Proquint.BytesBack | namesys/proquint.c:153-160 | a word survives two bytes |
| Proquint.DecodeEncoded | namesys/proquint.c:93-164 | decode(encode(b)) == b for every non-empty buffer of even length |
| Proquint.EncodeDecoded | namesys/proquint.c:93-164 | encode(decode(s)) == s for every s that the test accepts |
| Proquint.ProquintsAreEncodings | namesys/proquint.c:48-84 | the test accepts exactly the image of encode, and decode is the inverse there |

## Left out

- Sockets, dialling, HTTP, the peerstore, LMDB, the file system, signals and logging: I/O or other libraries.
- Failing allocations, freeing and leaks.
- Decoders.DecodesExactly: the model gives up at a number or record that is not complete; where the source does not look at the result of reading one (`varint_decode`, journal/journal_message.c:147), what it then makes of the rest is not described.
- Decoders.CidReads: a hash that did not come is empty here; the source uses an uninitialised pointer.
- Decoders.EntryReads: fields that did not come are 0 or empty here and uninitialised in the source; an entry of no bytes, which the source reads as NULL, is refused.
- A tag reader that looks beyond the end of the buffer: the source hands it the whole length, the model the remainder.
- Liveness while work keeps coming or wake-ups are spurious without end: that the pool finishes is proved of every run of its own steps, for any scheduler. Time-outs and sleeps have no part.
- `thpool_pause`, `thpool_resume`, the polling and freeing in `thpool_destroy`, and threads that start late: a pool starts with all its threads alive.
- The jsmn builds with JSMN_STRICT or JSMN_PARENT_LINKS, and `jsmn_simple_parser`.
- JsmnParser.Parser.Parse: tokens behind `toknext` are not described, except by AllocToken.
- UnixFiles.Encode: nothing is promised for a buffer that is too small, because the source does not look at the results of writing the block sizes.
- Nodes.EncodeLink: digests have at most 127 bytes, those whose multihash length is one byte.
- NULL entries of vectors and a NULL entries vector in `ipfs_bitswap_wantlist_protobuf_encode`, which dereferences it.
- The encoder and decoder of `struct BitswapBlock` in exchange/bitswap/message.c, which messages do not use.
- Importing directories, base58 and base32 names, announcing to the router, and the sums of bytes written over several chunks.
- Importer.ImportFile: the file has fewer than 2^56 - 1 bytes and reading it does not fail.
- Exporter.CatNode: stated for stores without cycles, on which the recursion ends; an import keeps its store so.
- Exporter.ToFilestream: what has been written before a missing link is not described; a missing or undecodable UnixFS record counts as failure.
- Pins.RunHasChild: stated for stores without cycles, on which the recursion ends.
- Pin modes and messages, name resolution, the caches of namesys, and path resolution.
- `ipfs_bitswap_network_adjust_cid_queue`: its loop advances the collection and not the index, so its result is not relied on where the queue holds something; there receiving an entry may append it, remove any, or do nothing.
- The removing and popping operations of the peer request queue, which the engine does not use.
- BitswapQueues.PeerRequest.ProcessEntry: entries are values inside their vectors, so two vectors sharing an entry are not modelled, and nothing in the source shares one.
- BitswapHistory.EachEntryOnce: it counts what is put into messages; a message that could not be written is not put together again, as in the source, so a request may be lost.
- The locks of bitswap: the two threads and the protocol handler take turns, one step each.
- Waiting in `ipfs_bitswap_get_block`, and the want manager's removals.
- ThreadPools.StepInv: no lost wake-up is stated only while the pool is kept alive, since `thpool_destroy` gives up queued jobs on purpose.
- MerkleDag.FsRepo.Add: the hash that a node is left with when adding it fails is not described, and all its sizes fit a size_t.
- MerkleDag.WriteKeepsAcyclic: for any store, given that no other file is stored under the node's hash; for stores that imports have built, `Stores.GrownIsSound` has no such premise.
- Exporter.CatAfterImport: for any store, given that nothing clashes with it; for stores that imports have built, `Stores.EveryImportIsCat` has no such premise.
- Exporter.ImportKeepsAcyclic: for any store, given that nothing clashes with it; for stores that imports have built, `Stores.GrownIsSound` has no such premise.
- BitswapEngine.Exchange.HasBlock: a wantlist without a vector, which the source dereferences when a block arrives before anything was ever wanted (exchange/bitswap/wantlist_queue.c:37, 115), is an empty one here; a block without a cid, which it would dereference too, is passed over.
- BitswapEngine.Exchange.HandleMessage: a message of which nothing follows the header, which the source decodes to NULL and dereferences (exchange/bitswap/network.c:104-109), is read as nothing; no node of the model sends one.
- BitswapQueues.PeerRequest.AdjustAll: what becomes of a queue that holds something is a free choice for each entry, since the source's search is not relied on; in an empty queue an entry is appended and a cancel does nothing, as in the source.
- BitswapDelivery.WantIsFilled: nothing else that is due to the peer has a cid without a hash, at which the source stops reading the wantlist.
- Proquint.Decode: what happens behind a read or write out of bounds; the model stops there.
- Cids.Compare: the differences are mathematical integers; that of two versions may not fit a C int.
