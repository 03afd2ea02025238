# Verified model of the miniOSv benchmark applications

This Dafny project models the algorithms behind two benchmarks and proves what they
promise. One is an S3 download over smoltcp and minidpdk (`bench/smoltcp-s3`); the
other is the hash table used to compare performance counters (`bench/common`).

The benchmark steers traffic itself. It reads the RSS key and indirection table of the
NIC, predicts the queue of every return flow, and gives each worker the source ports
whose traffic lands on its own queue. Each worker then drives its connections over one
queue, and at the end a verdict says whether everything arrived. The model covers

- the Toeplitz hash and its exclusive-or structure (`Toeplitz`), the port bitmaps and the
  partition of the ephemeral range (`Steering`), the even spread of ports over the
  indirection table (`Fibres`), and the choice of ports (`PortChoice`);
- the block layout (`Blocks`), the range request (`Request`), the incremental HTTP header
  matcher (`ResponseBody`), the connection state machine with its socket (`Connection`),
  and the verdict (`Verdict`);
- the receive path from a NIC burst to a token (`Receive`), the frames its filter looks into
  (`Frames`), the sizing of the packet
  pools (`Pool`), the over-aligning allocator (`Allocator`), the console lock (`Console`)
  and the address parser (`Ipv4`);
- the linear-probing hash table (`HashTable`) and the period of the generator that feeds
  it (`Lcg`).

`Words` holds machine words as natural numbers with the bitwise operators written out
digit by digit, `Finite` the sizes of finite sets, `Sequences` byte strings in pieces, and
`Decimals` decimal numbers in ASCII. `HttpReader` reads an HTTP header back. Sizes stay symbolic where the
source's constants do not matter: table size, number of workers, connections per worker,
block and object size. Word width is explicit where it matters: 32-bit windows, 64-bit
keys, block products, pointers and report sums, which wrap in the release build.

Code that the source runs step by step is a method with its loops, and objects that the
source updates are classes; each is proved against a function of its inputs or of the old
state, and the promises are lemmas about that function. Runs are sequences of events:
polls and steps for a connection, thread steps for the console, buffer moves for the
pool. What a run-level lemma says holds after every legal sequence of any length.

Calls into code outside the repository are parameters or nondeterministic choices. The
TCP socket accepts any prefix of what it is offered and hands up any part of what has
arrived. A burst drains any number of pending frames. `malloc` and `realloc` return null
or any block that fits, with arbitrary bytes, and `free` leaves arbitrary bytes behind. A
`write` takes any part of the line or fails, and a weak compare-exchange may fail
spuriously. In `Allocator` the parameters `got`, `junk` and `scrub` are those choices. Of the buffers a
worker leaks, `Verdict` takes only that they are disjoint in a 64-bit address space.

Some behaviour of the code differs from what its comments suggest, and the model follows
the code:

- Each connection is meant to fetch a disjoint byte range. The ranges are disjoint exactly
  when the object holds all planned blocks, or one is planned (`Blocks.RangesDisjoint`,
  `Verdict.CompleteRangesDisjoint`). The first block past the end does not start over at 0
  but short of block 1, and overlaps block 0 (`Blocks.NextBlockOverlaps`). The default run
  of 192 blocks does this (`Blocks.DefaultRunWraps`).
- The port filter also looks into frames whose IPv4 header claims to be shorter than five
  words, and takes their port from inside the header (`Frames.ShortHeader`).
- A request longer than its 384-byte buffer is cut off silently and never reaches its blank
  line (`Request.WholeExactly`).
- A reset after the request went out also counts as a clean close
  (`Connection.ResetLooksClean`). A clean close counted the whole body exactly when the
  peer's whole stream arrived, or it has no body (`Connection.CleanCloseIsComplete`).
- A reset before the socket took the whole request, queued or not, leaves a connection
  unfinished for good, and the worker waiting for it never stops
  (`Connection.ResetsThatHang`). Nothing else does (`Connection.CanFinishExactly`).
- The completeness verdict compares sums modulo 2^64. Its counts cannot wrap, because a
  worker first leaks 4 MiB for every planned connection (`Verdict.PlanFits`), so they can
  be trusted for every plan (`Verdict.CompleteExactly`). The byte totals can: COMPLETE is
  byte-exact in all runs exactly when the planned blocks hold fewer than 2^64 bytes, or no
  run is COMPLETE (`Verdict.BytesExactly`).
- A run of the hash table without clearing it first can still end: exactly when there is a
  slot for every key it then holds, and one to spare if key 0 is drawn
  (`HashTable.RunStopsExactly`).

## Model

| member | source | states |
|---|---|---|
| `Lcg.Spin` | bench/common/bench.hh:147-153 | the dependent chain ends in the `work`-fold iterate of the generator, and for nonzero 64-bit `work` never where it started |
| `Lcg.KnuthStep` | bench/common/hashtable.hh:39 | the 64-bit wrapping update is a step of a generator that meets the Hull-Dobell conditions with modulus 2^64 |
| `Lcg.GeometricValuation` | bench/common/hashtable.hh:39 | the geometric sum of d powers of the multiplier has exactly as many factors two as d |
| `Lcg.FullPeriod` | bench/common/hashtable.hh:36-39 | d steps from any state return to it exactly when the modulus divides d |
| `Lcg.RepeatsExactly` | bench/common/hashtable.hh:38-39 | two positions of the key stream carry the same key exactly when they are a multiple of the modulus apart |
| `Lcg.KeysDistinct` | bench/common/hashtable.hh:38-39 | the first n keys after any seed are n different keys, for n up to the modulus |
| `Lcg.EveryWordIsDrawn` | bench/common/hashtable.hh:38-39 | every word, key 0 included, is drawn within one period from every seed |
| `HashTable.ProbeFinds` | bench/common/hashtable.hh:50-52 | under the linear-probing invariant a probe stops on its key exactly when the key is stored |
| `HashTable.StopIsUnique` | bench/common/hashtable.hh:41-42 | the slot where a probe stops is determined by table and key |
| `HashTable.HomeDigits` | bench/common/hashtable.hh:40 | in a table of 2^bits slots the home of a key is its binary digits 17 to 16 + bits |
| `HashTable.StoreKeepsInvariant` | bench/common/hashtable.hh:40-43 | storing a key where its probe stops keeps the invariant, adds that key alone, and key 0 adds nothing |
| `HashTable.OccupiedIsContents` | bench/common/hashtable.hh:22-43 | under the invariant there are as many occupied slots as stored keys |
| `HashTable.FreshRunOccupancy` | bench/common/hashtable.hh:28-44 | after clearing and a first pass of n keys, n slots are occupied, or n-1 if key 0 was drawn |
| `HashTable.StopsOrFull` | bench/common/hashtable.hh:40-42 | on a valid table a probe stops exactly when its key is stored or a slot is empty |
| `HashTable.RunStopsExactly` | bench/common/hashtable.hh:24-53 | from any valid table, cleared or not, every probe of both passes stops exactly when stored and drawn keys together, key 0 included, are no more than the slots |
| `HashTable.SomeProbeHangs` | bench/common/hashtable.hh:24-27 | when they are more, the run comes to a probe for a key in a table full of other keys |
| `HashTable.Table.constructor` | bench/common/hashtable.hh:18-22 | the zero-initialised table satisfies the invariant and stores nothing |
| `HashTable.Table.Clear` | bench/common/hashtable.hh:28-31 | any table becomes an empty one that satisfies the invariant |
| `HashTable.Table.Probe` | bench/common/hashtable.hh:40-42 | the probe loop ends, given an empty or matching slot anywhere, at the first such slot around the ring from the key's home |
| `HashTable.Table.Fill` | bench/common/hashtable.hh:36-44 | whenever its probes stop, the first pass ends in the table that stores each key in turn where its probe stops, which holds the old keys and the n drawn, without key 0 |
| `HashTable.Table.LookUp` | bench/common/hashtable.hh:46-53 | the second pass finds all n keys |
| `HashTable.Table.Work` | bench/common/hashtable.hh:35-56 | from any valid table with a slot for each key stored or drawn, both passes terminate, the contents grow by the nonzero keys drawn, and the result is n for every seed |
| `HashTable.Table.FreshRun` | bench/pmc-perfevent/src/main.cc:76-78 | clearing and then working leaves n occupied slots, n-1 if key 0 was drawn, and finds all n keys |
| `Toeplitz.Compute` | bench/smoltcp-s3/src/lib.rs:488-509 | the sliding-window loop computes the exclusive-or, over set data bits i, of the 32 key bits starting at bit i, for every key and data |
| `Toeplitz.WindowBits` | bench/smoltcp-s3/src/lib.rs:491-504 | a window spells the key bits, with zeros past the key's end |
| `Toeplitz.FirstWindow` | bench/smoltcp-s3/src/lib.rs:491 | the first four key bytes read big-endian are the window at bit 0 |
| `Toeplitz.SlideWindow` | bench/smoltcp-s3/src/lib.rs:499-505 | shifting the 32-bit window and taking in the next key bit gives the window one bit on |
| `Toeplitz.HashLinear` | bench/smoltcp-s3/src/lib.rs:488-509 | the hash of an exclusive-or is the exclusive-or of the hashes |
| `Toeplitz.HashOfOneBit` | bench/smoltcp-s3/src/lib.rs:488-509 | the hash of data with a single bit set, counted from the most significant bit of the first byte, is the key window at that bit, which with linearity determines every hash |
| `Toeplitz.HashBound` | bench/smoltcp-s3/src/lib.rs:490 | the hash fits 32 bits |
| `Steering.LoadRss` | bench/smoltcp-s3/src/lib.rs:566-603 | a configuration is accepted exactly for one queue, or with a key and a table whose length is a power of two |
| `Steering.EntryIsModulo` | bench/smoltcp-s3/src/lib.rs:528-529 | masking by the table length less one is the remainder modulo that length |
| `Steering.OwnsMarked` | bench/smoltcp-s3/src/lib.rs:557-563 | for an ephemeral port the ownership test reads its bit of the bitmap |
| `Steering.BuildOwnedPorts` | bench/smoltcp-s3/src/lib.rs:544-554 | exactly the bits of ports steered to the queue are added to the bitmap, and the result counts them |
| `Steering.WorkerBitmap` | bench/smoltcp-s3/src/lib.rs:1222-1225 | from zeros, the bitmap marks exactly the ports steered to the worker's queue |
| `Steering.OwnershipPartition` | bench/smoltcp-s3/src/lib.rs:532-563 | with table entries below the queue count, every ephemeral port is owned by exactly one worker, the one its return traffic is steered to |
| `Steering.OwnedCountsSum` | bench/smoltcp-s3/src/lib.rs:544-554 | the workers' counts add up to 16384 |
| `Fibres.EntryMoves` | bench/smoltcp-s3/src/lib.rs:528-541 | moving a port position by an exclusive-or moves its table entry by an exclusive-or that does not depend on the port |
| `Fibres.EqualFibres` | bench/smoltcp-s3/src/lib.rs:528-554 | any two table entries reached by some ephemeral port are reached by equally many |
| `Fibres.OwnedIsMultiple` | bench/smoltcp-s3/src/lib.rs:544-554 | over several queues each worker's count is a multiple of one common number, which times the entries reached is 16384 |
| `Fibres.FibreSizeIsPower` | bench/smoltcp-s3/src/lib.rs:478-480 | that common number is a power of two |
| `PortChoice.MarkedListComplete` | bench/smoltcp-s3/src/lib.rs:1283-1287 | the ascending list of owned ports holds exactly the marked ones |
| `PortChoice.MarkedListLength` | bench/smoltcp-s3/src/lib.rs:1225 | its length is the count the bitmap was built with |
| `PortChoice.StrideIsWidest` | bench/smoltcp-s3/src/lib.rs:1282 | the stride is the widest gap that leaves room for all connections, and 1 when there are fewer owned ports than connections |
| `PortChoice.ChoosePorts` | bench/smoltcp-s3/src/lib.rs:1280-1292 | the chosen ports are the owned ones of rank 0, g, 2g and so on, min(connections, owned) of them, where connections times g is at most owned and connections times g + 1 is more, or g is 1 when owned is less |
| `PortChoice.ChosenOwnedAscending` | bench/smoltcp-s3/src/lib.rs:1280-1292 | chosen ports are owned and strictly increasing |
| `PortChoice.PrepareWorker` | bench/smoltcp-s3/src/lib.rs:1219-1300 | a worker chooses ports steered to its queue, spread over all of these at the widest even gap |
| `PortChoice.ChoicesDisjoint` | bench/smoltcp-s3/src/lib.rs:1280-1292 | no port is chosen by two workers |
| `Blocks.RangeInsideObject` | bench/smoltcp-s3/src/lib.rs:1307-1310 | a requested range ends inside the object exactly when a block is no larger than the object |
| `Blocks.SameStartExactly` | bench/smoltcp-s3/src/lib.rs:1307-1309 | whatever wraps, two blocks share an offset exactly when the stride divides their products' distance less 2^64 times the difference of their wraps |
| `Blocks.SameOffset` | bench/smoltcp-s3/src/lib.rs:1307-1309 | where what wrapping takes off is a multiple of the stride, two blocks share an offset exactly when stride over gcd(block size, stride) divides their distance; for blocks at such a distance, only there |
| `Blocks.CancelsWhen` | bench/smoltcp-s3/src/lib.rs:1309 | it is a multiple when both products wrap equally often, or the stride divides 2^64 |
| `Blocks.WrapBreaksSameOffset` | bench/smoltcp-s3/src/lib.rs:1309 | blocks 0 and 2^32 of 4 GiB in an 8 GiB object share an offset although their distance is no such multiple |
| `Blocks.OffsetsDistinct` | bench/smoltcp-s3/src/lib.rs:1304-1309 | while no product wraps, the first n blocks start at different offsets exactly when n is at most stride over gcd(block size, stride) |
| `Blocks.WholeStride` | bench/smoltcp-s3/src/lib.rs:1304-1309 | when the block size divides the object size, that bound is the whole stride |
| `Blocks.RangesDisjoint` | bench/smoltcp-s3/src/lib.rs:1304-1310 | for all sizes, the ranges of the first n blocks are pairwise disjoint exactly when n is at most one or at most object size over block size |
| `Blocks.FirstBlocksTile` | bench/smoltcp-s3/src/lib.rs:1304-1310 | of the blocks that fit the object, the one that covers a byte is the byte's position over the block size |
| `Blocks.TilesWhole` | bench/smoltcp-s3/src/lib.rs:1304-1310 | the blocks that fit cover the whole object exactly when the block size divides its size |
| `Blocks.NextBlockOverlaps` | bench/smoltcp-s3/src/lib.rs:1304-1310 | with room for two blocks, the first block that does not fit starts at block size less one less the object's remainder, overlaps block 0, and also overlaps block 1 unless it repeats block 0 |
| `Blocks.DefaultRunWraps` | bench/smoltcp-s3/src/lib.rs:408-419 | the default object holds exactly 160 blocks, block 160 starts one byte short of block 1, and the 192 ranges of a default run are not disjoint |
| `Request.BuildRangeRequest` | bench/smoltcp-s3/src/lib.rs:847-856 | the buffer holds the first 384 bytes of the request text for the host and the range |
| `Request.FitsExactly` | bench/smoltcp-s3/src/lib.rs:847-856 | the whole text fits exactly when the host name and the two numbers have at most 281 bytes together |
| `Request.WholeExactly` | bench/smoltcp-s3/src/lib.rs:847-856 | for a host name without carriage returns, the request is one whole HTTP header exactly when it fits, and otherwise holds no header at all |
| `Request.RangeDetermined` | bench/smoltcp-s3/src/lib.rs:847-856 | two whole requests are equal only if they name the same range |
| `Request.InLines` | bench/smoltcp-s3/src/lib.rs:849-854 | the text meant is five lines and a blank one |
| `Request.ReadsBack` | bench/smoltcp-s3/src/lib.rs:849-854 | read line by line, a request that fits gets /blob.bin by HTTP/1.1 from the host named, with the fields User-Agent, Range: bytes=first-last and Connection: close |
| `ResponseBody.ScanConcat` | bench/smoltcp-s3/src/lib.rs:992-1031 | scanning a split input piece by piece gives the state of scanning it whole |
| `ResponseBody.AdvanceIsLongest` | bench/smoltcp-s3/src/lib.rs:1013-1020 | the matcher's state stays the longest prefix of CRLFCRLF that ends what was read |
| `ResponseBody.CompleteHeader` | bench/smoltcp-s3/src/lib.rs:1003-1030 | once the header is complete the bytes counted are those after the first CRLFCRLF, and the status is the decimal of the digits at positions 9 to 11 of the header |
| `ResponseBody.DoneExactly` | bench/smoltcp-s3/src/lib.rs:1021-1022 | the header is taken as complete exactly when the stream holds a CRLFCRLF, and until then nothing is counted |
| `ResponseBody.HeaderUnique` | bench/smoltcp-s3/src/lib.rs:1021-1029 | a stream has at most one header length |
| `ResponseBody.ScanCountsBody` | bench/smoltcp-s3/src/lib.rs:992-1031 | the bytes counted are the body length of the stream |
| `ResponseBody.StatusBound` | bench/smoltcp-s3/src/lib.rs:1006-1011 | the status never exceeds 999 |
| `ResponseBody.StatusLine` | bench/smoltcp-s3/src/lib.rs:1004-1011 | a three-digit code after an eight-byte version and a space is the status code |
| `ResponseBody.RefusedExactly` | bench/smoltcp-s3/src/lib.rs:1021-1027 | over a stream the refusal counter is bumped exactly when it holds a header with a status other than 206, and the status then is the one in the header |
| `ResponseBody.PiecesDoNotMatter` | bench/smoltcp-s3/src/lib.rs:1021-1028 | for any cut into pieces the final state is the same, and the refusal counter is bumped once if the header has another status than 206 and never otherwise |
| `Connection.Conn.CountBody` | bench/smoltcp-s3/src/lib.rs:996-1031 | the loop over a piece leaves the state of the byte-wise scan, counts a refusal when this piece completes a header with a status other than 206, and records the first such status |
| `Connection.Conn.Settle` | bench/smoltcp-s3/src/lib.rs:1056-1081 | a connection settles as established or, on a SYN timeout, as failed, and is counted when it first does |
| `Connection.Conn.Transmit` | bench/smoltcp-s3/src/lib.rs:1085-1094 | the request is queued once the socket is open, and what the socket accepts leaves the outgoing bytes |
| `Connection.Conn.Drain` | bench/smoltcp-s3/src/lib.rs:1095-1116 | what the socket hands up is scanned in order, however it is cut |
| `Connection.Conn.ConnStep` | bench/smoltcp-s3/src/lib.rs:1036-1181 | one plain-HTTP step takes connection, socket and counters to the state the step function gives for what the socket did, and times out exactly on a SYN unanswered for over 5000 ms |
| `Connection.AfterKeepsInv` | bench/smoltcp-s3/src/lib.rs:1036-1181 | every poll and every step keeps the connection invariant, and steps leave a finished connection alone |
| `Connection.RunKeepsInv` | bench/smoltcp-s3/src/lib.rs:1036-1181 | in every run, bytes sent and outgoing make up the request or nothing, the scan is that of the bytes read, and a connection adds at most one in total to established plus failed |
| `Connection.DoneIsAbsorbing` | bench/smoltcp-s3/src/lib.rs:1041 | once done, a connection's own state never changes |
| `Connection.CleanCloseIsComplete` | bench/smoltcp-s3/src/lib.rs:1166-1181 | a cleanly closed connection sent the whole request once and counted the body of all it received, which is the peer's whole body exactly when the whole stream arrived, as after a FIN, or has no body |
| `Connection.ResetLooksClean` | bench/smoltcp-s3/src/lib.rs:1171-1179 | for every request and peer stream some run ends in a reset, closes cleanly and counts no byte |
| `Connection.StepFinishesExactly` | bench/smoltcp-s3/src/lib.rs:1166-1181 | in every run, a step that does not time out makes the connection done, and cleanly closed, exactly when the socket is closed, in CloseWait or in TimeWait, has taken the whole request, and has handed up all that arrived |
| `Connection.FinThenFinish` | bench/smoltcp-s3/src/lib.rs:1166-1181 | after the peer's FIN the step that sends and reads all that is left closes the connection cleanly, with the whole body counted |
| `Connection.QueuedWhenOpen` | bench/smoltcp-s3/src/lib.rs:1085-1089 | a step queues the request exactly when the socket is established or in CloseWait |
| `Connection.NothingBeforeOpen` | bench/smoltcp-s3/src/lib.rs:1085-1094 | nothing is queued or sent in a run in which the socket never opens |
| `Connection.TimeoutCloses` | bench/smoltcp-s3/src/lib.rs:1064-1076 | after a SYN timeout the connection is done, not cleanly, and its socket closed for good |
| `Connection.RunRefusals` | bench/smoltcp-s3/src/lib.rs:1021-1027 | over a run a connection is counted as refused once, if what it read holds a header with a status other than 206, and never otherwise; that status becomes the first bad one if there was none |
| `Connection.CanFinishExactly` | bench/smoltcp-s3/src/lib.rs:1166-1181 | after any run some continuation makes the connection done exactly when it is not closed, undone, with its request not queued or not all taken by the socket |
| `Connection.ResetsThatHang` | bench/smoltcp-s3/src/lib.rs:1085-1094 | a reset before the request is queued, and one before any of the queued request is sent, are each followed by no run that makes the connection done |
| `Verdict.OpenConns` | bench/smoltcp-s3/src/lib.rs:1302-1356 | a worker requests the block of its own index for each accepted connect, by the request for that block's range, each of block-size bytes; when all are accepted, min(connections, ports) less the injected faults are opened |
| `Verdict.RequestedRange` | bench/smoltcp-s3/src/lib.rs:1307-1324 | the request for a block, if it fits, reads back as the range of block-size bytes from the block's offset on |
| `Verdict.OpenedExactly` | bench/smoltcp-s3/src/lib.rs:1305-1321 | one block is opened for each accepted connect, in order, and its index is the worker's first plus that of the connect |
| `Verdict.AllocatesExactly` | bench/smoltcp-s3/src/lib.rs:1245-1260 | disjoint 4 MiB buffers for all planned connections exist in a 64-bit address space exactly when there are at most 2^42 of them |
| `Verdict.PlanFits` | bench/smoltcp-s3/src/lib.rs:1245-1260 | once a worker has its buffers, workers times connections fits 64 bits |
| `Verdict.LegalAtMost` | bench/smoltcp-s3/src/lib.rs:1302-1356 | a worker opens at most its planned connections and at most one per owned port, fewer than planned under fault injection, and if it opens them all their blocks are consecutive |
| `Verdict.Decide` | bench/smoltcp-s3/src/lib.rs:1548-1655 | the summing loop and final test print COMPLETE exactly when the 64-bit sums meet the four conditions |
| `Verdict.CompleteExactly` | bench/smoltcp-s3/src/lib.rs:1570-1655 | for every plan, COMPLETE is printed exactly when every worker opened all its connections and each closed cleanly, the byte totals agree modulo 2^64, and nothing was misrouted |
| `Verdict.FullRunVerdict` | bench/smoltcp-s3/src/lib.rs:1636-1655 | with full workers and nothing misrouted, COMPLETE is printed exactly when the bytes received are those of the planned blocks, or with the stub at least as many, both modulo 2^64 |
| `Verdict.CompleteIsSound` | bench/smoltcp-s3/src/lib.rs:1570-1655 | COMPLETE means every block index below workers times connections was requested exactly once, and with the stub off the bytes received are those blocks' bytes modulo 2^64 |
| `Verdict.BytesExactly` | bench/smoltcp-s3/src/lib.rs:1570-1640 | with the stub off, every COMPLETE run that receives fewer than 2^64 bytes receives exactly those of the planned blocks, exactly when these are fewer than 2^64 or no run is COMPLETE |
| `Verdict.CompleteRangesDisjoint` | bench/smoltcp-s3/src/lib.rs:1183-1188 | after COMPLETE the requested ranges are pairwise disjoint exactly when at most one block is planned or the object holds them all |
| `Verdict.FaultsAreSeen` | bench/smoltcp-s3/src/lib.rs:987-990 | no run with fault injection or with a worker that returned early prints COMPLETE |
| `Verdict.CompleteDelivers` | bench/smoltcp-s3/src/lib.rs:1166-1181 | COMPLETE means that connection i of worker w, whatever its run, sent the whole request for block w times connections plus i once and reported the body it received, the peer's whole body exactly when the whole stream arrived or has no body |
| `Verdict.CompletePossible` | bench/smoltcp-s3/src/lib.rs:1280-1306 | for any numbers of owned ports, some run prints COMPLETE exactly when no fault is injected and every worker owns a port for each planned connection |
| `Receive.Queue.RxBurst` | bench/smoltcp-s3/shim/shim.cc:324-348 | the three arrays hold the good frames of the burst in order without gaps, entries past them are untouched, and the bad frames are freed |
| `Receive.GoodOrBad` | bench/smoltcp-s3/shim/shim.cc:331-346 | every drained frame is handed on or freed, never both |
| `Receive.SortedByChecksum` | bench/smoltcp-s3/shim/shim.cc:332-341 | exactly the frames with neither checksum bad are handed on, and exactly those with a bad one freed |
| `Receive.Device.Receive` | bench/smoltcp-s3/src/lib.rs:698-757 | the synthetic frame goes first; otherwise the call returns a token for one frame that passes the filter and records it, or nothing with the prefetch buffer empty, and keeps the accounts balanced |
| `Receive.Device.Next` | bench/smoltcp-s3/src/lib.rs:702-756 | the refill-and-filter loop ends, if no frame arrives meanwhile, and yields a passing frame or none |
| `Receive.Device.Refill` | bench/smoltcp-s3/src/lib.rs:704-717 | an empty prefetch buffer is replaced by the good frames of a burst |
| `Receive.Device.Examine` | bench/smoltcp-s3/src/lib.rs:718-755 | the next prefetched frame is handed up if it passes the port filter, else counted as misrouted and freed |
| `Receive.Device.Consume` | bench/smoltcp-s3/src/lib.rs:647-660 | consuming a token shows its frame and frees its buffer once |
| `Receive.Device.Drop` | bench/smoltcp-s3/src/lib.rs:662-668 | dropping a token frees its buffer once |
| `Receive.RefillBalances` | bench/smoltcp-s3/src/lib.rs:704-717 | a refill keeps the accounts balanced |
| `Receive.ExamineBalances` | bench/smoltcp-s3/src/lib.rs:718-755 | filtering one frame keeps the accounts balanced |
| `Receive.HandedIsPrefix` | bench/smoltcp-s3/src/lib.rs:698-757 | the frames handed up are, in order, a prefix of the drained frames that pass both filters, and all of them when the prefetch buffer is empty |
| `Receive.OnePlace` | bench/smoltcp-s3/src/lib.rs:645-668 | every drained buffer is prefetched, outstanding or freed, in exactly one of these and freed at most once |
| `Receive.PlacedPasses` | bench/smoltcp-s3/src/lib.rs:462-541 | a frame from the target that the NIC placed by its hash passes the port filter of its queue |
| `Receive.NothingMisrouted` | bench/smoltcp-s3/src/lib.rs:443-446 | when the NIC places frames by the hash, the misrouted count stays 0 and every frame examined is handed up |
| `Receive.ChosenPortPasses` | bench/smoltcp-s3/src/lib.rs:718-755 | no frame for a chosen port is ever filtered |
| `Frames.BuiltFilterable` | bench/smoltcp-s3/src/lib.rs:724-738 | a frame built from its fields is filtered by port exactly when it is IPv4 and TCP, at least 54 bytes long and goes on past its two ports, whatever its options |
| `Frames.BuiltPorts` | bench/smoltcp-s3/src/lib.rs:731-738 | the port and the hashed tuple read from it are those it was built with |
| `Frames.FilterableExactly` | bench/smoltcp-s3/src/lib.rs:724-738 | the frames filtered by port, with an IPv4 header of five words or more, are exactly the TCP segments over IPv4 of at least 54 bytes |
| `Frames.ShortHeader` | bench/smoltcp-s3/src/lib.rs:731-738 | a frame that claims fewer words is filtered as well, by two bytes of the header |
| `Frames.PassesExactly` | bench/smoltcp-s3/src/lib.rs:724-746 | a TCP segment over IPv4 is stopped exactly when its port is ephemeral and not marked, and never without a bitmap |
| `Frames.OthersPass` | bench/smoltcp-s3/src/lib.rs:724-736 | frames that are too short, of another type or protocol, or without ports pass |
| `Pool.Conservation` | bench/smoltcp-s3/src/lib.rs:246-261 | in every run the buffers in all places add up to the pool, and no place exceeds its limit |
| `Pool.AllReachable` | bench/smoltcp-s3/src/lib.rs:252-257 | every occupation within the limits occurs in some run |
| `Pool.StepMovesOne` | bench/smoltcp-s3/src/lib.rs:246-261 | every step moves one buffer from one place to another |
| `Pool.AllCanReturn` | bench/smoltcp-s3/src/lib.rs:246-261 | from every reachable state some continuation brings all buffers back to the pool |
| `Pool.PoolSizing` | bench/smoltcp-s3/src/lib.rs:252-259 | transmit allocation never fails in any run exactly when the pool covers all holders at their limits and the stranded buffers |
| `Pool.ProgramPool` | bench/smoltcp-s3/src/lib.rs:246-261 | the chosen size is safe exactly up to 513 buffers in the stack's hands, and twice the descriptor count is never safe |
| `Allocator.Heap.Alloc` | bench/smoltcp-s3/src/lib.rs:46-61 | the result is null exactly when `malloc` fails, else a new aligned block, and no byte of a live block changes |
| `Allocator.Heap.Dealloc` | bench/smoltcp-s3/src/lib.rs:63-72 | exactly the pointer `malloc` returned for the block is freed, and the other blocks keep their bytes |
| `Allocator.Heap.ReallocSmall` | bench/smoltcp-s3/src/lib.rs:74-77 | for small alignments the first min(old, new) bytes move with the block, and on failure nothing changes |
| `Allocator.Heap.ReallocLarge` | bench/smoltcp-s3/src/lib.rs:78-85 | for large alignments the first min(old, new) bytes arrive in the new aligned block and the old one is gone, and on failure the old block is intact |
| `Allocator.Heap.Write` | bench/smoltcp-s3/src/lib.rs:45-87 | a write inside a live block keeps the heap invariant, stash words included |
| `Allocator.AlignedAfter` | bench/smoltcp-s3/src/lib.rs:55-56 | masking gives the first multiple of the alignment from an address on |
| `Allocator.LargeBlock` | bench/smoltcp-s3/src/lib.rs:50-60 | with the raw pointer stored below it, the aligned address makes a sound block inside its raw block |
| `Allocator.LoadStored` | bench/smoltcp-s3/src/lib.rs:57-59 | a pointer stored as eight bytes is read back |
| `Allocator.LiveApart` | bench/smoltcp-s3/src/lib.rs:45-87 | live blocks are disjoint from each other and from every stash word |
| `Console.BufWriter.WriteStr` | bench/smoltcp-s3/src/lib.rs:117-124 | a fragment is appended as far as it fits |
| `Console.FormatLine` | bench/smoltcp-s3/src/lib.rs:131-142 | a line is the first 255 bytes of the concatenated fragments and a newline |
| `Console.AfterKeepsInv` | bench/smoltcp-s3/src/lib.rs:144-158 | every step of any thread keeps the lock invariant |
| `Console.RunKeepsInv` | bench/smoltcp-s3/src/lib.rs:126-159 | in every interleaving the console holds the finished turns in lock order and then what the holder has written |
| `Console.MutualExclusion` | bench/smoltcp-s3/src/lib.rs:126-149 | no two threads are past the lock at once |
| `Console.LinesAreWhole` | bench/smoltcp-s3/src/lib.rs:126-159 | unless a write failed the console is whole lines in lock order, and a beginning of the holder's line |
| `Console.TurnsPrintWhatWasBegun` | bench/smoltcp-s3/src/lib.rs:126-156 | in every interleaving a thread's turns carry, in order, the lines it asked to print, but for the one it is still at |
| `Ipv4.Parse` | bench/smoltcp-s3/src/lib.rs:377-405 | the loop returns the octets of exactly the inputs made of four nonempty dot-separated digit groups of value at most 255, and 0.0.0.0 for all others |
| `Ipv4.AcceptedWasViable` | bench/smoltcp-s3/src/lib.rs:386-401 | an input the loop has given up on can never become acceptable |
| `Ipv4.AcceptsExactly` | bench/smoltcp-s3/src/lib.rs:375-405 | accepted are exactly four nonempty groups of digits of value at most 255 with dots between, the octets are their values, and all else gives 0.0.0.0 |
| `Ipv4.PrintThenParse` | bench/smoltcp-s3/src/lib.rs:375-405 | printing any four octets and parsing gives them back |

## Left out

- TLS, rustls and the record pump of `conn_step`: only plain HTTP is modelled, with the TLS stub as a parameter of the verdict alone.
- smoltcp itself, DHCP and ARP: the socket and the interface are the environment, and ARP frames are fixed-size copies.
- Termination of a worker's poll loop: the code does not promise it, as `Connection.ResetsThatHang` shows.
- Connection.Conn.Settle: leaves out the retry count and the setup time, which are printed and decide nothing.
- Connection.Conn.CountBody: counts bytes without the 64-bit limit of `usize`, which a connection cannot reach.
- Verdict.CompleteIsSound: says nothing about each connection's own bytes, because the verdict compares sums only.
- Receive.NothingMisrouted: takes as hypothesis that the NIC places frames by the hash and that all TCP frames come from the target, which only the hardware decides.
- Blocks.OffsetsDistinct: leaves out runs of blocks in which a product wraps 64 bits, where `Blocks.SameStartExactly` decides each pair.
- Receive.Device.Next: no frame arrives while one call runs, and the loop's end depends on that; frames arrive between calls.
- Verdict.CompletePossible: takes the numbers of owned ports as given; `Steering.OwnedCountsSum` says what they add up to.
- Pool.PoolSizing: takes the number of buffers in the network stack's hands as a parameter, because smoltcp sets it.
- The transmit offload metadata of the shim and the frame scratch buffer on a failed allocation.
- Reading the indirection table in groups of 64, offload negotiation and device statistics: index copies and pass-through calls.
- Parsing of sizes and booleans from the environment, and the parser's `None` input, which gives 0.0.0.0.
- Timing, performance counters, the sampling ring and the `pmc-*` main programs.
