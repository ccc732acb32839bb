# RustyPotato in Dafny

RustyPotato is a Redis-like key-value server. This project models how it reads
requests off a byte stream, runs them on a store whose keys expire lazily, logs
the successful mutations to an append-only file, compacts that file while clients
keep writing, and rebuilds the store from it. It proves what holds over whole
runs, from the bytes a client sends to the store a restart brings back. Beside
these it models the KEYS pattern matcher, the connection slots and the latency
histogram.

`dafny verify dfyconfig.toml` checks everything.

## Layout

| file | content |
|---|---|
| `Bytes.dfy` | octets, UTF-8, decimal numerals |
| `Resp.dfy` | RESP2 encoding and parsing as functions, monotonicity, round trip |
| `Codec.dfy` | the codec object with its buffer and cursor parsers |
| `Stream.dfy`, `ReplayRoom.dfy` | draining and feeding a stream, chunk invariance, cut-off logs; room to read them |
| `Keyspace.dfy`, `MemoryStore.dfy` | the live keys, and the store object that refines them |
| `Commands.dfy`, `Dispatch.dfy` | what commands do to live keys, and their execution on the store object |
| `ArgumentLoops.dfy`, `Refusals.dfy` | what loops over arguments compute; commands that err after writing |
| `Meaning.dfy`, `ExpiryFolds.dfy`, `RelativeDeadlines.dfy` | laws of commands: bisimulation, races of conditional deadlines, deadlines counted from now |
| `AofWriter.dfy`, `Snapshot.dfy`, `Recovery.dfy` | the writer, the rewriter and replay |
| `Session.dfy`, `BigHash.dfy`, `Crash.dfy` | one client against its log; a hash lost by a rewrite; a crash at any moment |
| `Server.dfy`, `EndToEnd.dfy` | the serving and replay loops; everything together |
| `RewriteBarrier.dfy` | many clients, one rewriter and the writer as a step protocol |
| `Words.dfy`, `Wire.dfy` | names in any letter case and QUIT; bytes on the wire, numerals, UTF-8 |
| `SetOptionLaws.dfy`, `CommandLaws.dfy`, `CommandRuns.dfy` | the options of SET; each command on live keys, from its arguments; runs of counters and conditional deadlines |
| `Glob.dfy`, `GlobLaws.dfy`, `ConnectionPool.dfy`, `Histogram.dfy` | pattern matcher, slots, percentiles |

Objects the server updates in place are classes here (`RespCodec`, `Store`,
`Writer`, `Channel`, `Histogram`); loops are methods with invariants, proved
against functions whose laws are lemmas. Clocks are parameters: every command
takes one reading of the monotonic and of the wall clock. The rewrite barrier
and the connection pool are concurrent, so they are state machines whose steps
are single lock, map, channel or semaphore operations.

## Where the code does not do what one may expect

Each is proved, with the exact condition where there is one.

- A rewrite keeps a key's deadline only if the deadline is still ahead when the
  entry is encoded; otherwise the key comes back and never expires
  (`Recovery.DeadlineSurvives`, `Recovery.PassedDeadlineBecomesNone`).
- The drift of a deadline through a rewrite and a replay is above -2 ms and below
  +1 ms when it fits 64-bit milliseconds and its target is ahead at replay, so that
  the key survives; when the target is not, the key is gone, up to two milliseconds early
  (`Recovery.CycleDrift`, `Recovery.CycleDriftTooClose`).
- Recovery reads with the default limits into a buffer of 64 MiB, in reads of up to
  64 KiB. What is logged can be refused by it: a frame read under wider configured
  limits, a frame longer than the buffer, and, depending on what follows, one within
  a read of it (`Session.LoggedIff`, `ReplayRoom.RoomyIff`).
- A rewritten hash is one HSET, so a hash with more than (array limit - 2) / 2
  fields, or longer than the buffer on the wire, is lost by a rewrite although every
  command that built it was recoverable, and everything after it with it
  (`Snapshot.HashFits`, `Session.RewriteRecovers`, `BigHash.BigHashLost`).
- Some commands change the store and then answer an error, so they are not
  logged: SET with GET over a hash, and DEL, MSET, HSET and HDEL that meet an
  argument that is not text after having done something
  (`Refusals.RefusedAfterWriting`, `Session.RefusedStaysExactIff`).
- Relative deadlines are logged as sent and counted from the time of replay
  (`RelativeDeadlines.Reanchored`).
- The log is reopened for append after a crash without cutting off a torn frame, so
  what is logged later is read as its continuation. All later frames are recovered
  only if they happen to complete the torn bytes to themselves, and cleanly only if
  the cut fell between frames (`Stream.TornTail`, `Stream.TornTailClean`,
  `Snapshot.TornAndCompleted`).
- The barrier is released before the frame is logged, so with several clients a
  mutation can be in the snapshot and again in the log after it, and the log need
  not follow execution order (`RewriteBarrier.OnceStep`,
  `RewriteBarrier.InSnapshotAndLogged`, `RewriteBarrier.InOrderIff`,
  `RewriteBarrier.LoggedOutOfOrder`).
- A removal that comes between listing a connection and storing its permit leaves
  a slot held by no listed connection until another removal
  (`ConnectionPool.HeldUnlistedIff`, `ConnectionPool.ReleasedInTheEnd`).
- TTL and PTTL answer -2 at the very deadline, although the key still reads as
  present then; the sweep also takes keys at their very deadline
  (`Keyspace.GoneAtDeadline`, `MemoryStore.SweepSeenIff`).

## Model

| member | source | states |
|---|---|---|
| `Bytes.SignedRoundTrip` | src/network/protocol.rs:303-316 | printing an integer and reading it back gives it, for every integer in the reader's range |
| `Bytes.SignedOutOfRange` | src/network/protocol.rs:303-316 | a printed integer outside the range is refused, never wrapped |
| `Resp.LineLength` | src/network/protocol.rs:442-465 | the line found is the shortest one ended by CR LF, and none is reported only when no CR LF is there |
| `Resp.ParseValueExtends` | src/network/protocol.rs:263-282 | once received bytes parse to a value or to an error, bytes arriving later never change that |
| `Resp.NextCommandExtends` | src/network/protocol.rs:190-260 | the same for requests, conversion to a command included |
| `Resp.FrameStandsAlone` | src/network/protocol.rs:244-258 | the bytes a request used, decoded alone, are the same request with nothing left over |
| `Resp.CutFrameWaits` | src/network/protocol.rs:319-465 | a frame cut at any byte is incomplete, never a request and never an error |
| `Resp.ParseValuePrefix` | src/network/protocol.rs:263-282 | the bytes a value used decide the value without what follows |
| `Resp.BulkRoundTrip` | src/network/protocol.rs:319-384 | an encoded bulk string followed by anything decodes to it, or is refused, exactly by the bulk limit and the 32-bit length |
| `Resp.ListHead` | src/network/protocol.rs:387-439 | an encoded array is refused exactly when its count exceeds the limit or 32 bits, else it is what its elements parse to |
| `Resp.RoundTrip` | src/network/protocol.rs:79-186 | decoding the encoding of any response tree within limits, followed by any bytes, gives the tree and leaves exactly those bytes |
| `Resp.OutOfLimits` | src/network/protocol.rs:263-465 | a tree outside the limits, or with CR LF inside a simple string, never comes back as itself |
| `Resp.DecodesExactlyWithinLimits` | src/network/protocol.rs:79-465 | the two together: a response survives the wire if and only if it is within the limits |
| `Resp.UniqueDecoding` | src/network/protocol.rs:79-186 | equal concatenated encodings are encodings of the same sequence of values |
| `Resp.WiderLimits` | src/network/protocol.rs:11-35 | what a codec accepts, one with wider limits accepts as the same value |
| `Codec.ReadLineAt` | src/network/protocol.rs:442-465 | the scanning loop from the cursor finds the specified line and moves the cursor past it |
| `Codec.ParseIntegerAt` | src/network/protocol.rs:303-316 | cursor form of the integer parse: same verdict, cursor advanced by the bytes used |
| `Codec.ParseBulkAt` | src/network/protocol.rs:319-384 | cursor form of the bulk parse, each early return included |
| `Codec.ParseArrayAt` | src/network/protocol.rs:387-439 | the element loop yields the specified sequence, or the first element's failure |
| `Codec.ParseValueAt` | src/network/protocol.rs:263-282 | recursive dispatch on the type byte agrees with the front-of-input reading and always advances |
| `Codec.CollectArguments` | src/network/protocol.rs:207-220 | the argument loop yields the strings of a request, or refuses the first non-string |
| `Codec.RespCodec.EncodeValue` | src/network/protocol.rs:152-186 | appends exactly the encoding of the value to the buffer, recursion over nested arrays included |
| `Codec.RespCodec.Encode` | src/network/protocol.rs:79-85 | returns the encoding and leaves the shared buffer empty |
| `Codec.RespCodec.DecodeWithFrame` | src/network/protocol.rs:96-115 | overflow if and only if the cap would be exceeded and then nothing changes; a frame and the rest are the accepted bytes; errors and waiting consume nothing |
| `Codec.RespCodec.TryParse` | src/network/protocol.rs:190-260 | one request off the front with its raw bytes, or the buffer untouched |
| `Codec.RespCodec.DecodeRespValue` | src/network/protocol.rs:124-149 | client side: one value off the front, with the same overflow, waiting and error behaviour |
| `Wire.LinesOnTheWire` | src/network/protocol.rs:152-186 | the bytes of a status, of zero and of null |
| `Wire.MinusTwelve` | src/network/protocol.rs:152-186 | the bytes of a negative number |
| `Wire.HelloOnTheWire` | src/network/protocol.rs:152-186 | the bytes of a bulk string and of the empty one |
| `Wire.ArrayOnTheWire` | src/network/protocol.rs:152-186 | the bytes of an array and of the empty one |
| `Wire.Defaults` | src/network/protocol.rs:11-35 | strings of 512 MiB, arrays of 1048576 elements, a buffer of 64 MiB |
| `Wire.TextLines` | src/network/protocol.rs:285-300 | a line after a plus sign is text and after a minus sign an error, whatever follows |
| `Wire.NumberLines` | src/network/protocol.rs:303-316 | a line after a colon is its number if and only if it fits 64 bits |
| `Wire.NegativeLengths` | src/network/protocol.rs:319-439 | length -1 is null for a string and empty for an array; other negative lengths are refused |
| `Wire.OtherMarkers` | src/network/protocol.rs:263-282 | any other first byte is refused |
| `Wire.BulkNeedsItsEnd` | src/network/protocol.rs:319-384 | a bulk string not followed by CR LF is refused |
| `Wire.RequestIs` | src/network/protocol.rs:190-243 | a value is a request if and only if it is a non-empty array of strings whose first is text; its name is the capitals, its arguments the others as they are |
| `Wire.DigitsCount` | src/network/protocol.rs:303-316 | numerals are positional, the first digit counting most |
| `Wire.SignedReads` | src/network/protocol.rs:303-316 | digits with a plus, a minus or no sign read as that number if and only if it is in range |
| `Wire.UnsignedReads` | src/commands/string.rs:72-76 | unsigned numbers take a plus sign but no minus sign |
| `Wire.NoNumber` | src/network/protocol.rs:303-316 | nothing else reads as a number |
| `Wire.TextIs` | src/network/protocol.rs:285-300 | bytes are text if and only if they are the UTF-8 encodings of some scalar values |
| `Wire.LossyIsText` | src/storage/memory.rs:30-37 | lossy decoding makes text of anything and keeps exactly what is text |
| `Wire.LossyStray` | src/storage/memory.rs:30-37 | a byte that can start nothing becomes one U+FFFD and reading goes on behind it |
| `Wire.LossyCut` | src/storage/memory.rs:30-37 | a character cut short becomes one U+FFFD as a whole |
| `Stream.DrainConserves` | src/network/server.rs:673-809 | frames handed out followed by the unread rest are exactly the bytes at hand |
| `Stream.DrainedStandAlone` | src/network/protocol.rs:244-258 | every frame handed out decodes alone to its command |
| `Stream.DrainExtends` | src/network/server.rs:673-809 | draining a longer input is draining its beginning, then the rest with what arrived, unless it had ended |
| `Stream.DrainFrames` | src/storage/persistence.rs:650-688 | frames written one after the other are read back as those frames |
| `Stream.FeedAllIsDrain` | src/network/server.rs:673-809 | after any chunking the connection is as if all bytes had come at once, unless a read overflowed; which happens if and only if some read exceeds the cap after everything before it left the connection open |
| `Stream.ChunkInvariance` | src/network/server.rs:673-809 | two splittings of one stream that do not overflow dispatch the same commands, end the same way and buffer the same bytes |
| `Stream.EndingIsFinal` | src/network/server.rs:758-809 | after QUIT, a protocol error or overflow no later read has any effect |
| `Stream.FeedAllConserves` | src/network/protocol.rs:96-115 | over a whole connection, in every status: dispatched frames and buffer are the bytes accepted, each frame decodes alone, the buffer is within its cap |
| `Stream.WholeFramesIsLargest` | src/storage/persistence.rs:650-688 | the number of whole frames before a cut is the largest prefix that fits |
| `Stream.DrainCut` | src/storage/persistence.rs:650-688 | a log cut at any byte drains to its whole frames and waits for the torn one |
| `Stream.CrashTruncation` | src/storage/persistence.rs:622-696 | for any frames, any cut and any read chunking, replay runs exactly the whole frames before the cut and does not fail, if and only if every read finds room beside the bytes of the torn frame |
| `Stream.TornTail` | src/storage/persistence.rs:165-204 | after appending to a cut log, recovery runs the whole frames from before and all the later ones first if and only if the torn bytes followed by the later frames begin with the later frames |
| `Stream.TornTailClean` | src/storage/persistence.rs:165-204 | and it ends cleanly with nothing more if and only if the cut fell between frames |
| `Stream.StatusMeans` | src/network/server.rs:673-809 | an open connection holds an unfinished request, one with a protocol error a malformed one, and only a serving connection is ever closed by a request |
| `Snapshot.TornAndCompleted` | src/storage/persistence.rs:165-204 | a frame cut inside that is recovered all the same, completed by being logged again |
| `ReplayRoom.RoomyIff` | src/storage/persistence.rs:646-688 | a log without parse error is read to its end, whatever sizes up to 64 KiB the reads have, if and only if for every frame its length less one plus the lesser of 64 KiB and one more than what follows it is within the buffer cap, and so are the torn bytes at the end |
| `ReplayRoom.ShortFramesHaveRoom` | src/storage/persistence.rs:646-688 | frames a whole read shorter than the cap always have room |
| `ReplayRoom.DispatchedFit` | src/network/protocol.rs:96-115 | a frame is only dispatched if the buffer can hold it, and what is dispatched is a beginning of what the bytes hold |
| `ReplayRoom.LongFrameBlocks` | src/storage/persistence.rs:646-688 | a frame longer than the cap is never run, nor anything after it, whatever the reads |
| `Keyspace.LiveLater` | src/storage/memory.rs:1236-1239 | looking twice at different times is looking at the later one |
| `Keyspace.GoneAtDeadline` | src/storage/memory.rs:1268-1291 | a key that is present answers TTL and PTTL with -2 if and only if it is asked at its very deadline |
| `MemoryStore.Store.Set` | src/storage/memory.rs:357-373 | on live keys: the value is stored without a deadline; deadline index stays in agreement |
| `MemoryStore.Store.SetWithOptions` | src/storage/memory.rs:384-483 | NX, XX, KEEPTTL and deadlines on live keys, with expired keys counting as absent; reports whether it applied and the previous live entry |
| `MemoryStore.Store.Get` | src/storage/memory.rs:541-557 | the live entry or nothing, removing an expired one unseen |
| `MemoryStore.Store.DeleteKey` | src/storage/memory.rs:560-584 | removes the key from both maps and says whether it was live |
| `MemoryStore.Store.Exists` | src/storage/memory.rs:614-631 | liveness of the key, with unseen lazy removal |
| `MemoryStore.Store.ExpireAtWithOptions` | src/storage/memory.rs:753-797 | NX, XX, GT and LT against the live deadline, no deadline counting as infinity |
| `MemoryStore.Store.ExpireWithOptions` | src/storage/memory.rs:648-703 | the same with a deadline some seconds from now |
| `MemoryStore.Store.PersistKey` | src/storage/memory.rs:800-824 | drops the deadline of a live key and says whether it had one |
| `MemoryStore.Store.Remaining` | src/storage/memory.rs:706-746 | whole seconds or milliseconds left, -1 without deadline, -2 without the key and at the very deadline |
| `MemoryStore.Store.IncrBy` | src/storage/memory.rs:883-931 | checked 64-bit addition on integers and decimal strings, missing keys from zero, deadline kept, errors change nothing |
| `MemoryStore.Store.Hset` | src/storage/memory.rs:934-996 | one field of a live or new hash; wrong type changes nothing; a key's deadline is kept |
| `MemoryStore.Store.Hgetall` | src/storage/memory.rs:1089-1119 | all fields of the live hash, empty for no key, error for another type |
| `MemoryStore.Store.Hdel` | src/storage/memory.rs:1028-1086 | removes a field, and the key with its last field |
| `MemoryStore.Store.Clear` | src/storage/memory.rs:855-858 | empties both maps |
| `MemoryStore.Store.CleanupExpired` | src/storage/memory.rs:1151-1185 | removes exactly the keys whose deadline is at or before now, counts them, and changes no view at any strictly later time |
| `MemoryStore.SweepSeenIff` | src/storage/memory.rs:1160-1185 | a sweep is seen at its own instant if and only if some key has its deadline then |
| `MemoryStore.Store.Snapshot` | src/storage/memory.rs:841-852 | every live entry once and nothing else, in any order |
| `Dispatch.ParseSetOptions` | src/commands/string.rs:35-101 | the option loop accepts each group at most once and agrees with the recursive reading, errors included |
| `Dispatch.ExecuteSet` | src/commands/string.rs:140-193 | SET on the store object answers and changes live keys as on the plain map |
| `Dispatch.ExecuteDel` | src/commands/string.rs:256-278 | the DEL loop, stopping at the first argument that is not text |
| `Dispatch.ExecuteExists` | src/commands/string.rs:295-317 | the EXISTS loop counts live keys with repetition |
| `Dispatch.ExecuteMget` | src/commands/string.rs:343-372 | the MGET loop, other types reading as null |
| `Dispatch.ExecuteMset` | src/commands/string.rs:401-424 | the MSET loop, pair by pair |
| `Dispatch.ExecuteHset` | src/commands/hash.rs:19-56 | the HSET loop counts new fields and stops at the first error |
| `Dispatch.ExecuteHdel` | src/commands/hash.rs:118-144 | the HDEL loop counts removed fields |
| `Dispatch.ExecuteHmget` | src/commands/hash.rs:208-233 | the HMGET loop, missing fields null |
| `Dispatch.ExecuteExpire` | src/commands/ttl.rs:36-261 | EXPIRE, PEXPIRE, EXPIREAT and PEXPIREAT with their flags and unit conversions |
| `Dispatch.ExecuteIncr` | src/commands/atomic.rs:13-61 | INCR and DECR |
| `Dispatch.ExecuteRead` | src/commands/hash.rs:161-347 | the commands that look at one key, HGETALL, HKEYS, HVALS, HLEN, GET, TYPE, TTL and PTTL, answer as on the plain map and change no live key |
| `Dispatch.ExecuteFieldRead` | src/commands/hash.rs:76-97 | HGET and HEXISTS, likewise |
| `Dispatch.ExecuteQuiet` | src/commands/registry.rs:192-200 | every command that is not a mutation leaves the live keys as they are |
| `Dispatch.ExecuteMutation` | src/commands/registry.rs:192-200 | every mutation changes the live keys as on the plain map |
| `Dispatch.Execute` | src/commands/registry.rs:153-168 | any command by name: unknown names and wrong arities refused, otherwise reply and live keys as the plain-map semantics says |
| `ArgumentLoops.DelIs` | src/commands/string.rs:256-278 | DEL removes the readable keys together and counts the distinct live ones; it errs exactly at an unreadable argument |
| `ArgumentLoops.ExistsIs` | src/commands/string.rs:295-317 | EXISTS counts every mention of a live key |
| `ArgumentLoops.MgetIs` | src/commands/string.rs:343-372 | MGET answers key by key |
| `ArgumentLoops.HmgetIs` | src/commands/hash.rs:208-233 | HMGET answers field by field, or the first error |
| `ArgumentLoops.LastValueMeans` | src/commands/string.rs:401-424 | the last value of a name is that of a pair no later pair repeats |
| `ArgumentLoops.MsetIs` | src/commands/string.rs:401-424 | MSET leaves each key with its last readable value and no deadline, all others alone |
| `ArgumentLoops.HsetIs` | src/commands/hash.rs:19-56 | HSET leaves each field with its last readable value, keeps the key's deadline and counts the new fields |
| `ArgumentLoops.HsetWrongType` | src/commands/hash.rs:19-56 | HSET on a key of another type changes nothing |
| `ArgumentLoops.HdelIs` | src/commands/hash.rs:118-144 | HDEL removes the readable fields together, the key with its last field, and counts those that were there |
| `ArgumentLoops.HdelWrongType` | src/commands/hash.rs:118-144 | HDEL on a key of another type changes nothing |
| `Dispatch.RunTrace` | src/storage/memory.rs:357-1185 | lazy expiry is invisible: over any run with a clock that does not run back, sweeps included, every reply and every later view is that of a store from which expired keys vanish at once, provided no key has its deadline at the very instant of a sweep at which something else happens too |
| `Meaning.Bisimulation` | src/storage/memory.rs:48-67 | stores equal up to an integer and its decimal spelling answer every command but TYPE alike and stay so |
| `Meaning.StaysReachable` | src/storage/memory.rs:934-1086 | no command ever stores a list, an empty hash or a key that is not text |
| `Refusals.SetRefusedAfterWriting` | src/commands/string.rs:140-193 | SET answers an error after writing if and only if it has GET, its condition holds and the key holds a hash |
| `Refusals.PartlyDone` | src/commands/string.rs:401-424 | DEL, MSET, HSET and HDEL that meet an argument that is not text answer an error and leave what the command cut off there would leave |
| `Refusals.RefusedAfterWriting` | src/commands/hash.rs:35-53 | a command answers an error and has changed the store if and only if it is SET with GET over a hash, or it meets an unreadable argument after: for DEL a live key, for HDEL a field the hash has, for MSET a key not yet holding its last readable value, for HSET a field not yet having its last readable value |
| `Refusals.RefusedIff` | src/network/server.rs:746-753 | the same, also for changes that clients can see |
| `Refusals.DelThenError` | src/commands/string.rs:256-278 | such an input for DEL |
| `Refusals.MsetThenError` | src/commands/string.rs:401-424 | such an input for MSET |
| `Refusals.HsetThenError` | src/commands/hash.rs:19-56 | such an input for HSET |
| `Refusals.HdelThenError` | src/commands/hash.rs:118-144 | such an input for HDEL |
| `Meaning.ClockDoesNotMatter` | src/commands/string.rs:108-136 | commands that set no deadline do the same at any time on a store without deadlines |
| `Meaning.ReplayRunsMutations` | src/lib.rs:226-247 | the recovery registry runs every logged command as the server did, and nothing else changes the store |
| `ExpiryFolds.GreatestWins` | src/storage/memory.rs:753-797 | any sequence of GT calls on a key that is live at each of them leaves the latest deadline, past ones included; a key without one keeps none |
| `ExpiryFolds.LeastWins` | src/storage/memory.rs:753-797 | any sequence of LT calls that the key and the deadlines asked for outlast leaves the earliest deadline, none counting as infinity |
| `ExpiryFolds.KeyStays` | src/storage/memory.rs:753-797 | whatever the flag, value and key survive and the deadline is an old or an asked-for one |
| `ExpiryFolds.OrderDoesNotMatter` | src/storage/memory.rs:648-703 | two sequences asking for the same deadlines leave the same entry |
| `Words.UpperMeans` | src/network/protocol.rs:230-240 | upper case keeps the length, turns exactly the small letters into capitals and leaves no small letter |
| `Words.SameCapitals` | src/commands/string.rs:41-44 | two words have the same capitals if and only if they differ in letter case only |
| `Words.WideLetters` | src/network/protocol.rs:230-240 | the letters outside ASCII that become ASCII capitals: sharp s, dotless i, long s and the ligatures |
| `Words.WideLetterFolds` | src/network/protocol.rs:230-240 | each becomes its capitals wherever it stands in a name |
| `Words.LookupIs` | src/commands/registry.rs:153-168 | a name finds a command if and only if it is the command's name, for all 33 |
| `Words.SpellingReaches` | src/network/protocol.rs:230-240 | any spelling of a command's name in small and capital letters reaches that command with the arguments as sent |
| `Words.NameMustBeText` | src/network/protocol.rs:230-240 | a frame whose name is not UTF-8 is refused, whatever follows |
| `Words.CaseDoesNotMatter` | src/network/protocol.rs:190-260 | two frames whose names differ in letter case only are the same request, in every outcome |
| `Words.RequestReaches` | src/network/protocol.rs:190-260 | a frame within the limits with any spelling of a name is that command, on those arguments |
| `Words.QuitIsTerminal` | src/commands/server.rs:614-638 | the command that closes a connection is QUIT and no other |
| `Words.DrainQuits` | src/network/server.rs:758-774 | draining a connection ends for good if and only if the last request is QUIT, and no earlier one is |
| `Words.ClosedByQuit` | src/network/server.rs:758-774 | over any reads, a connection is closed if and only if the last request dispatched is QUIT, and no earlier one is |
| `SetOptionLaws.TokenMeans` | src/commands/string.rs:41-98 | which words open which option of SET, in any letter case |
| `SetOptionLaws.OptionsMean` | src/commands/string.rs:35-101 | options are accepted if and only if each is one and no two are of a sort; then NX, XX, GET, KEEPTTL and the deadline are set if and only if their word is there |
| `SetOptionLaws.AnyOrder` | src/commands/string.rs:35-101 | the order of the options changes neither acceptance nor meaning |
| `CommandLaws.SetLaw` | src/commands/string.rs:140-193 | what SET stores and answers under any accepted options: existence condition, deadline, GET |
| `CommandLaws.SetRefused` | src/commands/string.rs:140-193 | with options that are not acceptable SET answers an error and leaves the keys |
| `CommandLaws.SetPlain` | src/commands/string.rs:140-193 | SET k v stores v without a deadline and answers OK |
| `CommandLaws.SetIfMissing` | src/commands/string.rs:45-56 | NX stores only over a missing key and XX only over a present one, answering null otherwise |
| `CommandLaws.SetKeepOrGet` | src/commands/string.rs:57-97 | KEEPTTL keeps the deadline; GET answers what was there |
| `CommandLaws.SetForAWhile` | src/commands/string.rs:108-136 | EX and PX set the deadline that many seconds or milliseconds from now; zero is refused |
| `CommandLaws.SetUntil` | src/commands/string.rs:108-136 | EXAT and PXAT set the deadline at that wall-clock time, saturating; a time not ahead leaves no live key |
| `CommandLaws.SetNeedsNumber` | src/commands/string.rs:64-76 | a deadline option whose argument is no unsigned 64-bit number is refused as such |
| `CommandLaws.SetUnknownOption` | src/commands/string.rs:45-97 | any other word is a syntax error |
| `CommandLaws.GetAnswers` | src/commands/string.rs:211-235 | GET answers the stored bytes, a number in decimal, null for no key and a placeholder for a hash, and changes nothing |
| `CommandLaws.GetAfterSet` | src/commands/string.rs:140-235 | what SET stored GET answers byte for byte, at any later time |
| `CommandLaws.TimeLeftIs` | src/storage/memory.rs:1268-1291 | -2, -1 or the whole units left, as the greatest number of them that fits before the deadline |
| `CommandLaws.TtlAnswers` | src/commands/ttl.rs:278-330 | TTL answers so in seconds and PTTL in milliseconds, and changes nothing |
| `CommandLaws.TypeAnswers` | src/commands/server.rs:129-145 | TYPE answers the kind of the value |
| `CommandLaws.CounterLaw` | src/storage/memory.rs:883-931 | INCR adds one and DECR subtracts one from an integer or numeric text, keeping the deadline and all other keys; at the ends of 64 bits they err and change nothing |
| `CommandLaws.CounterStarts` | src/storage/memory.rs:883-931 | from a missing key they give 1 and -1 without a deadline |
| `CommandLaws.CounterRefused` | src/storage/memory.rs:883-931 | on a key that holds no number they err and change nothing |
| `CommandLaws.FlagMeans` | src/commands/ttl.rs:17-32 | which words are conditions of EXPIRE, in any letter case, and when NX, XX, GT and LT permit a deadline |
| `CommandLaws.ExpireLaw` | src/commands/ttl.rs:36-76 | EXPIRE, PEXPIRE, EXPIREAT and PEXPIREAT set the deadline asked for on a present key and answer whether there was one |
| `CommandLaws.ExpireIf` | src/commands/ttl.rs:36-76 | with a condition all four do so if and only if it permits; another word is refused |
| `CommandLaws.ExpireGreater` | src/commands/ttl.rs:36-76 | EXPIRE k n GT replaces a deadline if and only if the new one is later, and gives none to a key without |
| `CommandLaws.ExpireNeedsNumber` | src/commands/ttl.rs:36-76 | a number that is none is refused and changes nothing |
| `CommandLaws.PersistMeans` | src/storage/memory.rs:800-824 | dropping a deadline leaves the value and every other key, and time left is -1 |
| `CommandLaws.HashAnswers` | src/commands/hash.rs:161-347 | HGETALL, HKEYS, HVALS and HLEN answer the fields of the hash, a missing key being an empty one |
| `CommandLaws.FieldAnswers` | src/commands/hash.rs:76-97 | HGET answers the field or null and HEXISTS 1 or 0 |
| `CommandLaws.NotAHash` | src/commands/hash.rs:161-388 | reading a key that holds no hash is an error of kind and changes nothing |
| `CommandLaws.NoHashToChange` | src/commands/hash.rs:19-144 | so is HSET or HDEL on one |
| `CommandLaws.HgetAfterHset` | src/commands/hash.rs:19-97 | what HSET stored HGET answers; the reply counts new fields, the deadline and other keys stay |
| `CommandLaws.SlotIs` | src/commands/string.rs:343-372 | a slot of MGET: the stored bytes, a number in decimal, null for anything else |
| `CommandLaws.FlushLaw` | src/commands/server.rs:168-184 | FLUSHDB, alone or with SYNC or ASYNC, leaves no key; with another word it errs and leaves all |
| `CommandLaws.PlainAnswers` | src/commands/server.rs:33-73 | PING answers PONG or its argument, ECHO its argument, QUIT OK |
| `CommandLaws.CommandAnswers` | src/commands/server.rs:466-493 | COMMAND accepts exactly COUNT, LIST, DOCS and INFO |
| `CommandLaws.KeyMustBeText` | src/commands/mod.rs:41-44 | a key that is not text is refused and nothing is done |
| `CommandLaws.ArityIs` | src/commands/registry.rs:99-131 | the fewest and the most arguments of each of the 33 commands |
| `CommandLaws.WrongNumber` | src/commands/registry.rs:153-168 | an unknown name or a wrong number of arguments is refused before anything is done |
| `CommandRuns.CountersAddUp` | src/storage/memory.rs:883-931 | any run of INCR and DECR on a live key is answered throughout if and only if no count on the way leaves 64 bits; each answer is then the first number plus increments less decrements so far, and the key is left with the last and its deadline |
| `CommandRuns.GreatestAskWins` | src/commands/ttl.rs:17-76 | any run of GT commands of the four kinds on a key live throughout leaves the latest of its deadline and all asked for, and none if it had none |
| `CommandRuns.LeastAskWins` | src/commands/ttl.rs:17-76 | and of LT commands, where what is asked for outlasts the run, the earliest |
| `AofWriter.LoggedSplit` | src/storage/persistence.rs:569-613 | handling messages in batches is handling them at once |
| `AofWriter.Writer.constructor` | src/storage/persistence.rs:165-204 | an opened writer continues the existing file with an empty buffer |
| `AofWriter.Writer.FlushToDisk` | src/storage/persistence.rs:240-274 | moves the buffer to the file, syncs if asked, keeps the log |
| `AofWriter.Writer.Append` | src/storage/persistence.rs:207-227 | the frame goes to the end of the log; synced exactly when the policy says; under the lax policy the buffer stays below 1 MiB |
| `AofWriter.Writer.PeriodicFlush` | src/storage/persistence.rs:230-237 | syncs exactly under the one-second policy after a second, else changes nothing |
| `AofWriter.Writer.SwapFile` | src/storage/persistence.rs:298-350 | file and buffer become the rewritten content |
| `AofWriter.HandleMessage` | src/storage/persistence.rs:573-611 | each message's effect on the log, and that it leaves everything synced or the synced part alone |
| `AofWriter.HandleNext` | src/storage/persistence.rs:569-613 | one turn of the loop keeps track of the log and of how recent its synced part is |
| `AofWriter.RunWriterTask` | src/storage/persistence.rs:569-613 | over every message sequence up to shutdown: the log is the last swapped-in file and later records in order; a crash after any message leaves the log as of an earlier message, all of it after a flush, a swap or a strict record, and under the one-second policy nothing older than a second missing after a record or tick |
| `Snapshot.FrameDecodes` | src/storage/persistence.rs:38-116 | a rewritten frame is read back as its command if and only if its parts fit the reader's limits; otherwise the stream is refused there |
| `Snapshot.HashFits` | src/storage/persistence.rs:52-69 | a rewritten hash can be read back and held if and only if key, fields and values fit, 2 + 2 * its number of fields is within the array limit, and all together on the wire are within the buffer cap |
| `Snapshot.HashCommand` | src/storage/persistence.rs:52-69 | the field loop builds one HSET with every field once |
| `Snapshot.EncodeSnapshotEntry` | src/storage/persistence.rs:38-116 | pushes the value's command and, while the deadline is ahead, PEXPIREAT |
| `Snapshot.SnapshotToFrames` | src/storage/persistence.rs:120-126 | all entries' frames in snapshot order |
| `Recovery.EntryBack` | src/storage/persistence.rs:38-116 | replaying one entry's commands beside whatever is there gives its value and the deadline computed then, expiry included |
| `Recovery.RewriteReplays` | src/storage/persistence.rs:38-126 | what replaying any rewritten snapshot from empty gives, to the letter, for any key and field order and any times that do not run back |
| `Recovery.RewritePreservesMeaning` | src/storage/persistence.rs:38-126 | that is the same keys, the same contents up to integer spelling and deadlines within -2 ms and +1 ms, if and only if every deadline was ahead at encoding, fits 64-bit milliseconds, and its new value is not reached before the replay ends |
| `Recovery.DeadlineSurvives` | src/storage/persistence.rs:82-113 | after replay an entry is there exactly while its new deadline has not passed, and has a deadline if and only if the old one was ahead at encoding |
| `Recovery.PassedDeadlineBecomesNone` | src/storage/persistence.rs:82-113 | an entry whose deadline passed between snapshot and encoding comes back without any deadline |
| `Recovery.CycleIsRewriteAndReplay` | src/commands/ttl.rs:147-157 | the drift arithmetic is what encoding and replay compute, in absolute time |
| `Recovery.CycleDrift` | src/commands/ttl.rs:147-157 | one cycle keeps a key alive if and only if its millisecond target is ahead; the drift is within -2 ms and +1 ms if and only if that holds and the target fits 64 bits, or the deadline is within two milliseconds before and one after the replay |
| `Recovery.CycleDriftTooClose` | src/commands/ttl.rs:147-157 | a deadline ahead at replay by less than two milliseconds can break the bound: a concrete one |
| `Recovery.DriftOverCycles` | src/commands/ttl.rs:147-157 | n cycles that each leave the key alive move a deadline by more than -2n ms and less than +n ms |
| `Server.ServeOne` | src/network/server.rs:718-753 | executes a request and queues its raw frame if and only if it succeeded and mutates |
| `Server.ProcessBuffer` | src/network/server.rs:662-810 | one read: the requests served, the bytes kept and the status are those of the stream semantics, the answers those of the ideal store, the frames queued exactly the successful mutations in order |
| `Server.StopsHere` | src/storage/persistence.rs:650-688 | a chunk that overflows or cannot be parsed ends replay for good |
| `Server.ReplayAofFile` | src/storage/persistence.rs:622-696 | the replay loop runs exactly the dispatched commands, counts them and leaves the store as those commands do |
| `Session.ReplayIsAfter` | src/storage/persistence.rs:622-696 | recovering a log that sets no deadline gives the same store whenever it runs |
| `Session.LoggedIff` | src/network/server.rs:504-507 | serving a logged mutation keeps the log recoverable, in every reading, if and only if recovery can read the frame with its default limits and the log with it leaves room in its buffer |
| `Session.ServeExactIff` | src/network/server.rs:718-753 | serving any request that sets no deadline keeps the log recoverable to the client's store if and only if it is safe: readable and with room if logged, and not one of the refused commands that changed something |
| `Session.RewriteRecovers` | src/storage/persistence.rs:461-543 | the compacted file alone recovers to the snapshotted store, in every reading, if and only if every frame of it fits the recovery limits and leaves room in the buffer |
| `Session.RestoresIff` | src/storage/persistence.rs:622-696 | every reading of a log restores some keys if and only if its frames, taken at once, do and the log leaves room |
| `Session.CompactFileReplays` | src/storage/persistence.rs:461-543 | with deadlines or without, every reading of a compacted file that fits runs exactly its commands, so the store is what the snapshot describes at those times |
| `Session.RewriteExactIff` | src/commands/server.rs:552-590 | a rewrite makes the log recover to the client's store, whatever it was before, if and only if its frames fit and leave room |
| `Session.HandleKeepsExact` | src/storage/persistence.rs:569-613 | so does every message the writer handles |
| `Session.AlwaysExact` | src/network/server.rs:680-783 | at every point of every single-client run of safe steps, across rewrites and with the writer anywhere behind, every reading of file, buffer and queue recovers the client's store |
| `Session.AlwaysExactIff` | src/network/server.rs:680-783 | a run is exact throughout if and only if all its steps are safe |
| `Session.ExactRecovery` | src/storage/persistence.rs:622-696 | running what any reading of such a log brings, at any times, gives the store back |
| `Session.RefusedStaysExactIff` | src/network/server.rs:746-753 | after a refused command recovery stays exact if and only if it is neither SET with GET over a hash nor a loop that changed something visible before an unreadable argument |
| `Session.SetGetOverHashIsLost` | src/commands/string.rs:163-181 | SET with GET over a hash always leaves a log that recovers to something else |
| `Session.HashLost` | src/commands/string.rs:163-181 | a two-command run from the start that loses a write this way |
| `BigHash.BigHashLost` | src/storage/persistence.rs:52-69 | two fields of 40 MiB set one by one are recoverable, and after a rewrite no reading of the log brings anything back |
| `RelativeDeadlines.Reanchored` | src/commands/ttl.rs:36-132 | SET with EX or PX, EXPIRE and PEXPIRE, executed in one process and replayed in another on the same keys, leave the same store if and only if they set no deadline either time or run at the same absolute time |
| `EndToEnd.ServingStaysExact` | src/network/server.rs:673-809 | serving any run of requests recovery can follow stays exact, whatever the connection's limits |
| `EndToEnd.ServeRead` | src/network/server.rs:662-810 | from raw bytes on the object code: codec, store and channel after a read are exact again |
| `EndToEnd.Bgrewriteaof` | src/commands/server.rs:552-590 | on the store and channel objects: the snapshot of the live keys, encoded and queued as one file; where no key has a deadline recovery is then exact if and only if it can read and hold that file |
| `EndToEnd.Restart` | src/lib.rs:214-263 | any reading of a log that restores some keys, replayed into a fresh store object, brings them back |
| `EndToEnd.RestartExact` | src/lib.rs:214-263 | in particular the client's store |
| `Crash.PendingIsSent` | src/storage/persistence.rs:569-613 | the log is what the run has sent to the writer |
| `Crash.CrashRecovers` | src/storage/persistence.rs:622-696 | after a crash at any message of any safe run, with any bytes beyond the synced ones left, every reading restores the store of a point of the run not before the synced messages |
| `EndToEnd.RestartAfterCrash` | src/lib.rs:214-263 | the same on the replay loop and a fresh store object |
| `RewriteBarrier.NeverLost` | src/network/server.rs:718-753 | in every state of every interleaving of clients, rewriter and writer, each executed mutation is in the snapshot, in file or buffer, in the channel or in its client's hand |
| `RewriteBarrier.QuietMeansComplete` | src/commands/server.rs:552-590 | with no frame in hand or queued, snapshot and file hold every mutation |
| `RewriteBarrier.OnceStep` | src/commands/server.rs:569-583 | every step keeps each mutation written once, but for queuing the swap, which does if and only if no client is between executing and logging |
| `RewriteBarrier.AlwaysOnce` | src/commands/server.rs:569-583 | a run whose swaps meet no frame in hand writes every mutation exactly once |
| `RewriteBarrier.AlwaysOnceIff` | src/commands/server.rs:569-583 | a run writes every mutation at most once throughout if and only if its swaps meet no frame in hand |
| `RewriteBarrier.InSnapshotAndLogged` | src/network/server.rs:718-753 | a run in which a mutation ends both in the snapshot and in the log after it |
| `RewriteBarrier.InOrderStep` | src/network/server.rs:718-753 | every step but logging keeps the log in execution order, and logging does if and only if no client carries an earlier mutation |
| `RewriteBarrier.InOrderIff` | src/network/server.rs:718-753 | a run keeps its log in execution order throughout if and only if every frame is logged before those of later mutations |
| `RewriteBarrier.LoggedOutOfOrder` | src/network/server.rs:718-753 | a run in which two clients' frames are logged in the opposite order of execution |
| `Glob.StarReachesBack` | src/commands/server.rs:338-398 | a star that matches from later on matches from here |
| `Glob.OlderStarForgotten` | src/commands/server.rs:338-398 | whatever an older star could still match, the newest one can: remembering one star is enough |
| `Glob.MatchClass` | src/commands/server.rs:404-432 | the class scan reports width and membership, ranges and negation included, or that the class is not closed |
| `Glob.TryOne` | src/commands/server.rs:343-382 | one pattern token against one byte: escape, class, any, literal |
| `Glob.GlobMatch` | src/commands/server.rs:338-398 | true if and only if the token semantics matches, within (length of text+1)(length of pattern+1) iterations |
| `GlobLaws.PlainThen` | src/commands/server.rs:338-398 | ordinary characters and then a pattern match a text that begins with them and whose rest matches the pattern |
| `GlobLaws.PlainMatchesItself` | src/commands/server.rs:338-398 | a pattern without special characters matches itself only |
| `GlobLaws.StarMatchesAll` | src/commands/server.rs:338-398 | a star matches every text, and after a prefix every text that begins with it |
| `GlobLaws.QuestionMatchesOne` | src/commands/server.rs:338-398 | a question mark matches any one byte |
| `GlobLaws.EscapeMatches` | src/commands/server.rs:338-398 | a backslash makes the next byte ordinary; at the end it matches nothing |
| `GlobLaws.ClassMatches` | src/commands/server.rs:404-432 | a class of listed bytes matches one of them, after a caret one that is none of them |
| `GlobLaws.RangeMatches` | src/commands/server.rs:404-432 | a range matches one byte between its ends, after a caret one outside |
| `GlobLaws.UnclosedMatchesNothing` | src/commands/server.rs:404-432 | a class that is not closed matches nothing |
| `ConnectionPool.InvStep` | src/network/connection.rs:112-167 | every single map or semaphore operation, in any interleaving, keeps the slot invariant |
| `ConnectionPool.ListedWithinMax` | src/network/connection.rs:125-143 | listed connections and free slots together never exceed the maximum |
| `ConnectionPool.SlotsAddUp` | src/network/connection.rs:112-239 | over every run free and held permits add up to the maximum and releases count distinct connections |
| `ConnectionPool.ReleasedOnce` | src/network/connection.rs:147-167 | a slot is freed only for a connection never freed before, though clean-up and eviction may race |
| `ConnectionPool.ReleasedInTheEnd` | src/network/server.rs:420-443 | and it is freed: once a removal reached the permit map after the permit was stored and the connection's removals have returned |
| `ConnectionPool.HeldUnlistedIff` | src/network/connection.rs:125-167 | a slot is held for a connection that is not listed if and only if a removal came between listing it and storing its permit |
| `ConnectionPool.SlotWithoutConnection` | src/network/connection.rs:125-167 | such a run, with one slot and nothing in flight |
| `ConnectionPool.QuietPool` | src/network/connection.rs:112-167 | with nothing in flight every slot is free or behind a permit in the map |
| `Histogram.AllCounted` | src/metrics/mod.rs:58-72 | bucket counts sum to the number of samples |
| `Histogram.Histogram.constructor` | src/metrics/mod.rs:30-51 | starts empty |
| `Histogram.Histogram.Record` | src/metrics/mod.rs:58-72 | counts the sample into the first bucket reaching it, the last one for outliers |
| `Histogram.Histogram.Percentile` | src/metrics/mod.rs:83-111 | nothing exactly without samples; else the interpolation in the first bucket whose cumulative count reaches the target, which lies within the bounds of the bucket of the sample of rank ceil(p n / 100) |
| `Histogram.OneTargetBucket` | src/metrics/mod.rs:92-107 | that bucket is unique |
| `Histogram.PercentileGrowsWithP` | src/metrics/mod.rs:83-111 | a higher percentile never reports a lower latency |
| `Histogram.ReportsGrow` | src/metrics/mod.rs:83-111 | the same of the results of two calls, which are also determined |
| `Histogram.QuantileBound` | src/metrics/mod.rs:83-111 | the bucket reported from is the bucket of the sample of rank ceil(p n / 100) |
| `Histogram.RankExists` | src/metrics/mod.rs:83-111 | every rank up to the number of samples is some sample's |
| `Histogram.OneRank` | src/metrics/mod.rs:83-111 | and of one value only |
| `Histogram.BoundsAre` | src/metrics/mod.rs:30-51 | the bucket bounds run from 10 microseconds to 5 seconds, five and two times the one before in turn |
| `Histogram.BoundBelongs` | src/metrics/mod.rs:58-72 | a sample at a bound belongs to that bucket, one above to the next, and all beyond the last bound to the last |
| `Histogram.TargetIs` | src/metrics/mod.rs:83-111 | the target count is in proportion to the percentile, which is brought into 0 to 100 |
| `Histogram.Proportional` | src/metrics/mod.rs:83-111 | interpolation inside the target bucket is in proportion to the samples of it below the target; an empty bucket gives its lower bound |

## Left out

- Session.AlwaysExact: is about one client and commands that set no deadline, because the log does not replay exactly otherwise; `RewriteBarrier.OnceStep`, `RewriteBarrier.InOrderIff` and `RelativeDeadlines.Reanchored` say when it does.
- EndToEnd.ServeRead: does not inline BGREWRITEAOF into the serving loop, where it only answers; the rewrite is `EndToEnd.Bgrewriteaof` and a step of `Session` and of `RewriteBarrier`.
- Codec.RespCodec.TryParse: upper-cases names only as far as the outcome can be an ASCII word, which is what decides the command; other capitals would only show in an error text.
- Histogram.Histogram.Percentile: computes over the reals, not in 64-bit floating point.
- AofWriter.Writer.constructor: takes what is in the file when it is opened as synced.
- ExpiryFolds.LeastWins: is about calls that the deadlines asked for outlast, because a key whose deadline was brought forward may be gone at the next call.
- CommandRuns.LeastAskWins: likewise, for commands.
- Dispatch.RunTrace: asks that no key has its deadline at the instant of a sweep at which something else happens; `MemoryStore.SweepSeenIff` says such a sweep is seen.
- Dispatch.ExecuteQuiet: does not give the text of KEYS, DBSIZE, INFO and COMMAND replies; KEYS and DBSIZE also see expired entries not yet removed.
- Error texts: only the kind of an error is modelled.
- Nesting depth: the parser's stack is taken as unbounded.
- Deadlines so far ahead that adding them to the clock overflows, where the source stops with a panic.
- Concurrency inside the store: each store operation is one atomic step, as its entry lock makes it; shard locking is not modelled.
- Channel capacity: the writer's channel never blocks a sender.
- Failing file operations: reads, writes, syncs and renames succeed, and a rename is atomic.
- Sockets, timeouts, keepalive, shutdown and scheduling, and panicking handlers.
- `close_all_connections`, which empties the pool at once.
- Value metadata, memory accounting and the metrics beside the histogram; the histogram's average and reset.
- Configuration, command line, logging and monitoring over HTTP, which neither the store nor the log depends on.
