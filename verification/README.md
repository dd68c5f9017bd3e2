# Verification model of a module SDK

This project models the stateful parts of a Rust SDK for modules that talk to an
orchestrator and to each other, and proves what they promise over whole runs:
the framed TCP transport with its reconnection, the message formats, the
in-memory cache with the patterns and locks built on it, the schema migration
diff, the correlation of requests with responses, and the query-string builder
and parser.

Code that computes values is written as functions and lemmas. Objects that
change their fields (`TcpChannel`, `InMemoryCache`, `DistributedLock`, the
pending-response map and its two clients, the request builder, byte sinks and
sources) are classes whose methods are proved against specification functions;
the run-level theorems are about those functions. `dafny verify dfyconfig.toml`
checks everything.

## How the parts fit together

* `Prelude`, `Base64`, `Framing`, `EncodedStream`, `Formats`, `Bincode`: bytes,
  base64 (section 4 of RFC 4648), the frame of length, format code and payload,
  reader and writer tasks, `to_format`, and the binary codec of messages and
  metadata. JSON and the primitive binary codecs are parameters with a stated
  law.
* `Transport`: a transition system of any number of tasks over one channel. Its
  steps are the lock regions of the channel; a write may stop at any byte.
  `Channel` is the channel as a class, used by one task at a time: connection
  loops, one send, one receive, and their reconnecting forms; `ChannelRuns` is
  its whole life. `Backoff` is the arithmetic of the waits.
* `TimedMap` and `InMemoryCache`: the physical map, and the timed map of entries
  that have not expired, which is all that callers can tell. Each operation is
  one atomic step, and eviction picks its victims arbitrarily. `CacheRuns` makes
  a run of operations a run of the timed map (`Perform`, `PerformAll`) and says
  which evictions are admissible; `LockRuns` and `CounterRuns` prove what locks
  and counters promise over runs. `CachePatterns` has the two patterns as whole
  calls, `PatternRuns` their steps in any order. `DistributedLock` is the
  retrying lock, `Decimal` the text in which counters are stored, and `Runs` what
  holds of runs of any system. `CacheLaws` says in terms of replies only what
  every operation means to callers.
* `Named`, `Migration` and `MigrationRuns`: collections of named objects under
  "all adds, then all drops", the generated script with an interpreter over a
  table, and what becomes of it as emitted, on errors, and on SQLite.
* `Correlation`, `InternalMessaging`, `Ipc`: the pending-response map as a
  transition system and a class, and its two users.
* `Uri`: building a URI, parsing its query, resolving a URL.

## What the proofs found

Some promises hold only under a condition. Each is stated as an if-and-only-if,
or with a lemma that shows the failure.

* A payload of 2^32 bytes or more wraps its length field and is read back as
  something else (`Framing.ReadsBackIff`, `EncodedStream.StreamRoundTripIff`).
* Leaving JSON and coming back restores the bytes exactly when the text is one
  that the JSON printer writes (`Formats.RoundTripIffCanonical`).
  `EncodedMessage::from_message` serialises a struct in field order, and a
  generic JSON value may order its keys differently.
* Metadata is lost in the binary formats (`Bincode.MetadataRestoredIff`): a
  message writes bare metadata and reads an optional one. Without an id the
  metadata comes back empty; with an id of two characters or more `decode_full`
  fails. Only the content comes back.
* Under a cache limit below 10 items single writes never evict, so the limit is
  not kept (`InMemoryCache.InsertionKeepsLimitIff`); `set_many` does evict.
* Only whole seconds of a time to live and of the clock count: a lock protects up
  to two seconds less than asked for, and one shorter than a second not at all
  (`LockRuns.SecondLockRefusedIff`).
* Eviction can free a held lock. It cannot exactly as long as no operation finds
  the map at its limit (`LockRuns.RefusedThroughoutIff`).
* `write_through` of a value that does not serialise reaches the source and
  leaves the old value cached (`CachePatterns.ThroughCoherentIff`). When calls
  overlap, a store that comes between a call's visit to the source and its put
  into the cache leaves an older value cached (`PatternRuns.ReadIsFreshIff`): a
  write overtakes a read (`PatternRuns.FetchOvertaken`), or two writes cross
  (`PatternRuns.WritesCross`).
* `with_lock` clears the token on success and on failure of its body, but a
  caller that fails to acquire keeps a token it already had
  (`DistributedLock.DistributedLock.WithLock`).
* For a constraint the three adapters return a bare clause, `CONSTRAINT "t_x"
  UNIQUE (...)`, without an ALTER TABLE. The generator makes it a statement of its
  own, and no database runs it: every script that adds a constraint fails
  (`MigrationRuns.EmittedReachesIff`). The other results about constraints are
  about the intended statement.
* An index that changes but keeps its name makes the script illegal. The client
  goes on after "already exists", and then the drop removes the index
  (`MigrationRuns.ChangedIndexIsLost`).
* An unnamed constraint is dropped under a name it does not have
  (`MigrationRuns.UnnamedDropIsIllegal`), which may be that of another constraint
  (`MigrationRuns.UnnamedDropHitsAnother`).
* On SQLite no script that drops a column or a constraint is generated
  (`MigrationRuns.SqliteAcceptsIff`). A shared column whose definition changed is
  not migrated (`Migration.ReachedDefinitionsIff`).
* Parameters added to a URI with two or more '?' never arrive
  (`Uri.SecondQuestionMarkHides`), and ones with '?', '&' or '=' in them never
  arrive as they were (`Uri.ParametersArriveIff`).
* Two operations in flight on one connection share an identifier: the earlier
  loses its answer (`Ipc.EarlierIsDisplacedIff`). A failed send leaves its entry
  in the map.

## Model

| member | source | states |
|---|---|---|
| Base64.DecodeEncode | src/message.rs:405-407 | base64 decoding undoes encoding for every byte string |
| Base64.DecodesExactlyEncodings | src/message.rs:455-457 | a text decodes to given bytes if and only if it is their encoding, so no two texts carry the same bytes and all others are refused |
| Base64.SymbolsAreTable | src/message.rs:405-407 | the symbols are the 64 characters of Table 1 of RFC 4648, in order |
| Base64.EncodeIsStandard | src/message.rs:405-407 | character v of the text is the table's character for the v-th six bits of the input, zero bits following it, and the text is filled up to a multiple of four characters with '=' and nothing else |
| Base64.StandardIff | src/message.rs:455-457 | a text is encoded from bytes, and decodes to them, if and only if it is the text that the standard gives for them |
| Framing.U32RoundTrip | src/message.rs:630-631 | the four length bytes read back as the length modulo 2^32 |
| Framing.FrameLayout | src/message.rs:624-648 | a frame is the payload length modulo 2^32 with its highest byte first, then 1, 2 or 3 for Json, Binary or Base64, then the payload |
| Framing.TruncatedIsEof | src/message.rs:651-678 | a stream that ends within a frame is an end-of-file error |
| Framing.WriteTo | src/message.rs:624-648 | appends exactly the frame of the message, or refuses the Auto format and writes nothing |
| Framing.ReadFrom | src/message.rs:651-678 | returns what the frame parser says of the remaining bytes and consumes exactly what it says, errors included |
| Framing.ReadsBackIff | src/message.rs:681-735 | a written message is read back, consuming its own bytes only, if and only if its payload is shorter than 2^32 bytes |
| Framing.ReceivesBack | src/tcp_channel.rs:268-325 | the channel's own way of reading takes exactly one written frame and returns its message |
| Framing.BadFrameIsSkipped | src/tcp_channel.rs:268-325 | a frame with an unknown or Auto format code is one error and is consumed whole, so all later frames parse as if it were not there; the stream reader stops after five bytes |
| Framing.PartialFrameYieldsNothing | src/tcp_channel.rs:268-325 | no proper prefix of a frame is ever taken for a message |
| Framing.ArrivedPrefix | src/tcp_channel.rs:259-326 | for whole frames followed by a cut one and any prefix of them that has arrived, the receiver yields exactly the messages whose frames arrived in full, in order |
| EncodedStream.ToWriter | src/message.rs:903-929 | writes exactly the frames of the messages queued before the first error or Auto-format message |
| EncodedStream.FromReader | src/message.rs:874-900 | delivers everything the byte stream parses to, ending with its first error |
| EncodedStream.WritableIsLongest | src/message.rs:903-929 | what is written is the longest part of the queue without an error or an Auto-format message |
| EncodedStream.EndsWithItsOnlyError | src/message.rs:874-900 | a reader forwards messages and, last, the one error that ended it |
| EncodedStream.ReadsWrittenIff | src/message.rs:874-929 | reading the frames of a message list gives the list and one end error, if and only if all payloads are shorter than 2^32 bytes |
| EncodedStream.OversizeReadsOther | src/message.rs:687-688 | a payload of 2^32 bytes or more is never read back as itself |
| EncodedStream.StreamRoundTripIff | src/message.rs:874-929 | what the writer task wrote, the reader task delivers in order and then exactly one error, if and only if every payload is shorter than 2^32 bytes |
| Formats.ChainKeepsValue | src/message.rs:528-621 | any chain of conversions among Json, Binary and Base64 succeeds from a JSON payload, keeps its JSON value, and leaves the starting text or the printed value |
| Formats.CanonicalChain | src/message.rs:528-621 | from canonical JSON the bytes after any chain depend on the last format only, and a chain back to Json is the identity |
| Formats.RoundTripIffCanonical | src/message.rs:528-621 | Json to another format and back is the identity if and only if the text is one that the JSON printer writes |
| Formats.BinaryChainIdentity | src/message.rs:581-621 | arbitrary bytes survive every chain between Binary and Base64 |
| Formats.Base64ToBinaryIff | src/message.rs:607-621 | a Base64 message converts to Binary if and only if its text is an encoding, and converting back restores it |
| Formats.Conversion | src/message.rs:538-621 | every conversion between two real formats gives the standard base64 text of the bytes carried, those bytes, or the JSON in them printed again, or says which error instead |
| Formats.NoConversion | src/message.rs:528-542 | the same format is left as it is, Auto is refused in both places, and text that is no base64 is a decoding error |
| Bincode.OptionRoundTrip | src/message.rs:968-1015 | an optional field is read back, leaving what follows untouched |
| Bincode.MessageLayout | src/message.rs:939-988 | a message is its content, then id, time stamp, source, destination and property text of its metadata, each of the first four after a byte 1 or as a byte 0; the Base64 form is the base64 text of that |
| Bincode.MetadataRoundTrip | src/message.rs:968-1015 | metadata encoding is undone for every combination of optional fields, whatever follows |
| Bincode.ContentRecovered | src/message.rs:427-478 | decode returns the content of a message made in either binary format, for every metadata value, through the full or the fallback path |
| Bincode.MetadataRestoredIff | src/message.rs:939-1015 | for every metadata, with an id or without: the full path restores the metadata if and only if there was none to lose, always with a new message id and with the content intact |
| Bincode.FullMessageWithId | src/message.rs:481-513 | with an id of two characters or more the full path fails altogether, and an empty id alone is lost |
| Transport.InvStep | src/tcp_channel.rs:213-412 | every step of any task keeps the transport invariant: whole frames and one cut frame a connection, one holder of the stream lock, cut frames on no free current connection |
| Transport.RunsKeepInv | src/tcp_channel.rs:213-412 | the invariant holds after every run |
| Transport.ShortRuns | src/message.rs:687-688 | in a run without messages of 2^32 bytes or more no connection ever gets out of step |
| Transport.FramesNeverInterleave | src/tcp_channel.rs:213-326 | in every state of every run, for payloads of any length: each connection carries whole frames and at most one cut frame, none on the current connection while the lock is free; and on a connection whose frames all fit their length field the peer has received an in-order prefix of what was written in full |
| Transport.TakesNext | src/tcp_channel.rs:259-326 | the peer can take only the next whole frame and gets its message |
| Transport.SendsAtMostTwice | src/tcp_channel.rs:359-384 | in every run, for payloads of any length, a send has written to at most two connections, all different, left at most that many complete copies, and one on the last connection when it succeeded; every earlier connection failed it, so two attempts imply a failed write or flush in the run |
| Transport.SecondAttemptAfterFailure | src/tcp_channel.rs:359-384 | over every run a call is in its second attempt only after a step that refused the first before writing, or dropped the stream it had broken |
| Transport.FailsOnlyAfterTwoSetbacks | src/tcp_channel.rs:359-384 | over every run, on its steps alone: a call that has failed had two setbacks since it began, unless connecting failed or its message could not be encoded; a call that has succeeded wrote and flushed its frame |
| Transport.SetBackOnceTriesAgain | src/tcp_channel.rs:364-376 | over every run a call that has not ended is in its second attempt exactly when it has had a setback |
| Transport.RetrySucceeds | src/tcp_channel.rs:359-384 | for every message and every byte at which the first write fails there is a run in which the call reconnects and ends well, with the whole message on the second connection |
| Transport.StateIsLastWritten | src/tcp_channel.rs:213-339 | over every run the connection state is what was last written to it, and a stream is stored exactly if the last step to store or drop one stored it; a broken write and a failed receive drop it |
| Transport.RefusedOnlyWhenDown | src/tcp_channel.rs:215-256 | over every run a send is refused only while the channel is down or has no stream |
| Transport.RejectedOnlyAuto | src/tcp_channel.rs:227-228 | over every run only messages of Auto format are rejected, and only others are written |
| Transport.AbandonedForever | src/tcp_channel.rs:230-250 | over every run a connection that is not current never becomes current again and never gets another byte |
| Backoff.ClosedForm | src/tcp_channel.rs:136-169 | with a whole multiplier the k-th wait is the initial wait times m^k, capped |
| Backoff.NextIs | src/tcp_channel.rs:160-166 | with any multiplier the next wait is the product without its fraction, capped, and zero if negative |
| Backoff.NeverShrinksIff | src/tcp_channel.rs:136-169 | with a multiplier of at least 1 the waits never shrink if and only if the first does not exceed the cap; then none does |
| Channel.EffectOfSend | src/tcp_channel.rs:359-384 | open, write, open, write touches no connection but the ones tried, each by one frame or a part of one |
| Channel.GivesUpIff | src/tcp_channel.rs:71-133 | connecting gives up after one failure without a policy, after exactly max_attempts failures in a row under the fixed policy, and never otherwise |
| Channel.SucceedsIff | src/tcp_channel.rs:71-169 | it succeeds at the first accepted attempt unless it has given up by then, and uses up the answers so far |
| Channel.WaitsAre | src/tcp_channel.rs:98-169 | the waits are all the same under the fixed policy, and the initial one multiplied and capped each time under exponential backoff with a whole multiplier |
| Channel.WaitsGrow | src/tcp_channel.rs:136-169 | with any multiplier each wait is the one before it, multiplied and capped |
| Channel.TcpChannel.constructor | src/tcp_channel.rs:54-62 | a new channel is disconnected and has no stream |
| Channel.TcpChannel.TryConnect | src/tcp_channel.rs:172-210 | one attempt: what state, stream and result follow each answer; connected implies a stored stream |
| Channel.TcpChannel.ConnectFixedInterval | src/tcp_channel.rs:98-133 | succeeds on the first accepted attempt within the limit, is Failed exactly after max_attempts failures, with one equal wait after each failure |
| Channel.TcpChannel.ConnectExponentialBackoff | src/tcp_channel.rs:136-169 | never gives up and never enters Failed; its waits are the backoff sequence |
| Channel.TcpChannel.ConnectWithRetry | src/tcp_channel.rs:71-95 | Failed is entered exactly when the None policy's one attempt or the fixed policy's allowed attempts all failed |
| Channel.TcpChannel.EnsureConnected | src/tcp_channel.rs:342-356 | connected: nothing happens; Failed: refused without touching the network; otherwise connects under the policy |
| Channel.TcpChannel.SendMessage | src/tcp_channel.rs:213-256 | writes one frame, or a part of it and then drops the stream; refuses without a byte when not connected or the format is Auto |
| Channel.TcpChannel.EnsureAndSend | src/tcp_channel.rs:360-363 | the first half of a send: at most one new connection and one write attempt, retried exactly when that attempt failed; Failed exactly when connecting gave up |
| Channel.TcpChannel.ReconnectAndSend | src/tcp_channel.rs:364-383 | the second half: at most one write attempt, on a connection made by this very reconnection; Failed exactly when it gave up |
| Channel.TcpChannel.SendWithReconnect | src/tcp_channel.rs:359-384 | at most two write attempts, the second on a newer connection after a failed first; success means the whole frame went out last on the stored connection; which answers of the network lead to Failed, and how many are used up; from Failed nothing is touched |
| Channel.TcpChannel.ReceiveMessage | src/tcp_channel.rs:259-326 | takes exactly one frame off the stream and judges its format last, or drops the ended stream |
| Channel.TcpChannel.ReconnectAndReceive | src/tcp_channel.rs:392-411 | the result is the first frame of the first accepted connection, if there is one; Failed exactly when connecting gave up |
| Channel.TcpChannel.ReceiveWithReconnect | src/tcp_channel.rs:387-412 | which connection each result comes from and what is left on it: the stored one, the one just made, or after its end the first accepted one of the reconnection; which answers lead to Failed; from Failed nothing is touched |
| Channel.TcpChannel.Close | src/tcp_channel.rs:329-339 | leaves any state for Disconnected without a stream |
| ChannelRuns.PerformAll | src/tcp_channel.rs:359-465 | any sequence of connects, sends, receives and disconnects is a life of admissible moves |
| ChannelRuns.FailedOnlyByPolicy | src/tcp_channel.rs:71-169 | over every life: connected implies a stored stream, and Failed is entered only when as many attempts in a row as the policy allows have failed, never under exponential backoff |
| ChannelRuns.BackoffNeverFails | src/tcp_channel.rs:136-169 | under exponential backoff the channel is never Failed |
| ChannelRuns.FailedUntilAsked | src/tcp_channel.rs:342-356 | from Failed on nothing changes and no answer is asked of the network until an explicit connect or disconnect |
| ChannelRuns.EndedFailed | src/tcp_channel.rs:359-412 | every way in which a send or a receive ends in Failed is a giving up of its first or of its second connect |
| TimedMap.Lifetime | src/cache/in_memory.rs:28-54 | an entry is visible exactly until its creation plus its time to live, less the fractions of a second of both |
| TimedMap.RemovingExpired | src/cache/in_memory.rs:104-119 | removing expired entries is not visible |
| InMemoryCache.PrefixInjective | src/cache/in_memory.rs:126-132 | different keys stay different under the namespace |
| InMemoryCache.LockKeyInjective | src/cache/in_memory.rs:461-462 | different lock names have different keys |
| InMemoryCache.InsertionKeepsLimitIff | src/cache/in_memory.rs:154-180 | one insertion keeps every admissible size within the limit if and only if the limit is at least 10 |
| InMemoryCache.EvictsATenth | src/cache/in_memory.rs:154-180 | once the limit is reached a single write evicts a tenth of the limit, rounded down; before, nothing |
| InMemoryCache.BatchLeavesRoom | src/cache/in_memory.rs:348-368 | a batch evicts as many entries as leave room for it and one more, or none if there is room |
| InMemoryCache.KeysLookLike | src/cache/in_memory.rs:126-132 | keys and lock keys, letter by letter |
| InMemoryCache.ItemsArePresent | src/cache/in_memory.rs:370-377 | every item of a batch is present right after it under its own key, all else is as it was |
| InMemoryCache.InMemoryCache.Purge | src/cache/in_memory.rs:104-119 | removes exactly what has expired and nothing visible |
| InMemoryCache.InMemoryCache.MaybeEvict | src/cache/in_memory.rs:154-180 | removes exactly a tenth of the limit, any entries, once the limit is reached, otherwise nothing |
| InMemoryCache.InMemoryCache.Insert | src/cache/in_memory.rs:215-220 | the new entry is in, the victims are out, nothing else changed, and a kept limit of at least 10 stays kept |
| InMemoryCache.InMemoryCache.Get | src/cache/in_memory.rs:185-205 | returns the visible value and removes at most the expired entry looked at |
| InMemoryCache.InMemoryCache.Set | src/cache/in_memory.rs:207-221 | the key holds the new value with its expiry second |
| InMemoryCache.InMemoryCache.Delete | src/cache/in_memory.rs:223-226 | removes the key and reports physical presence |
| InMemoryCache.InMemoryCache.Exists | src/cache/in_memory.rs:135-151 | true exactly for visible keys, and counts a hit or a miss |
| InMemoryCache.InMemoryCache.SetNx | src/cache/in_memory.rs:232-257 | writes exactly when the key is not visible |
| InMemoryCache.InMemoryCache.GetSet | src/cache/in_memory.rs:259-286 | returns the visible value and stores the new one |
| InMemoryCache.InMemoryCache.Increment | src/cache/in_memory.rs:288-327 | adds to the visible counter and stores the sum as text, or panics on overflow before storing |
| InMemoryCache.InMemoryCache.Decrement | src/cache/in_memory.rs:329-332 | subtracts likewise; the smallest i64 overflows |
| InMemoryCache.InMemoryCache.SetMany | src/cache/in_memory.rs:334-379 | evicts first, then stores every item; keeps the limit for batches no larger than it |
| InMemoryCache.InMemoryCache.GetMany | src/cache/in_memory.rs:381-408 | collects exactly the visible values and lazily removes only expired entries |
| InMemoryCache.InMemoryCache.DeleteMany | src/cache/in_memory.rs:410-425 | removes the keys and counts physical removals |
| InMemoryCache.InMemoryCache.Clear | src/cache/in_memory.rs:427-459 | removes everything of its own, or exactly the physical keys with the given prefix |
| InMemoryCache.InMemoryCache.Lock | src/cache/in_memory.rs:461-490 | hands out the token exactly when no live lock exists and stores it |
| InMemoryCache.InMemoryCache.Unlock | src/cache/in_memory.rs:492-510 | removes the lock exactly for the live stored token; any other call changes nothing |
| InMemoryCache.InMemoryCache.Flush | src/cache/in_memory.rs:553-556 | nothing is left |
| CacheRuns.Perform | src/cache/in_memory.rs:184-556 | every operation takes the step of the stored map with an admissible eviction, which to callers is the timed map's step and reply whatever expired entries are still held; it keeps the size limit |
| CacheRuns.PerformAll | src/cache/in_memory.rs:184-556 | a whole run of the cache gives the replies of the timed map, with admissible evictions at every step and none without a limit, and stays within a limit of at least 10 |
| CacheRuns.ReplyAt | src/cache/in_memory.rs:184-556 | the n-th reply is the reply of the timed map after the first n operations |
| CacheRuns.PhysicalRunIsTimed | src/cache/in_memory.rs:104-119 | over every run what callers can tell of the stored map is the timed map |
| CacheRuns.NeverFullNeverEvicts | src/cache/in_memory.rs:154-180 | operations none of which finds the map at its limit evict nothing in any admissible run |
| CacheRuns.OnlyLatestVisible | src/cache/in_memory.rs:154-180 | in every run whatever is visible is the latest written under its key; without eviction exactly the unexpired latest is |
| CacheLaws.GetAfterSet | src/cache/in_memory.rs:207-221 | over every run that leaves the key alone: a value that was set is answered before its time and never after, the time being the given one or the default less the lost fractions of a second |
| CacheLaws.GetAfterSetNx | src/cache/in_memory.rs:232-257 | the same after a successful set_nx |
| CacheLaws.GetAfterSetMany | src/cache/in_memory.rs:334-379 | the same for every item of a set_many |
| CacheLaws.GetAfterGetSet | src/cache/in_memory.rs:259-286 | get_set answers what get would have and sets for the default time |
| CacheLaws.CountReplies | src/cache/in_memory.rs:288-332 | increment and decrement answer the number that get's answer stands for, plus or minus the delta, or overflow |
| CacheLaws.GetAfterCount | src/cache/in_memory.rs:311-322 | after a count get answers the number in decimal for the default time |
| CacheLaws.OverflowKeeps | src/cache/in_memory.rs:311-322 | an overflow changes nothing |
| CacheLaws.LooksAgree | src/cache/in_memory.rs:228-408 | exists, set_nx and get_many agree with get |
| CacheLaws.LooksChangeNothing | src/cache/in_memory.rs:104-119 | a look, a purge and a refused set_nx change nothing |
| CacheLaws.RemovedIsGone | src/cache/in_memory.rs:410-459 | nothing is answered for what was deleted, cleared, flushed or evicted |
| CacheLaws.OthersAreKept | src/cache/in_memory.rs:184-556 | an operation that does not touch a key leaves get's answer for it as it was |
| CacheLaws.SparedKeys | src/cache/in_memory.rs:184-556 | operations on other keys, and clearing another namespace, do not touch a key; a lock touches the key "lock:" and its name |
| CacheLaws.LocksAreValues | src/cache/in_memory.rs:461-510 | a lock is refused, and unlocked, by what get answers for "lock:" and its name |
| CacheLaws.GetAfterLock | src/cache/in_memory.rs:461-490 | the token is answered there until the lock's own time is over |
| CacheLaws.GetAfterUnlock | src/cache/in_memory.rs:492-510 | a successful unlock removes it and a refused one changes nothing |
| Decimal.DigitsRoundTrip | src/cache/in_memory.rs:304-315 | decimal digits read back as the number printed |
| Decimal.ParsesBackIff | src/cache/in_memory.rs:304-315 | a printed integer parses back if and only if it is an i64 |
| Decimal.PrintsInteger | src/cache/in_memory.rs:315-315 | a number is printed as the decimal digits that stand for it, after a minus sign if negative |
| Decimal.PrintsDecimal | src/cache/in_memory.rs:315-315 | those digits have no leading zeros |
| Decimal.ParseIs | src/cache/in_memory.rs:302-302 | what parses is digits with at most one sign in front, as the number they stand for, if that is an i64 |
| CounterRuns.CounterIsTally | src/cache/in_memory.rs:288-332 | over every run that leaves a key to increments and decrements, the stored text is exactly a number with an expiry second that restarts from zero |
| CounterRuns.PacedTally | src/cache/in_memory.rs:288-332 | without lapse and overflow that number is the plain sum |
| CounterRuns.RunningSum | src/cache/in_memory.rs:288-332 | every increment and decrement of such a run returns the running sum |
| LockRuns.HeldStays | src/cache/in_memory.rs:461-510 | a held lock stays held over every run that neither gives its token back nor reaches its expiry |
| LockRuns.HeldSince | src/cache/in_memory.rs:461-510 | a granted lock is held at every later point before release and expiry |
| LockRuns.MutualExclusion | src/cache/in_memory.rs:461-510 | in every run, when a key is granted again the earlier token was given back or has expired |
| LockRuns.OnlyTheHolderUnlocks | src/cache/in_memory.rs:492-510 | while a lock is held every lock call fails, exactly its token unlocks it, and any other changes nothing |
| LockRuns.SecondLockRefusedIff | src/cache/in_memory.rs:461-490 | a second lock after a wait is refused if and only if the wait is shorter than the time to live less the two lost fractions of a second |
| LockRuns.OneWriteSparesIff | src/cache/in_memory.rs:154-180 | whatever is evicted, a held lock stays refused to others after a write of another key, if and only if the map is below its limit or a tenth of the limit is zero |
| LockRuns.RefusedThroughoutIff | src/cache/in_memory.rs:154-180 | whatever is evicted, a held lock is refused to others after every admissible run of given operations up to its expiry, if and only if none of them finds the map at its limit |
| LockRuns.MutualExclusionBelowLimit | src/cache/in_memory.rs:461-510 | mutual exclusion over every run of a cache that never finds itself at its limit, with no condition on what is evicted |
| LockRuns.EvictedIsFree | src/cache/in_memory.rs:483-486 | an operation that evicts anything has an admissible choice that frees a held lock |
| CachePatterns.CacheAside | src/cache/patterns.rs:12-75 | fetches exactly when no live decodable entry exists, at most once, and stores what it fetched |
| CachePatterns.WriteThrough | src/cache/patterns.rs:81-115 | writes the source first, then the cache; what each failure leaves behind |
| CachePatterns.PutInto | src/cache/patterns.rs:58-72 | the bytes are stored to expire after the given time or else the default one, in whole seconds |
| CachePatterns.FoundUntilGone | src/cache/patterns.rs:58-72 | over every run that leaves the key alone, what was put into the cache is found until its time is over and not after |
| CachePatterns.ReadTwice | src/cache/patterns.rs:12-75 | a second read, after others have acted elsewhere, is answered from the cache until the time is over and asks the source again from then on |
| CachePatterns.ThroughCoherentIff | src/cache/patterns.rs:81-115 | cache and source agree after a write if and only if the write failed at the source, the value serialises, nothing was cached, or the value is unchanged |
| CachePatterns.ReadsCurrentValue | src/cache/patterns.rs:12-115 | over every run of calls that do not overlap, with eviction, expiry, purge and other callers, reading through the cache gives the source's current value, and fails only when nothing is cached and the source is down |
| PatternRuns.HitProvenance | src/cache/patterns.rs:24-66 | for every interleaving of the steps of any number of calls, what the cache holds is what the source held when the call that put it there was at the source |
| PatternRuns.ReadIsFreshIff | src/cache/patterns.rs:24-112 | for every interleaving, a read that finds an entry returns the source's value if and only if nothing was stored since the call that put the entry was at the source, or the source holds that value again |
| PatternRuns.StoreThenPut | src/cache/patterns.rs:97-112 | a store whose value serialises is pending until some put follows it |
| PatternRuns.QuietReadIsFreshIff | src/cache/patterns.rs:24-112 | once all calls have ended, a read that finds an entry returns the source's value if and only if no store overtook the last putting call between its visit to the source and its put, or the source holds that value again |
| PatternRuns.CallIsRun | src/cache/patterns.rs:12-115 | a call that nothing comes between is the call as a whole |
| PatternRuns.FetchOvertaken | src/cache/patterns.rs:44-66 | a read whose fetch is overtaken by a write leaves the old value cached |
| PatternRuns.WritesCross | src/cache/patterns.rs:97-112 | two writes that reach the source in one order and the cache in the other leave the older value cached |
| DistributedLock.TotalWait | src/cache/patterns.rs:431-458 | n failed attempts wait retry_delay times 2^(n-1) - 1 with backoff, times n - 1 without |
| DistributedLock.DistributedLock.constructor | src/cache/patterns.rs:397-414 | the key gets its prefix, no token is held, and the default is five attempts from 100 ms with backoff |
| DistributedLock.DistributedLock.TryAcquire | src/cache/patterns.rs:417-428 | succeeds exactly when no live lock is visible; failure keeps token and cache |
| DistributedLock.DistributedLock.Acquire | src/cache/patterns.rs:431-458 | a failed call tries exactly max_attempts times, waits in between as configured, keeps its token and last met a held lock |
| DistributedLock.DistributedLock.Release | src/cache/patterns.rs:461-470 | forgets the token, and removes the lock exactly when it is still there under that token |
| DistributedLock.DistributedLock.WithLock | src/cache/patterns.rs:478-495 | after success or failure of the body no token is left and the lock is not in the cache under it; a failed acquisition keeps the token |
| Named.ReconcileIff | src/model_manager/generator.rs:124-177 | adding all and then dropping all turns one set of named objects into the other if and only if nothing added has the name of something dropped and everything is dropped under its own name |
| Named.AddsAreFreeIff | src/model_manager/generator.rs:155-161 | the adds are legal if and only if no added object has the name of a dropped one |
| Named.MisnamedDropFails | src/model_manager/generator.rs:134-153 | an object dropped under a name that is not its own stays behind |
| Migration.Pass | src/model_manager/generator.rs:103-111 | one pass appends the statements of exactly the missing elements in order, or ends with the first refusal |
| Migration.GenerateMigrationScript | src/model_manager/generator.rs:96-179 | the six passes give the planned script, or the adapter refuses one of its statements |
| Migration.ColumnsLegal | src/model_manager/generator.rs:103-123 | no column statement adds a present column, drops a missing one or leaves the table without columns; shared columns stay first, in order, with their definitions |
| Migration.NeverWithoutColumns | src/model_manager/generator.rs:113-123 | no legal script takes a table that has columns to one that has none |
| Migration.ReachedNames | src/model_manager/generator.rs:103-123 | the column names reached are exactly the target's |
| Migration.ReachedDefinitionsIff | src/model_manager/generator.rs:103-123 | the columns reached are the target's if and only if no shared column changed its definition |
| Migration.TwoStepsSameNames | src/model_manager/generator.rs:103-123 | a to b then b to c ends with the column names of a to c |
| Migration.DroppedUnderOwnNameIff | src/model_manager/generator.rs:134-153 | a constraint is dropped under the name it was added under if and only if it is named |
| Migration.ConstraintsReachedIff | src/model_manager/generator.rs:124-153 | for statements that add what they name: the constraint statements reach the target's constraints if and only if no added name is a dropped one and every dropped constraint is named |
| Migration.IndexesReachedIff | src/model_manager/generator.rs:155-177 | the index statements reach the target's indexes if and only if no added name is a dropped one |
| Migration.MigrationReachesIff | src/model_manager/generator.rs:96-179 | as intended, with adapters that complete the constraint statements: the whole script is legal step by step and ends with the target's constraints and indexes and the reached columns, if and only if names do not clash, dropped constraints are named and not all columns go |
| MigrationRuns.EmittedReachesIff | src/model_manager/generator.rs:124-132 | as emitted, where a constraint is a bare clause and no statement: the script reaches the target if and only if no constraint is added at all, names do not clash, dropped constraints are named and not all columns go |
| MigrationRuns.RunEmittedIff | src/model_manager/adapters/postgres_adapter.rs:127-188 | as emitted a script that adds a constraint never gets to its end, and any other runs as intended |
| MigrationRuns.ScriptLegalIff | src/model_manager/generator.rs:96-179 | the script of any two models that can be tables is legal if and only if no added name is a dropped one, every drop finds a name of its own and not all columns go |
| MigrationRuns.ConstraintsLegalIff | src/model_manager/generator.rs:124-153 | the constraint statements are legal if and only if no added name is a dropped one and no dropped name is missing or repeated; an unnamed dropped constraint needs one whose given name is empty |
| MigrationRuns.EachOnce | src/model_manager/generator.rs:103-177 | no column, constraint or index is created twice, and none is dropped twice when the dropped constraints are named |
| MigrationRuns.PlanHasIff | src/model_manager/generator.rs:96-179 | exactly which statements are in the script, by table, name and definition |
| MigrationRuns.UnnamedIndexName | src/model_manager/generator.rs:163-170 | an unnamed index is named after its table and all its columns in order, which can be read off the name when no column name contains '_' |
| MigrationRuns.OneMoreColumn | src/model_manager/generator.rs:163-170 | whatever the column names are, one more column adds '_' and its name |
| MigrationRuns.UnnamedIndexesDiffer | src/model_manager/generator.rs:163-170 | two unnamed indexes of a table on such columns have one name if and only if they have the same columns |
| MigrationRuns.IndexStatements | src/model_manager/generator.rs:155-177 | an index is created and dropped by the statements of the script under that name, or under its own |
| MigrationRuns.ConstraintNames | src/model_manager/adapters/postgres_adapter.rs:127-188 | the names constraints are added and dropped under, kind by kind |
| MigrationRuns.DroppedIndexIsGone | src/model_manager/sdk_integration.rs:298-308 | for all models and tables: after every script that gets to its end, going on after names already taken, no index has the name of a dropped one |
| MigrationRuns.ChangedIndexIsLost | src/model_manager/generator.rs:155-177 | for all models: an index that changes and keeps its name makes the script illegal, and the client that goes on after the name already taken ends with neither index |
| MigrationRuns.UnnamedDropIsIllegal | src/model_manager/generator.rs:134-153 | for all models: dropping an unnamed constraint makes the script illegal when no constraint has the empty name |
| MigrationRuns.UnnamedDropHitsAnother | src/model_manager/generator.rs:134-153 | when it is not illegal, it drops the constraint with the empty name, even one that was to stay |
| MigrationRuns.SqliteAcceptsIff | src/model_manager/adapters/sqlite_adapter.rs:282-482 | SQLite generates the script if and only if no column and no constraint is dropped, every added column is nullable or has a default and is neither key, unique nor foreign key, and every added index is a B-tree |
| Correlation.RunsKeepInv | src/internal_messaging.rs:174-258 | after every run the entries are exactly the waiters that are still pending |
| Correlation.FateIsDecidedOnce | src/internal_messaging.rs:174-258 | over every run a waiter's fate is what the first later event about its own id says, once and for all |
| Correlation.WaiterStep | src/internal_messaging.rs:240-258 | one event changes the fate of a pending waiter only if it is about that waiter's id, and of no other waiter |
| Correlation.UnknownResponseIff | src/internal_messaging.rs:240-258 | a response changes nothing if and only if its id is not pending, and otherwise only the waiter registered last under it |
| Correlation.AnsweredStaysAnswered | src/internal_messaging.rs:240-258 | a second response to an answered id changes nothing until the id is registered again |
| Correlation.EntriesAreConserved | src/internal_messaging.rs:174-258 | registered = pending + removed by a response + displaced, over every run |
| Correlation.FreshIdPendingIff | src/internal_messaging.rs:161-180 | with ids used once a waiter is never displaced and is pending if and only if no response with its id came |
| Correlation.FirstResponseDecides | src/internal_messaging.rs:240-258 | with ids used once the first response is what the waiter gets |
| Correlation.PendingResponses.Register | src/internal_messaging.rs:174-180 | inserts the sender and drops one it displaces |
| Correlation.PendingResponses.Respond | src/internal_messaging.rs:240-258 | takes out the entry and answers its waiter, or changes nothing |
| Correlation.PendingResponses.GiveUp | src/internal_messaging.rs:182-191 | a caller that leaves early leaves its entry |
| InternalMessaging.InternalMessagingClient.SendRequest | src/internal_messaging.rs:151-191 | which failure is reported, and that a failure after registration leaves the entry pending |
| InternalMessaging.InternalMessagingClient.ProcessRoutedModuleResponse | src/internal_messaging.rs:240-258 | delivers the response to the waiter of its id, or to nobody |
| InternalMessaging.AnswerIff | src/internal_messaging.rs:151-233 | in every run a request gets nothing if and only if no response with its id came, and otherwise what the first such response decodes to |
| Ipc.IpcClient.SendRequest | src/ipc.rs:579-621 | registers under the request's identifier, reports the first failing step, and leaves the entry behind on failure |
| Ipc.IpcClient.ProcessLine | src/ipc.rs:249-462 | hands a response line, or a routed payload, to the waiter of its identifier and changes nothing otherwise |
| Ipc.IpcClient.ProcessMessages | src/ipc.rs:229-495 | handles the lines up to the first shutdown in order, then closes the channel and leaves the rest pending |
| Ipc.LinesAnswer | src/ipc.rs:426-515 | service responses and operation results with a connection id answer with the whole line, routed responses with their payload; other lines answer nobody |
| Ipc.RequestsWaitUnder | src/ipc.rs:667-693 | a service request waits under its id, an operation under its connection id, anything else under one fixed name |
| Ipc.EarlierIsDisplacedIff | src/ipc.rs:667-693 | of two requests under one identifier the earlier loses its answer if and only if no response came in between |
| Uri.RequestBuilder.Query | src/http_tcp/client.rs:122-125 | the parameter overrides an earlier one of its key |
| Uri.RequestBuilder.Queries | src/http_tcp/client.rs:128-131 | a whole map overrides the parameters set so far |
| Uri.RequestBuilder.BuildUri | src/http_tcp/client.rs:160-181 | the URI, the seam its form asks for and the pairs in enumeration order |
| Uri.FirstPairBuilt | src/http_tcp/client.rs:160-181 | the first pair follows the URI after '?', after '&', or directly if the URI ends in '?' |
| Uri.NextPairBuilt | src/http_tcp/client.rs:160-181 | every further pair follows after '&' |
| Uri.ParseQuery | src/http_tcp/mod.rs:81-94 | the loop inserts exactly the well-formed pairs of the second segment |
| Uri.OneParameter | src/http_tcp/mod.rs:81-94 | a parameter is the key before the first '=' and the value up to the next one |
| Uri.NoParameter | src/http_tcp/mod.rs:81-94 | without '=' there is none |
| Uri.LaterParametersWin | src/http_tcp/mod.rs:81-94 | parameters are read from left to right, a later one winning |
| Uri.SecondQueryIgnored | src/http_tcp/mod.rs:81-94 | only what stands between the first two '?' is read |
| Uri.NoQueryNoParameters | src/http_tcp/mod.rs:81-94 | without '?' there are no parameters |
| Uri.ParsedIsClean | src/http_tcp/mod.rs:81-94 | no parsed key or value contains '?', '&' or '=' |
| Uri.CleanRoundTrip | src/http_tcp/client.rs:160-181 | for every enumeration order, clean parameters and at most one '?', parsing the built URI gives its own parameters overridden by the map |
| Uri.SecondQuestionMarkHides | src/http_tcp/mod.rs:81-94 | with two or more '?' nothing added is parsed |
| Uri.ParametersArriveIff | src/http_tcp/client.rs:160-181 | the parameters arrive if and only if there are none, or they are clean and the URI has at most one '?', or they were in the URI already |
| Uri.PathUnchanged | src/http_tcp/mod.rs:102-104 | the path is unchanged by any parameters |
| Uri.PathIsFirstPart | src/http_tcp/mod.rs:102-104 | the path is what precedes the first '?' |
| Uri.ResolveUrl | src/http_tcp/client.rs:378-395 | an absolute URL stays; a relative one joins the base, less one trailing '/', and the URL, less one leading '/', with a '/' |

## Left out

- Transport.FramesNeverInterleave: tasks that are not cancelled; `receive_with_timeout` and the `select!` loops can stop a read half way. What the peer receives is claimed where every length fits its field (`Framing.ReadsBackIff` shows why).
- Channel.TcpChannel.SendWithReconnect: one task at a time; concurrent tasks are the subject of Transport.
- Channel.TcpChannel.ConnectExponentialBackoff: the multiplier is a real number, so floating-point rounding and the saturation at 2^64 are not modelled; an unanswered attempt ends the call with no result.
- Backoff.ClosedForm: multipliers that are whole numbers only; for others only the order and the cap are proved.
- InMemoryCache.InMemoryCache.Lock: check and insert are one atomic step here; on the concurrent map they are two, and two callers in between both get the lock. The same holds of every other cache call.
- InMemoryCache.InMemoryCache.constructor: takes the limit in items; the division of the byte limit by 100 is not modelled, nor is the interval of the background task.
- InMemoryCache.InMemoryCache.Increment: an overflow is a panic that leaves the map alone, as in a build with overflow checks; a build without them would wrap.
- CachePatterns.ReadsCurrentValue: calls that do not overlap, and values that serialise; `PatternRuns.ReadIsFreshIff` and `CachePatterns.ThroughCoherentIff` are about the others.
- PatternRuns.ReadIsFreshIff: all stores at the source are those of `write_through`, and nobody else writes the key.
- DistributedLock.DistributedLock.Acquire: waits are unbounded whole milliseconds; doubling a `Duration` past its range is not modelled. New tokens are arbitrary byte strings.
- LockRuns.MutualExclusion: the key must be left to the locks and spared by eviction; `LockRuns.RefusedThroughoutIff` says exactly when eviction spares it.
- Migration.MigrationReachesIff: models whose columns, constraints and indexes have distinct names on each side, and the same table on both; what a column drop does to the indexes and constraints that use the column is not modelled.
- Migration.GenerateMigrationScript: statements are values; the adapters' SQL text, identifier quoting and schema prefix are not modelled, except that a constraint is a bare clause.
- MigrationRuns.SqliteAcceptsIff: adapters are modelled by which statements they refuse; only SQLite's refusals are spelled out.
- Ipc.IpcClient.ProcessLine: lines arrive already parsed; secrets, HTTP requests, ports and heartbeats have no effect on the pending map and are one kind of message here.
- Correlation.FateIsDecidedOnce: a caller that drops its receiver is noted only when send_request itself returns early.
- Bincode.ContentRecovered: the primitive codecs are parameters whose law is that encoding is undone whatever follows; the JSON branch of decode is left out, being one call of the JSON parser.
- Bincode.MetadataRestoredIff: takes from the primitive codecs that a length below 251 is one byte, that a time stamp whose first byte is below 251 is that byte, and that property text is at least two characters long.
- Formats.ChainKeepsValue: JSON is a parameter whose law is that printing is undone by parsing.
- Uri.ResolveUrl: the other setters of the request builder and the request itself are plain assignments.
- Durations and clocks are whole milliseconds; the clock never goes back.
- Sockets, TLS, tracing, configuration, standard streams: input and output.
- `write_behind`, `invalidate_type`, cache statistics, file, Redis and Memcached caches, database drivers, proxy services, tokens, the procedural macro, routers and response helpers: not part of this model.
