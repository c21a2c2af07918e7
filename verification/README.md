# A verified model of PetraCache

PetraCache is a memcached-style ASCII server: an incremental two-phase parser, a connection loop that
feeds it whatever the socket delivers, a key-value store with time to live on top of RocksDB, and
length-prefixed replies. This project models that pipeline in Dafny and proves what it keeps over every
input, every split of the input into reads and every run.

`dafny verify dfyconfig.toml` checks the whole project.

## The main results

- **Chunking independence.** For every byte stream and every split into reads, what the loop has handled,
  followed by the one-shot trace of its leftover buffer, is the one-shot trace of everything received; no
  byte is lost; something is left only right after an error. That splitting never changes what is executed
  is false of the code as it stands: it holds for a stream if and only if no error comes before the last
  event of its trace, and `Witnesses` has a stream where two splits differ. (`Conversation`, and the trace
  equation again over all interleavings of connections in `ServerRun`.)
- **The accepted language.** A buffer parses to a command after `n` bytes if and only if those bytes spell
  it. The grammar has its own verbs (the five words in any letter case), its own keys (1 to 250 visible ASCII
  characters) and its own numbers (an optional `+`, any zeros, the shortest decimal text). Spellings are
  prefix-free. (`Grammar`, `Decimal`.)
- **The refusals.** A buffer is refused with an error if and only if the words of its first line are refused
  with it, the first bad word deciding, or its data block is not closed. In every run, what was executed had
  been spelled by the bytes it took, what was refused took one line refused so, and exactly panics, quits and
  commands that asked for no reply get none. (`Refusals`.)
- **One server, one map.** In every run of any number of connections with commands executed one at a time,
  and with compactions at any point, each reply is the one a plain map that never forgets would allow at
  that moment of a nondecreasing clock. Told from the history alone: a get shows exactly the latest sets of
  its keys that were not deleted since and whose lifetime lasts, in the order of its keys. What expires is
  also physically removed, by exactly the gets and compactions that meet it, and counted. (`StoreRefinement`,
  `ServerRun`, `History`, `Expiry`.)
- **Readable output.** The bytes written are the in-order replies, and a client that follows announced
  lengths gets back exactly those replies, whatever bytes the values hold. On any server, a client that
  stores a value for ever and asks for it reads the bytes of `STORED`, its own item and `END`. (`Response`,
  `ServerRun`, `EndToEnd`.)
- **Interleaving at database steps.** With gets and deletes cut into their single database steps, a get
  that returns a value returns the latest put before its read, and after the deleting step of a delete its
  key is not read until it is put again, whatever the delete's own read found. That a fresh
  put survives while it lives is false: told from the state before the put, it can be lost if and only if
  a get in flight has read the old value and found it expired or may still find it so. So under
  interleaving the reference map above is not always followed, and the exact condition is proved: a get or a delete answers as that map allows
  at its read if and only if the map shows no live value for the key or no lazy delete older than the
  latest put has landed after it. (`Interleaving`, `StepReference`.)
- **Admission.** The permit, the connection counters and the gauge add up over every run. The gauge is
  right if and only if no handler ended by a quit or a failed write, and the handler ends so exactly when its
  last event is a quit or it had more to write than its socket accepts. (`Admission`, `Connection`,
  `ServerRun`.)

## How the files fit together

`Bytes`, `Decimal`, `Utf8`, `Command` hold the vocabulary. `Parser` says what the parser answers;
`ParserCode` is the parser as it runs, word after word, proved against it; `ParserLaws` proves its laws and
`Grammar` the language it accepts. `Refusals` is what it refuses and why.
`Conversation` is one connection's read loop on values. `Value`, `Store` and the class in `RocksStorage`
are the storage layer; `StoreRefinement` compares it with a reference map. `Response` has the writer and a
client decoder, `Handler` the command handlers, `Session` one turn of the loop with its socket,
`Connection` the handler object changed in place, `ServerRun` the state machine of whole runs, `History`
the same runs told from their events. `Interleaving` and `StepReference` cut requests into database steps.
`Expiry` is what expiry removes, and `EndToEnd` and `Witnesses` hold concrete conversations.
Imperative parts of the server are classes and loops here; each method is proved against a function, and
the properties are proved of that function. `ServerRun.HandlerRunIsReachable` closes the circle: what
`Connection.Handle` computes is one of the runs the theorems speak of.

The clock is a parameter: `clock(n)` is its n-th reading. Theorems that need it ask that readings do not
decrease. RocksDB is a map with atomic single-key get, put and delete; a compaction may visit any entry at
any time. Numbers are those of the release build (Cargo.toml:81-84): 64-bit `usize` additions wrap, and a
panic ends the process. A buffer has at most `isize::MAX` bytes, as every Rust vector. A read appends a
non-empty chunk; a write appends to an output sequence and may fail after any number of bytes.

## Model

| member | source | states |
|---|---|---|
| Bytes.FindCrlfIff | src/protocol/parser.rs:110-112 | the answer is the one CRLF with no CR before it; without one there is none |
| Bytes.FindCrlfExtend | src/protocol/parser.rs:110-112 | a line end, once found, does not move when more bytes arrive |
| Bytes.SplitJoin | src/protocol/parser.rs:54 | splitting at spaces undoes joining with spaces, empty words included |
| Bytes.JoinSplit | src/protocol/parser.rs:54 | joining undoes splitting, and no piece holds a space |
| Bytes.AsciiCodes | src/protocol/response.rs:62-97 | the words of the protocol are their ASCII codes |
| Decimal.Format | src/protocol/response.rs:46-50 | the text of a number is digits only, has its value and no needless leading zero |
| Decimal.FormatAppends | src/protocol/response.rs:46-50 | texts grow by one digit at the end as the number is multiplied by ten |
| Decimal.ParseFormat | src/protocol/parser.rs:317-329 | a printed number reads back if it fits the field, and is refused if it does not |
| Decimal.ParseIff | src/protocol/parser.rs:317-329 | a field reads as `n` iff `n` fits and the text is an optional `+`, any zeros and the shortest text of `n` |
| Utf8.LossyKeepsOut | src/protocol/parser.rs:72-74 | lossy conversion brings in no ASCII byte that was not there, so no CR |
| Utf8.LossyAscii | src/protocol/parser.rs:72-74 | lossy conversion leaves ASCII text as it is |
| Utf8.LossyOfChar | src/protocol/parser.rs:72-74 | the UTF-8 bytes of any Unicode scalar value in front pass as they are |
| Utf8.LossyOfBroken | src/protocol/parser.rs:72-74 | where no character is in front, one U+FFFD replaces the longest stretch that begins one, or one byte |
| ParserCode.ParseGet | src/protocol/parser.rs:115-140 | the loop over the words yields the keys of the line or its first error |
| ParserCode.ParseDelete | src/protocol/parser.rs:274-314 | noreply holds iff some word after the key is `noreply`; key errors as specified |
| ParserCode.ParseSet | src/protocol/parser.rs:143-206 | header words in order, then the data block, each failure with its own error |
| ParserCode.ParseStorageCommandLine | src/protocol/parser.rs:209-269 | yields the very header that the direct parse of the same line uses |
| ParserCode.ParseBuffer | src/protocol/parser.rs:44-76 | the running parser computes the function all laws are about |
| ParserLaws.PrefixStability | src/protocol/parser.rs:44-76 | once a buffer is complete or in error, no extension changes the answer |
| ParserLaws.NeedMoreDataIff | src/protocol/parser.rs:181-187 | waiting means exactly: no line yet, or a good set header short of its data block; the greatest length waits for one byte |
| ParserLaws.HeaderDecides | src/protocol/parser.rs:181-205 | the outcome of every set header: by the bytes there if the announced end is a `usize`, by the length alone if it wraps |
| ParserLaws.PanicIff | src/protocol/parser.rs:181-194 | an index or slice is out of range iff a good set header announces one of three lengths |
| Grammar.PanicOccurs | src/protocol/parser.rs:181-194 | one such length, for every key; the length after it is refused instead |
| ParserLaws.UnexpectedDataIff | src/protocol/parser.rs:189-192 | that error means exactly: the block is all there and no CRLF closes it, or its announced end wraps without a panic |
| ParserLaws.WedgedNeverParses | src/protocol/parser.rs:110-112 | a buffer whose first CR stands alone never parses again, whatever arrives |
| ParserLaws.WedgedIff | src/protocol/parser.rs:110-112 | and it is the only kind of buffer no input can complete a line of |
| ParserLaws.ResumeRefinesDirect | src/protocol/parser.rs:79-106 | a header kept from a shorter buffer answers on every longer one as a fresh parse would |
| ParserLaws.ConsumedEndsAtCrlf | src/protocol/parser.rs:44-76 | a complete command takes 2 bytes to the buffer length, ends at CRLF, has only valid keys |
| ParserLaws.ErrorHasLine | src/server/connection.rs:88-93 | an error always leaves a CRLF to recover at, so the buffer-clearing branch is dead |
| ParserLaws.ErrorTextHasNoCr | src/error.rs:23-56 | the text of every parse error is free of CR |
| Grammar.VerbIff | src/protocol/parser.rs:13-19 | each verb is recognised iff the word is it in some letter case; the order of the tests does not matter |
| Grammar.KeyIff | src/protocol/command.rs:45-51 | a key is valid iff it has 1 to 250 bytes, all from 33 to 126 |
| Grammar.WrittenIffRead | src/protocol/parser.rs:143-206 | grammar and parser agree on what the words of a line say |
| Grammar.SpelledIsParsed | src/protocol/parser.rs:13-76 | every spelling of a command, followed by anything, parses to it and to its length |
| Grammar.ParsedIsSpelled | src/protocol/parser.rs:44-206 | whatever is parsed was spelled by exactly the consumed bytes |
| Grammar.ParseIffSpelled | src/protocol/parser.rs:44-206 | complete with `cmd` after `n` bytes iff those bytes spell `cmd` |
| Grammar.SpellingsPrefixFree | src/protocol/parser.rs:44-206 | no spelling is a proper prefix of another, and none spells two commands |
| Grammar.RoundTrip | src/protocol/parser.rs:274-329 | the canonical text of a command with valid keys parses back to it |
| Refusals.GetLineIff | src/protocol/parser.rs:115-140 | a get line is refused iff some word is no key, with the error of the first such word, or there is no word |
| Refusals.SetHeaderIff | src/protocol/parser.rs:143-177 | a set line is refused for its first bad word: key, flags, exptime, length, each with its own error |
| Refusals.DeleteLineIff | src/protocol/parser.rs:274-297 | a delete line is refused iff its first word is missing or no key |
| Refusals.RefusedIff | src/protocol/parser.rs:44-206 | a buffer is refused with an error iff its line is, told from the grammar, or its announced block is not closed |
| Refusals.ErrorLine | src/error.rs:23-56 | the bytes of the line that answers each error |
| Refusals.VersionAnswer | src/server/handler.rs:39-41 | the bytes that answer a version request |
| Refusals.BadEntryAnswer | src/storage/value.rs:68-73 | the bytes that answer a get of an entry too short to decode |
| Refusals.EntriesAreSpelled | src/server/connection.rs:41-103 | in every run, executed commands were spelled by the bytes they took; refused input is one line refused so |
| Refusals.SilentIff | src/protocol/command.rs:36-41 | in every run, no reply is sent iff: a panic, a quit, or a set or delete with its own noreply |
| Conversation.First | src/server/connection.rs:41-103 | a decided event takes a prefix of the buffer, of at least 2 bytes unless it ends the connection |
| Conversation.TraceAfterFirst | src/server/connection.rs:41-103 | a decided event can be handled before the rest of the stream is known |
| Conversation.TurnTakesFirst | src/server/connection.rs:42-102 | a turn of the loop, by either parse path, takes the first event of the buffer |
| Conversation.HeaderIsKept | src/server/connection.rs:75-83 | while waiting, a header is kept iff the buffer holds a whole line |
| Conversation.DeliverCoherent | src/server/connection.rs:31-38 | a read of any size keeps trace, pending header and byte conservation |
| Conversation.TurnCoherent | src/server/connection.rs:41-103 | so does every turn of the inner loop |
| Conversation.ChunkingIndependence | src/server/connection.rs:26-112 | for every split: handled events plus the leftover's trace are the one-shot trace; something is left only after an error |
| Conversation.ReadHandlesUpToError | src/server/connection.rs:84-101 | one read is handled exactly up to the first error in the buffer; the rest waits for the next read |
| Conversation.ReadIsCompleteIff | src/server/connection.rs:84-101 | a read is handled in full iff no error comes before the last event of its trace |
| Conversation.SplitsAgreeIff | src/server/connection.rs:26-112 | every split of a stream is handled as its one-shot trace iff no error comes before the last event of that trace |
| Witnesses.SplitsCanDiffer | src/server/connection.rs:84-101 | `bad` and `version` in one read give one event, in two reads two |
| Conversation.WedgedHandlesNothing | src/server/connection.rs:75-83 | after a lone CR a connection handles nothing more, whatever it receives |
| Value.FromToLe | src/storage/value.rs:59-65 | little-endian fields of any width lose nothing |
| Value.ToFromLe | src/storage/value.rs:68-94 | and every byte string of that width is the field of its number |
| Value.HighByteLast | src/storage/value.rs:59-65 | the last byte of a field weighs most: fields are little endian |
| Value.Encode | src/storage/value.rs:59-65 | the growing buffer ends as expiry, flags, data |
| Value.EncodedLayout | src/storage/value.rs:59-65 | expiry in bytes 0 to 7, flags in bytes 8 to 11, then the data |
| Value.DecodeEncoded | src/storage/value.rs:59-94 | decoding undoes encoding on all values |
| Value.EncodedDecode | src/storage/value.rs:68-94 | decoding succeeds iff there are 12 bytes, and encoding undoes it |
| Value.ExpiryMatchesRequest | src/storage/value.rs:131-141 | not expired iff the requested lifetime lasts; the never marker only for exptime 0 |
| Value.FilterIffExpired | src/storage/rocks.rs:241-251 | on decodable bytes the filter removes iff the decoded value is expired |
| Store.EntryOutcome | src/storage/rocks.rs:99-118 | an entry is not found, dropped by a get and dropped by a compaction iff its expiry is set and reached |
| Store.CompactionOutcome | src/storage/rocks.rs:241-251 | on any bytes a compaction removes iff the first 8 say a reached expiry |
| Store.BatchAgreesWithOneByOne | src/storage/rocks.rs:121-165 | a batch fails iff successive gets do, with the same error; otherwise same answers and store; its removal count is never smaller, equal on distinct keys |
| Store.FailedReadsDiffer | src/storage/rocks.rs:134-148 | when they fail, the batch removes nothing while successive gets already have |
| Store.BatchRemovesExpired | src/storage/rocks.rs:152-162 | a batch removes exactly the entries asked for and found expired |
| RocksStorage.RocksStorage.Get | src/storage/rocks.rs:99-118 | answer, lazy removal and counter of one get |
| RocksStorage.RocksStorage.GetMulti | src/storage/rocks.rs:121-165 | answers in key order, removals and counter of a batch; on a bad entry the first error and no change |
| RocksStorage.RocksStorage.Set | src/storage/rocks.rs:168-172 | stores the encoding under the key and nothing else changes |
| RocksStorage.RocksStorage.Delete | src/storage/rocks.rs:179-185 | answers whether the key was there, and it is gone |
| RocksStorage.RocksStorage.Compact | src/storage/rocks.rs:241-251 | the filter on one entry, counting what was removed |
| StoreRefinement.StepSimulates | src/storage/rocks.rs:99-185 | each operation answers as the reference allows and keeps the simulation |
| StoreRefinement.StoreRefinement | src/storage/rocks.rs:99-185 | every timed run from the empty store answers as the reference map allows |
| StoreRefinement.TimeToLive | src/server/handler.rs:90-106 | after a set and no write to its key, a get hits with the same flags and bytes iff the lifetime lasts |
| Expiry.GetRemovesExpired | src/storage/rocks.rs:121-165 | in every run, a get leaves of its keys exactly what the reference still shows at its readings, and counts each expired position |
| Expiry.CompactionRemovesExpired | src/storage/rocks.rs:241-251 | in every run, a compaction removes the visited entry iff the reference no longer shows it, and counts it |
| Expiry.GetFailsIff | src/server/handler.rs:58-84 | a get fails iff an asked entry has under 12 bytes; then nothing is removed and one storage error counted |
| Interleaving.InvKept | src/storage/rocks.rs:99-185 | every single database step keeps database, log and tasks in agreement |
| Interleaving.StepEffect | src/storage/rocks.rs:99-185 | a put stores, each of the three removals removes, and no step changes any other entry |
| Interleaving.CompactEnabledIff | src/storage/rocks.rs:241-251 | a compaction may remove a key iff its latest write put a value that has expired |
| Interleaving.GetReturnsLatestPut | src/storage/rocks.rs:99-118 | a returned value is the latest write before the read, unexpired at its check; decoding never fails |
| Interleaving.RemovedIsNotRead | src/storage/rocks.rs:179-185 | after a removal with no later put, every read finds nothing |
| Interleaving.DeleteRemoves | src/storage/rocks.rs:179-185 | in every run, an answered delete has removed its key at or after its own read |
| Interleaving.DeletedIsNotRead | src/storage/rocks.rs:179-185 | after the deleting step and until the next put, every read of the key finds nothing |
| Interleaving.PutCanBeLostIff | src/storage/rocks.rs:100-111 | before a put: some continuation loses it while it lives iff a get in flight has found the old value expired, or has read it and may find it so in time |
| Interleaving.LostIsThreatened | src/storage/rocks.rs:100-111 | with no such get in flight, no continuation loses the put |
| Interleaving.PutLostIffOvertaken | src/storage/rocks.rs:100-111 | in a log: a live put, neither deleted on request nor overwritten, is gone iff an older lazy delete overtook it |
| Interleaving.FreshPutCanBeLost | src/storage/rocks.rs:100-111 | such a loss does occur |
| StepReference.AgreesNow | src/storage/rocks.rs:99-118 | at every moment the database holds what the reference map shows of a key, unless its latest put was overtaken |
| StepReference.StepAgrees | src/storage/rocks.rs:99-185 | every database step keeps each request's read in agreement with the reference |
| StepReference.AnswersReferenceIff | src/storage/rocks.rs:99-185 | in every interleaving a get or delete answers as the reference at its read allows iff not: the reference shows the key and its latest put was overtaken |
| Interleaving.UninterruptedGet | src/storage/rocks.rs:99-118 | run without interruption, the steps of a get are the atomic get |
| Interleaving.UninterruptedDelete | src/storage/rocks.rs:179-185 | and those of a delete the atomic delete |
| Response.ResponseWriter.Value | src/protocol/response.rs:41-54 | appends one item: line with key, flags and length, then the data |
| Response.ResponseWriter.Line | src/protocol/response.rs:62-97 | appends one status, version or error line |
| Response.LineBytes | src/protocol/response.rs:62-97 | the bytes of every one-line reply |
| Response.ItemIsBytes | src/protocol/response.rs:41-54 | the bytes of an item |
| Response.ValuesBytes | src/server/handler.rs:70-87 | the bytes of a get reply: item after item, then END |
| Response.DecodeReplyBack | src/protocol/response.rs:41-97 | a clean reply is read back whole and nothing beyond it is touched |
| Response.ClientDecodes | src/protocol/response.rs:41-97 | the concatenation of clean replies decodes to exactly those replies |
| Handler.Server.HandleGet | src/server/handler.rs:44-87 | both paths, single key and batch, have the effect and reply of a batch |
| Handler.Server.GetOne | src/server/handler.rs:49-64 | the single-key path has the effect and output of a batch of one |
| Handler.Server.GetMany | src/server/handler.rs:65-85 | the batch path, with its error branch |
| Handler.Server.WriteResults | src/server/handler.rs:70-77 | one item and one hit per value found, one miss per key not found, in order |
| Handler.Server.Execute | src/server/handler.rs:9-36 | state and reply of every command |
| Handler.SingleKeyBatch | src/server/handler.rs:49-64 | the single-key path is the batch of one key |
| Conversation.TurnShrinks | src/server/connection.rs:60-61 | a turn that goes on leaves a shorter buffer, so the inner loop ends |
| Connection.Connection.ProcessOne | src/server/connection.rs:42-102 | one pass of the inner loop; the response buffer is empty before and after |
| Connection.Connection.TakeCommand | src/server/connection.rs:51-74 | execute, consume, answer unless noreply, count the bytes before writing |
| Connection.Connection.Recover | src/server/connection.rs:84-100 | one error line out, one input line dropped, then wait |
| Connection.Connection.ProcessBuffer | src/server/connection.rs:41-103 | the inner loop ends where repeated turns end |
| Session.ReadsAreTaken | src/server/connection.rs:26-38 | the handler takes its reads in order and stops short only after a quit, a failed write or a panic |
| Connection.Connection.Handle | src/server/connection.rs:17-116 | the whole handler: it ends by a failed write, a quit, a panic or as the loop stopped, and lowers the gauge in the last case only |
| Connection.RunHandler | src/server/mod.rs:81-85 | the spawned task changes the gate by the step of the ending its handler really had, and not at all in a panic |
| Witnesses.QuitEndsEarly | src/server/connection.rs:71-73 | a client that sends `quit` is gone after it, on any server and socket |
| Witnesses.FailedWriteEndsEarly | src/server/connection.rs:67 | a client whose socket takes less than the answer to `version` is broken after it |
| EndToEnd.SetThenGet | src/server/connection.rs:17-116 | on any server, the bytes of a set without expiry and a get are answered by the bytes of STORED, the same item and END |
| ServerRun.GetAllowed | src/server/handler.rs:44-87 | a get is answered with what the reference shows, whatever was removed |
| ServerRun.ExecAllowed | src/server/handler.rs:9-118 | every command answers as the reference allows, with exact hit and miss counts |
| ServerRun.ChunkingIndependence | src/server/connection.rs:26-112 | the chunking theorem for every connection of every interleaved run, with byte conservation |
| ServerRun.OutputIsReplies | src/server/connection.rs:63-69 | bytes written are the in-order replies; a write fails iff they exceed what the socket accepts, which is then what it got |
| ServerRun.GoneIff | src/server/connection.rs:71-73 | a connection is gone iff its last event is a quit or a panic |
| ServerRun.RepliesFollowReference | src/server/handler.rs:9-118 | every logged reply is allowed by the reference at its point of the run, commands executed one at a time |
| History.ReferenceIsFolded | src/server/handler.rs:9-118 | the reference of every entry is the fold of the events handled before it |
| History.GetShowsLatestSets | src/server/handler.rs:44-87 | a get shows exactly the latest sets of its keys, not deleted since, whose lifetime lasts, commands executed one at a time |
| History.GetAnswersInOrder | src/server/handler.rs:44-87 | one item for each asked position with something to show, in the order of the keys, and no other |
| ServerRun.ClientReadsReplies | src/protocol/response.rs:41-97 | a client recovers the exact reply sequence of its connection |
| ServerRun.CountersConserve | src/server/handler.rs:44-87 | hits plus misses are keys asked, hits are items sent, bytes written are reply bytes, commands and errors are counted once |
| ServerRun.BytesWrittenReachSockets | src/server/connection.rs:65-67 | when no write fails, the byte counter is the bytes on all sockets together |
| ServerRun.ReachableStore | src/storage/rocks.rs:168-172 | reachable stores hold only valid keys and decodable values; the filter removes iff expired |
| ServerRun.DownIffPanicked | Cargo.toml:81-84 | the process is down iff some handler panicked, and then that was the last event of the run |
| ServerRun.HandlerRunIsReachable | src/server/connection.rs:17-116 | what the handler computes on an empty server is a run of the state machine |
| Admission.Accounting | src/server/mod.rs:69-93 | permits plus live are the limit; attempts are admitted or rejected; the gauge exceeds live by early endings |
| Admission.RejectedIffFull | src/server/mod.rs:74-91 | a connection is turned away iff the limit is reached, which is never exceeded |
| Admission.GaugeExactIff | src/server/connection.rs:67-115 | the gauge is never below live and equals it iff no handler ended by quit or a failed write |
| Admission.Gate.HandleNewConnection | src/server/mod.rs:69-93 | takes a permit and counts, or rejects and counts |
| Admission.GaugeDrifts | src/server/connection.rs:71-73 | one client that connects and quits leaves the gauge at one with nobody there |

## Left out

- RocksStorage.RocksStorage.GetMulti: the batch is read in one step here; spread over several steps it is
  covered by `Interleaving`, one get per key.
- RocksDB itself (options, memtables, caches, log levels, its error values): a map with atomic operations
  and a compaction that may visit any entry. `SERVER_ERROR` is modelled for undecodable entries only.
- Crash durability: the write-ahead log is disabled on purpose.
- A clock that runs backwards, and its fallback to zero.
- Sockets, tasks and cancellation beyond reads, writes that fail and endings of handlers; `bytes_read`.
- Counters are unbounded numbers; they wrap at 2^64 in the server.
- ServerRun.RepliesFollowReference: commands are single steps there; commands cut into database steps, with
  the exact condition, are in `StepReference`, without parsing and reply texts.
- History.GetShowsLatestSets: the same.
- The development build, where an overflowing addition panics instead of wrapping.
- `touch`, `as_u64`, `set_numeric` in src/storage/value.rs: no handler calls them.
- Configuration, health endpoints and metric registration.
