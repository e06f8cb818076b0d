# FileFerry, verified

FileFerry moves files between a local directory and an S3 bucket over HTTP. This project models the
parts of it that carry arithmetic, loops and state, in Dafny 4.11, and proves what they promise.
`dafny verify dfyconfig.toml` checks all of it.

| file | models |
|---|---|
| `Calendar.dfy`, `Timestamp.dfy` | the formatter of modification times: era arithmetic against a calendar that counts years and months, and the text it makes |
| `Strings.dfy`, `Order.dfy` | splitting, and the order of names |
| `Paths.dfy` | the path validator, Rust's path components, resolution under the root |
| `Keys.dfy` | the mapping between paths and object keys |
| `Listing.dfy`, `FsList.dfy`, `S3List.dfy` | what a listing is; the two backends that produce it |
| `S3Moving.dfy` | one listing from a bucket that changes while it is read |
| `Pagination.dfy` | one list request, and a client that follows `nextCursor` |
| `Reader.dfy`, `LimitedReader.dfy` | the capped reader: as a function of one poll, and on its buffer and shared counter |
| `Transfer.dfy`, `Timing.dfy`, `Streaming.dfy` | one copy: as a machine of events, its timeout and waiting, and on its own objects |
| `Service.dfy`, `Concurrent.dfy` | copy requests, and runs of them over both stores: one after another, and at the same time |
| `Trace.dfy` | the `traceparent` header and the generator of identifiers |

## What is proved

- **Time.** For every count of seconds the closed form gives the date a calendar reckons year by year
  and month by month, no unsigned difference goes below zero on the way, and the text reads back to
  the same second. The text order of timestamps is their time order up to the end of the year 9999
  and, exactly, no further.
- **Listing.** Against any server that splits a bucket into pages as it likes, the S3 loop ends and
  returns the first names behind the cursor, just as the sorted directory does; for the same files both
  backends give the same page. From a bucket that changes between the requests of one listing, the names
  still increase, each was there when it was read, and none that stayed is skipped. If the store changes
  between the requests of a client that follows `nextCursor`, it never sees a name twice and misses none
  that stayed. Over a store at rest the walk completes if and
  only if each name that ends a full page passes the path validator, and takes `n / L + 1` requests.
  What is listed, with which size and time, which page a request gets and which it is refused for are
  stated exactly.
- **Copying.** At every step, whatever fails or is dropped, an opened file holds a prefix of the source
  within the cap, an object is the old one or the whole source, and nothing else has changed. Without
  outside failures and stalls a copy ends, and succeeds if and only if the source fits the cap. It takes a
  bounded number of steps, even from a source that never ends. It times out if and only if the source
  stalls, and however long reads stay pending the guard bounds the time a run waits. Which requests are
  refused, and as what, is stated exactly; every other one can be served. Over any run of requests both
  stores hold only beginnings of what they held at first. Copies between places of their own, however
  their steps interleave, come to what each comes to alone.
- **Paths.** An accepted path that resolves lies beneath the root. For paths that nothing has validated it
  is stated exactly which ones the validator accepts, which ones resolve, and which of those stay inside at
  every step.
- **Tracing.** Every service of a chain reports the first trace id; nine generated bytes determine
  their seed, and no fewer do.

## Where the code and its documentation differ

The model follows the code.

- `src/validate.rs:8-9` says that redundant slashes are rejected. `a//b` and a leading `/` are accepted
  (`Paths.DoubledSlashIsAccepted`); such slashes never matter (`Paths.RedundantSlashesPass`).
- `src/backend/fs.rs:34-35` says that the ancestor check rejects an escape through `..`. No relative
  path fails that check (`Paths.EscapeCheckPassesEveryRelativePath`): under `/srv`, `../x` passes and leads
  to `/x` (`Paths.EscapeWithoutValidator`). A path that passes stays inside exactly when it never climbs
  above its start, or nothing is above (`Paths.EscapeCheckContainsExactly`); containment rests on the
  validator, whose paths never climb.
- `src/backend/s3.rs:57-60` says that no slash is inserted behind the bucket path. One is, unless it ends in
  a slash already (`Keys.KeySegments`).
- `src/backend/mod.rs:151-153` says that the cap error wraps `TransferTooLarge`. It is an I/O error like
  any other failure of the stream, here the cause `CapExceeded`.
- `SECURITY.md:106-109` promises pagination by `nextCursor`. The cursor goes through the path validator
  (`src/router.rs:201-203`), so a page that ends in a name such as `a b.txt` cannot be continued
  (`Pagination.SpaceEndsTheWalk`); `Pagination.WalkAtRest` says which listings can be walked to their end.
- The cap on a transfer fails when the cap and one buffer together reach `2^64`: in a release build the
  counter wraps (`Reader.CapHoldsExactly`).
- `src/backend/s3.rs:154-161` tests the limit after the push. With a limit of zero, which the router
  never passes on, the S3 backend returns an entry and the filesystem backend none (`S3List.ReturnsThePage`).
- `src/trace_headers.rs:73-96` can mint a trace id of zeros alone, which section 3.2.2.3 of W3C Trace
  Context forbids: exactly from the seed zero (`Trace.ZeroTraceId`). A span id of zeros, forbidden by
  section 3.2.2.4, comes from other seeds too: exactly where the lowest 57 bits of the first state are
  zero (`Trace.ZeroBytes`, `Trace.ZeroSpanId`).

## Modelling choices

- Strings are sequences of Unicode scalar values. Their code point order is the byte order of their
  UTF-8 form, in which Rust and S3 compare.
- A copy is driven by a sequence of events that stands for the scheduler, the disk, the network and the
  client. The copy loop of `tokio` is a buffer that is filled and written out in chunks of any size. The
  request timeout (`src/router.rs:81`) is the event `Cancel`.
- The inactivity guard of `tokio_io_timeout` fails a read that is found pending at or after its deadline.
  The bound on waiting supposes a scheduler that looks again at a pending read within some `lag`, which by
  itself bounds no read; the bound is `max + 1` times budget and lag.
- The loop of the S3 backend ends if the tokens of the server lead on up to some bound (`S3List.Progresses`);
  against a bucket that grows ahead of it for ever it need not. A reply is a failure, or holds some next
  objects of the bucket as it is at that request. A walk of several list requests takes each answer from
  one state of the store.
- Copies at the same time share the stores step by step, and each reads its source as it is stored at that
  step. They are independent if no two write one place and none reads a place that is written.
- Files are keyed by their names below the root, since `a//b` and `a/b` are one file; objects by key.
- The counter is a 64-bit number that wraps. Other lengths and sizes are unbounded.
- Rust's library sort is an insertion sort here; on distinct names there is one sorted order
  (`Listing.OrderIsUnique`).
- The words of the generator are sequences of 64 bits, the lowest first.

## Model

| member | source | states |
|---|---|---|
| `Calendar.CivilIsReckon` | src/backend/fs.rs:222-231 | for every day count, the era / year-of-era / shifted-month form is the date reached by taking whole Gregorian years and then months off the count |
| `Calendar.CivilIsDayNumber` | src/backend/fs.rs:222-231 | the date exists in the calendar (month 1 to 12, day within the month, leap days right) and counting its days back gives the input |
| `Calendar.DayNumberIsInverse` | src/backend/fs.rs:222-231 | every date from 1970 on is the date of its own day count: none is missed, no two days share one |
| `Calendar.CivilIsMonotone` | src/backend/fs.rs:222-231 | later days get later dates, and only they |
| `Calendar.YearOfEraBounds` | src/backend/fs.rs:224-225 | the corrected quotient is the one year of the era whose first and last day enclose the day, and its differences do not go below zero |
| `Timestamp.FormatRoundTrip` | src/backend/fs.rs:211-237 | the text of any second, in whatever year, parses to a valid date and time that count up to that second |
| `Timestamp.FormatShape` | src/backend/fs.rs:208-237 | the text is year digits, two digits for each other field and the marks `--T::Z`; twenty characters through the year 9999 |
| `Timestamp.TextOrderIsTimeOrder` | src/backend/fs.rs:208-237 | timestamps up to a bound sort as text in time order if and only if the bound lies within the year 9999 |
| `Paths.AcceptedByCharacters` | src/validate.rs:16-45 | a path is accepted if and only if it is not empty, each of its code points is that of an ASCII letter, a digit, `-`, `.`, `/` or `_`, and no segment is `.` or `..` |
| `Paths.FaultIsExact` | src/validate.rs:16-35 | which fault a refused path is reported with when it has several |
| `Paths.AcceptedBySegments` | src/validate.rs:16-45 | a path is accepted if and only if it is not empty and each of its segments is harmless; empty segments are |
| `Paths.RedundantSlashesPass` | src/validate.rs:8-45 | doubling a slash, or putting one in front, changes nothing for the validator, whatever stands around it |
| `Paths.DoubledSlashIsAccepted` | src/validate.rs:8-45 | `a//b` and `/a` are accepted |
| `Paths.AcceptedJoin` | src/validate.rs:16-45 | two nonempty paths joined by a slash are accepted if and only if both are |
| `Paths.ComponentsOfSegment` | src/backend/fs.rs:33 | how Rust reads one more segment: an empty one and `.` are no step, `..` is one up, anything else a name |
| `Paths.ComponentsOfFirst` | src/backend/fs.rs:33 | and the first one: a `.` there is kept, and a slash before it is the root |
| `Paths.AncestorsArePrefixes` | src/backend/fs.rs:43-45 | the ancestors of a path are the prefixes of its components, the empty one only for a relative path |
| `Paths.ResolveIsExact` | src/backend/fs.rs:32-77 | what resolution answers for every path and every outcome of the metadata call: which paths escape; of the others a link is refused, a failing call reported, and only the rest resolve, to their join with the root |
| `Paths.ResolveIsContained` | src/backend/fs.rs:32-77 | an accepted path that resolves has, in lexical normal form, only names behind the root or the canonical root |
| `Paths.EscapeCheckIsExact` | src/backend/fs.rs:43-57 | any path, validated or not, passes the escape check if and only if it is relative or spells out the root or the canonical root |
| `Paths.EscapeCheckPassesEveryRelativePath` | src/backend/fs.rs:33-57 | no relative path whatever fails the escape check |
| `Paths.EscapeCheckContainsExactly` | src/backend/fs.rs:33-57 | a path that passes the escape check through a base, validated or not, is inside that base at every step if and only if what follows the base has nowhere more `..` than names so far, or the base is the root of the file system |
| `Paths.RelativePathStaysInside` | src/backend/fs.rs:33-57 | for a relative path what follows is its own segments: it stays inside the root if and only if they never climb above their start, or nothing is above the root |
| `Paths.AcceptedNeverClimbs` | src/validate.rs:16-45 | the segments of an accepted path never climb |
| `Paths.EscapeWithoutValidator` | src/backend/fs.rs:33-57 | `../x` under `/srv` passes the check and leads to `/x`, which is not inside `/srv` |
| `Keys.KeySegments` | src/backend/s3.rs:62-70 | the segments of a key are those of the bucket path and of the path, whether or not the bucket path ends in a slash |
| `Keys.KeyOrder` | src/backend/s3.rs:62-70 | keys compare as the paths they stand for |
| `Keys.StartAfterSelects` | src/backend/s3.rs:119-122 | the full key a listing resumes after selects exactly the names after the cursor |
| `Order.LessIsLexicographic` | src/backend/fs.rs:123-126 | names compare at their first difference by code point, a beginning before what it begins |
| `Listing.SortOrders` | src/backend/fs.rs:120-123 | sorting distinct names keeps the entries and puts them in strict name order |
| `Listing.OrderIsUnique` | src/backend/mod.rs:23-24 | name order has one arrangement: ordered listings of the same entries are equal |
| `FsList.List` | src/backend/fs.rs:86-129 | the loop over the directory returns the page of the sorted regular files, or the I/O error if any step of reading fails |
| `FsList.ListingOfDirectory` | src/backend/fs.rs:95-123 | the listing is in strict name order, and an entry is in it if and only if some step of reading found a regular file, no link and no directory, of its name, its size and the timestamp of its time |
| `FsList.ReadOrderDoesNotMatter` | src/backend/fs.rs:120-123 | two directory orders of the same files answer every request alike |
| `S3List.List` | src/backend/s3.rs:93-172 | against any server whose tokens lead on, the loop ends: with an upstream error if and only if a request it comes to before it has enough fails, and else with the first `limit` entries on its pages; from a bucket at rest, split into pages as the server likes, these are the first `limit` root-level names behind the cursor |
| `S3List.OneOutcome` | src/backend/s3.rs:125-172 | a listing fails or returns, and returns one page |
| `S3List.ReturnsThePage` | src/backend/s3.rs:154-161 | the same of whatever the loop can return; for limit zero, what the first reply holds, cut to one entry |
| `S3List.FirstRequestIsExact` | src/backend/s3.rs:101-135 | the first request asks for exactly the keys of paths below the bucket path that come after the cursor |
| `S3List.ListingOfBucket` | src/backend/s3.rs:140-158 | the names under any prefix come in strict name order |
| `S3List.ListingIsExact` | src/backend/s3.rs:140-158 | an entry is listed if and only if some object has the key of its name, the name is not empty and has no slash, and size and time are the object's, a missing or negative size read as zero |
| `S3Moving.MovingAnswerIsSound` | src/backend/s3.rs:125-172 | whatever changes in the bucket between the loop's requests, the names of the answer strictly increase behind the cursor and each entry was in the bucket at the request that returned it |
| `S3Moving.MovingAnswerMissesNothing` | src/backend/s3.rs:125-172 | a name in the bucket at every request of the loop is in the answer, up to its last name, and wholly if the answer is not full and the server said that nothing is left |
| `Pagination.RefusalIsExact` | src/router.rs:188-203 | a limit above 10000 is refused, whatever the cursor; else a cursor the validator refuses; else the request is answered |
| `Pagination.AnswerIsExact` | src/router.rs:188-221 | no limit and zero give pages of 1000, any other up to 10000 pages of its own size: the first entries after the cursor, and a cursor, the last name, if and only if the page is full |
| `Pagination.ListFiles` | src/router.rs:179-222 | the handler answers with the page of the picked backend under the coerced limit and the validated cursor, or with the error that comes first; an upstream error if and only if a request it needs fails |
| `Pagination.BucketAtRestAnswers` | src/router.rs:179-222 | over a bucket at rest, however it is split into pages, the answer is that of a store with the bucket's listing, unless a request fails |
| `Pagination.BackendsAgree` | src/backend/mod.rs:42-49 | for the same root-level files a directory and a bucket return the same names and sizes, for every cursor, limit and bucket path |
| `Pagination.WalkIncreases` | src/router.rs:211-221 | whatever changes between requests, the names of a walk strictly increase and every name of its page `i` was in the store at request `i` |
| `Pagination.WalkMissesNothing` | src/router.rs:211-221 | a completed walk reports every name that was in the store at all of its requests |
| `Pagination.WalkAtRest` | src/router.rs:188-221 | over a store at rest a walk with pages of `n`, as the client asked, completes if and only if each name that ends a full page is accepted; then it reports the whole listing in `size / n + 1` requests |
| `Pagination.SpaceEndsTheWalk` | src/router.rs:201-222 | where the one file is `a b.txt` and pages hold one name, no walk completes |
| `Reader.RunIsCapped` | src/backend/mod.rs:181-215 | in every run of polls the consumer has a prefix of the source within the cap, and until the first overrun the counter is its length |
| `Reader.OverrunIsFinal` | src/backend/mod.rs:186-194 | after an overrun every poll fails and nothing more leaves the source |
| `Reader.CapHoldsExactly` | src/backend/mod.rs:199-210 | for an endless source and buffers of a given size, all runs keep the cap if and only if cap plus buffer stays below `2^64` |
| `LimitedReader.CappedReader.PollRead` | src/backend/mod.rs:180-216 | one poll changes the buffer, its filled mark, the shared counter and the source as the poll function says; an overrun puts the mark back |
| `LimitedReader.SourceReader.PollReady` | src/backend/mod.rs:196-198 | a ready poll puts the next bytes of the source behind the filled mark and leaves what was before it |
| `Transfer.RunInv` | src/backend/mod.rs:99-134 | the invariant of every run of a copy: buffer, counter, file, temporary file and stores agree |
| `Transfer.SafeAtEveryStep` | src/backend/s3.rs:208-231 | wherever a copy stops, only its target has changed; an opened file holds a prefix of the source, no longer than the source or the cap; an object is untouched or whole |
| `Transfer.SuccessIsDelivery` | src/backend/mod.rs:114-133 | success means the whole source is at the target and its length is the count; a failure at the cap means the source was longer |
| `Transfer.EndIsExact` | src/backend/fs.rs:159-196 | a run has succeeded, been dropped, or failed to open, read, write or upload, if and only if the event came that does so; nothing later changes it |
| `Transfer.ObjectIsExact` | src/backend/s3.rs:208-231 | the bucket changes if and only if an upload took effect, acknowledged or not, and then holds the whole source |
| `Transfer.ScheduleDoesNotMatter` | src/backend/fs.rs:193-195 | successful schedules of one copy report the same count and leave the same stores |
| `Transfer.AnyChunkIsRead` | src/backend/fs.rs:193-195 | as long as the buffer has room, a poll lets through any number of bytes that fit the room, the source and the cap |
| `Transfer.RunsAreBounded` | src/backend/mod.rs:110-114 | no run makes more than `2 * max + 4` steps besides waiting, even from an endless source |
| `Transfer.NeverStuck` | src/backend/fs.rs:193-195 | a copy that has not ended has a step to take |
| `Timing.TimeoutIsExact` | src/backend/mod.rs:93-112 | a run has timed out if and only if some poll in it found pending a read that was first found pending a whole budget before |
| `Timing.OutcomeIsExact` | src/backend/mod.rs:99-134 | a run without outside failure, dropped request or stall that has ended has succeeded if and only if the source is within the cap, and else failed at the cap |
| `Timing.UnhinderedCopyEnds` | src/backend/mod.rs:99-134 | such a run has ended, well if and only if the source fits, by its step `2 * max + 4`; from wherever it stands it has such an end within as many events |
| `Timing.WaitingIsBounded` | src/backend/mod.rs:109-113 | if a pending read is looked at again within a lag, at most `max + 1` reads finish, and the time with a read pending, the read under way included, is at most `max + 1` times budget and lag |
| `Streaming.StreamCopy` | src/backend/mod.rs:99-134 | the copy on its own buffer, counter and files ends in the phase, and leaves the stores, of the event machine |
| `Streaming.CopyTask.Handle` | src/backend/mod.rs:99-134 | one event takes the objects of a copy through one step of the machine |
| `Service.AnswerIsExact` | src/router.rs:224-248 | every request and its answer: what is refused as what, in which order, changing nothing; any other request copies from the place of its source to that of its destination and is answered by how the copy ends |
| `Service.CopyIsAnswered` | src/router.rs:224-248 | with nothing in the way and no stall, a copy that runs to its end is answered with all bytes if and only if they are within the cap, and else with the cap |
| `Service.EveryCopyCanBeServed` | src/router.rs:224-248 | every request with nothing in its way has such a run, of at most `2 * max + 4` events |
| `Service.StallIsAnswered` | src/backend/mod.rs:93-112 | the answer is a timeout if and only if the source stalled |
| `Service.CopyFile` | src/router.rs:224-248 | the handler, guards first, changes the stores and replies as the request function says |
| `Service.LocateIsBeneath` | src/backend/fs.rs:32-77 | the place a resolved path is given is where its normal form leads, below the root or the canonical root |
| `Service.CopiesBetweenFileAndObject` | src/router.rs:228-235 | a request that copies passed the guards and names one file beneath the root and one object with the key of its path |
| `Service.ServiceOnlyMovesPieces` | src/router.rs:224-248 | over any run of requests with any failures nothing is lost, every content is a beginning of one stored at the start, and what changed is within the cap |
| `Service.CopyThenRead` | src/router.rs:237-247 | after a successful copy the destination reads as the source did, the source still does, and the count is the size |
| `Service.CopyThenList` | src/backend/mod.rs:42-58 | after a successful copy to a name without a slash the listing of the destination has it exactly once, with the count as its size |
| `Concurrent.InterleavingIsSolo` | src/backend/mod.rs:99-134 | copies of which no two write one place and none reads a written place: however their steps interleave, each is where it would be alone, its target holds what it would hold, nothing else changes |
| `Concurrent.ConcurrentRepliesAreSolo` | src/router.rs:224-248 | independent requests served at once: each plan is the same at any moment, each reply that of the request served alone |
| `Concurrent.ConcurrentCopiesOnlyMovePieces` | src/router.rs:224-248 | at any moment of independent requests served at once, nothing is lost, every content is a beginning of one stored at the start, and what changed is within the cap |
| `Trace.ExtractIsExact` | src/trace_headers.rs:38-53 | a header of four parts gives its second as the id, in small letters, if and only if that is 32 hexadecimal digits and all of the header is visible ASCII |
| `Trace.OtherHeadersGiveNone` | src/trace_headers.rs:38-53 | no header, or one without exactly three dashes, gives a fresh id |
| `Trace.PartsOfTraceParent` | src/trace_headers.rs:22 | the emitted header is `00`, the trace id, the span id and `01`, between dashes |
| `Trace.ExtractYieldsTraceId` | src/trace_headers.rs:38-53 | whatever the header, the trace id is 32 lowercase hexadecimal digits |
| `Trace.EmitThenExtract` | src/trace_headers.rs:19-53 | reading an emitted header gives back its trace id |
| `Trace.HopsShareTraceId` | src/trace_headers.rs:19-53 | along any chain of services all report the trace id of the first |
| `Trace.HexReadsBack` | src/trace_headers.rs:56-71 | every byte is written as two digits, the greater first, that read back in base 16 to its value |
| `Trace.HexIsInjective` | src/trace_headers.rs:56-71 | different bytes are written differently |
| `Trace.RandomBytes` | src/trace_headers.rs:86-95 | the loop fills the array with the low bytes of the successive states |
| `Trace.DrawIsExact` | src/trace_headers.rs:86-95 | byte `i` drawn is the lowest eight bits of state `i + 1`, each state the step of the one before |
| `Trace.XorshiftTaps` | src/trace_headers.rs:89-92 | the three shifts together: which bits of a state make up each bit of the next |
| `Trace.XorshiftIsBijective` | src/trace_headers.rs:89-92 | one step permutes the 64-bit states, with an explicit inverse |
| `Trace.NineBytesDetermine` | src/trace_headers.rs:86-95 | `n` bytes determine their seed, whatever it is, if and only if `n` is at least nine |
| `Trace.ZeroBytes` | src/trace_headers.rs:86-95 | `n` bytes from a seed are all zero if and only if the lowest `7 n + 1` bits of the first state, or all 64 if fewer, are zero |
| `Trace.ZeroSpanId` | src/trace_headers.rs:55-62 | a seed other than zero yields a span id of zeros alone |
| `Trace.ZeroTraceId` | src/trace_headers.rs:64-96 | all bytes of a trace id are zero if and only if the seed is |
| `Trace.LowBitIsForetold` | src/trace_headers.rs:86-95 | the lowest bit of each byte after the first is fixed by the byte before it |
| `Trace.FreshIds` | src/trace_headers.rs:55-71 | minted identifiers have the form of the header, and two trace ids are equal if and only if their seeds are |

## Left out

- HTTP wiring, middleware order, security headers, access log, authentication, signals and shutdown.
- The internals of the AWS SDK, of `tokio` and of `tokio_io_timeout`, beyond the contracts above.
- The kernel's part of the filesystem: links that appear between check and open, races in `readdir`,
  `create_dir_all`, lossy file names. A directory is one snapshot with distinct names; a failing call is
  an event, and so is a destination whose parent cannot be made.
- Two copies at once of which one writes what the other writes or reads, which the code does not make
  atomic.
- Path hashing for the audit log, durations, the offline backend, wall-clock seeds and the process
  counter; the seed of the generator is a parameter.
- Boot warnings, doctor, diagnose, configuration, the error status table and message clipping: finite
  tables and straight-line checks.
- Deserialisation of queries and bodies.
