# The leveldb storage-environment layer, modelled in Dafny

This project models the resource layer underneath a small leveldb port
(namespace `czy_leveldb`):

- **`Slice`** is the borrowed byte view the rest of the code passes around.
  The model covers its constructors, `remove_prefix`, `clear`, `compare`,
  `starts_with`, `==` and `!=`.
- **The POSIX environment** comprises:
  - `PosixError`, the errno-to-status translation;
  - the `Limiter` admission counter;
  - the sequential, random-access and memory-mapped read-only files;
  - the write loop of the writable file.
- **The generic `Env` helpers** are `WriteStringToFile(Sync)`,
  `ReadFileToString`, `Log` and the default `NewAppendableFile`.
- **The POSIX logger** covers Logv's header and buffer sizing, the retry with
  a heap buffer, and the final-newline rule.
- **The `Cache` interface** is covered as a contract: a map from keys to
  reference-counted entries, where handles are released exactly once and an
  erased entry outlives its handles.

System calls, the Env's primitive operations and the clock are not
executed. Each method takes the answers they would give as a scripted
parameter: the kernel's reply to each `read`, `write` or `open`, or the
statuses of `NewWritableFile`, `Append`, `Sync` and `Close`. The file
methods and the Env helpers return the trace of calls they issued, in order.
Two exceptions: `PosixRandomAccessFile`'s constructor and `Destroy` record
the descriptors they close only in the ghost field `closed`, and the
`Limiter` issues no call and returns no trace. Exhausted scripts end
benignly: a read reaches end of file, and a write is taken whole. This keeps
every loop terminating.

Files and modules:

| file | module | what |
|---|---|---|
| `status.dfy` | `Statuses`, `Options` | `Status` (OK and five error kinds), `Option` |
| `slice.dfy` | `Slices` | bytes, `memcmp`, the `Slice` class and its lemmas |
| `env_posix.dfy` | `EnvPosix` | `PosixError`, `Limiter`, the POSIX file classes, the `WriteLoop` predicate, two findings |
| `posix_logger.dfy` | `PosixLogging` | the header, `snprintf`, Logv's two-pass formatting, `PosixLogger` |
| `env.dfy` | `Env` | `DoWriteStringToFile` and its wrappers, `ReadFileToString`, `Log`, `NewAppendableFile` |
| `cache.dfy` | `Caches` | the cache state, its invariant, its transitions with their preservation lemmas, the `Cache` class |

The write loop of `PosixWritableFile` is specified by the predicate
`WriteLoop`. It states that:

- the first call writes all the data;
- each further call writes what the previous one left;
- an interrupted call is issued again unchanged;
- the loop stops at the first hard failure, or with OK once nothing is left.

The lemmas `AcceptedThenCall` and `WrittenInOrder` prove from it that OK
means the kernel took exactly the data, in order.

`DoWriteStringToFile` is proved equal to the function `WriteOutcome`. The
lemmas about that function state the Sync, Close and RemoveFile rules, each
as an if-and-only-if.

The cache interface has no implementation in the sources, so `Caches.Cache`
is a reference reading of the interface comments and never evicts:

- **Entries and handles.** A handle is an entry number. Insert and Lookup
  raise the entry's reference count, and Release lowers it.
- **The deleter.** Each call to the deleter is recorded in `deleted`.
- **The invariant** (`Inv`) says:
  - stored keys lead to entries holding the presented value and charge;
  - reference counts equal the number of outstanding handles;
  - no entry is leaked (an unreferenced entry is still stored);
  - every outstanding handle refers to a live entry;
  - `usage` is the sum of the stored charges.
- **The transitions.** Each one (`Unlinked`, `Added`, `Inserted`,
  `Referenced`, `Released`) is a function on the state. Each has lemmas
  proving that it keeps every part of `Inv`.

Two points about how the code is read:

- The unbuffered write at util/env_posix.cc:226-229 does not re-issue a
  `write` interrupted by EINTR. The `read` loop at util/env_posix.cc:103-109
  does re-issue its call with the same `continue`, which shows the intent.
  See "## Findings": the code as written is modelled by
  `WriteUnbufferedAsWritten`, and the method the rest of the model uses is
  the corrected one.
- The code does not compile as written in one place: `Silce(scratch,
  read_size)` at util/env_posix.cc:113 is read as `Slice`. The class name
  `PosixSquentialFile` (spelt consistently at util/env_posix.cc:93 and 95)
  is renamed `PosixSequentialFile` in the model.

## Model

| member | source | states |
|---|---|---|
| `Slices.Memcmp` | include/leveldb/slice.h:76 | zero iff the first n bytes agree; otherwise its sign is that of the first differing pair, compared unsigned |
| `Slices.Slice.Empty` | include/leveldb/slice.h:14 | the default constructor views no bytes |
| `Slices.Slice.FromBytes` | include/leveldb/slice.h:15 | `Slice(d, n)` views exactly the first n bytes at d |
| `Slices.Slice.FromString` | include/leveldb/slice.h:16 | a slice of a string views all of its bytes |
| `Slices.Slice.FromCString` | include/leveldb/slice.h:17 | a slice of a C string views the bytes before its first NUL, and no NUL |
| `Slices.Strlen` | include/leveldb/slice.h:17 | strlen is the position of the first NUL, and no NUL comes before it |
| `Slices.Slice.Copy` | include/leveldb/slice.h:20 | the copy constructor makes a second view of the same memory, start and size |
| `Slices.Slice.Assign` | include/leveldb/slice.h:21 | copy assignment makes this view the same memory, start and size as the right-hand side |
| `Slices.Slice.Size` | include/leveldb/slice.h:26 | size() is the length of the view |
| `Slices.Slice.IsEmpty` | include/leveldb/slice.h:29 | empty() holds iff the view has no bytes |
| `Slices.Slice.At` | include/leveldb/slice.h:31-34 | `operator[]` requires n below the size and returns byte n of the view |
| `Slices.Slice.Clear` | include/leveldb/slice.h:36-39 | afterwards the view is empty with size 0 |
| `Slices.Slice.RemovePrefix` | include/leveldb/slice.h:42-47 | requires n at most the size; afterwards the view is the old view without its first n bytes, and the size is n smaller |
| `Slices.Slice.ToString` | include/leveldb/slice.h:49-51 | the copied string is exactly the viewed bytes, of the same length |
| `Slices.Slice.StartsWith` | include/leveldb/slice.h:56-58 | holds iff x is no longer than the view and the view's first x.size bytes are x's bytes |
| `Slices.Slice.Compare` | include/leveldb/slice.h:74-86 | zero iff the views are equal; the first differing byte decides; with no difference in the common prefix, the shorter view is less |
| `Slices.Equal` | include/leveldb/slice.h:65-67 | `==` holds iff the two views are the same byte sequence |
| `Slices.NotEqual` | include/leveldb/slice.h:69-71 | `!=` is exactly the negation of `==` |
| `Slices.CompareAntisymmetric` | include/leveldb/slice.h:74-86 | swapping the operands of compare flips the sign of the result |
| `Slices.CompareZeroIffEqual` | include/leveldb/slice.h:65-86 | compare returns 0 exactly when `==` holds |
| `Slices.PrefixComparesLess` | include/leveldb/slice.h:56-86 | a proper prefix (by starts_with) compares less than the view, and the view greater than it |
| `EnvPosix.PosixError` | util/env_posix.cc:46-53 | NotFound iff the errno is ENOENT, IOError for every other errno; never OK; carries the context and the errno's text |
| `EnvPosix.Delivered` | util/env_posix.cc:104 | a read of at most n bytes delivers a prefix of the kernel's data of length at most n, and all of that data when it fits |
| `EnvPosix.Limiter.constructor` | util/env_posix.cc:56-63 | requires a non-negative budget; the allowance starts at the budget |
| `EnvPosix.Limiter.Acquire` | util/env_posix.cc:67-77 | succeeds iff the allowance was positive; a success lowers it by one, and a denial leaves it unchanged after the net -1 +1 |
| `EnvPosix.Limiter.Release` | util/env_posix.cc:79-83 | requires the allowance below the budget (over-release is a contract violation) and raises it by one |
| `EnvPosix.LimiterBudget` | util/env_posix.cc:56-83 | with budget N and no releases, the first N Acquires succeed and the next fails; after one Release an Acquire succeeds |
| `EnvPosix.FirstUninterrupted` | util/env_posix.cc:103-109 | the index of the first read answer that is not EINTR: every earlier answer is EINTR |
| `EnvPosix.PosixSequentialFile.constructor` | util/env_posix.cc:95-98 | the file keeps the descriptor and the name it was given |
| `EnvPosix.PosixSequentialFile.Read` | util/env_posix.cc:101-117 | read is re-issued exactly as long as it is interrupted; then either OK with at most n of the bytes read, or PosixError of the errno with no bytes |
| `EnvPosix.PosixSequentialFile.Skip` | util/env_posix.cc:119-124 | a single lseek by n; OK iff it succeeded, otherwise PosixError of its errno |
| `EnvPosix.PosixSequentialFile.Destroy` | util/env_posix.cc:99 | the destructor closes the descriptor |
| `EnvPosix.PosixRandomAccessFile.constructor` | util/env_posix.cc:136-144 | the descriptor is kept iff the limiter grants a slot (which costs one unit); otherwise the field is -1 and the descriptor is closed at once |
| `EnvPosix.PosixRandomAccessFile.Destroy` | util/env_posix.cc:145-151 | closes the permanent descriptor and releases its slot exactly when one was held |
| `EnvPosix.PosixRandomAccessFile.Read` | util/env_posix.cc:153-175 | preads through the permanent descriptor, or opens, preads and closes a temporary one; an open failure returns PosixError and nothing else is called; a failed pread yields no bytes and PosixError |
| `EnvPosix.RandomAccessFileLifetime` | util/env_posix.cc:136-151 | constructing and destroying a file leaves the limiter's allowance as it was: each granted slot is given back once |
| `EnvPosix.PosixMmapReadableFile.constructor` | util/env_posix.cc:185-192 | the file keeps the name, the mapped region and the limiter |
| `EnvPosix.PosixMmapReadableFile.Destroy` | util/env_posix.cc:193-196 | unmaps the whole region and returns one limiter slot |
| `EnvPosix.PosixMmapReadableFile.Read` | util/env_posix.cc:198-206 | OK iff offset + n is within the mapping, and then exactly bytes [offset, offset + n); otherwise no bytes and the EINVAL error (bound checked without wrap-around) |
| `EnvPosix.RefusedAsWritten` | util/env_posix.cc:199 | the source's refusal test `offset + n > length_` on 64-bit unsigned operands; whenever the sum does not wrap it is exactly the intended test |
| `EnvPosix.ReadPassesBoundsCheckAsWritten` | util/env_posix.cc:199 | with 64-bit wrap-around, offset 2^64-1 and n 1 pass the source's check against a mapping of length 0 |
| `EnvPosix.PosixWritableFile.constructor` | util/env_posix.cc:241-247 | the model's own initial state for the declared fields (the source has no constructor): a fresh 65536-byte buffer, pos 0, the given descriptor, name, manifest flag and directory |
| `EnvPosix.PosixWritableFile.WriteUnbuffered` | util/env_posix.cc:223-236 | the issued writes and the status satisfy WriteLoop: each call writes what the previous left, EINTR re-issues, and the first hard failure is reported |
| `EnvPosix.PosixWritableFile.FlushBuffer` | util/env_posix.cc:217-221 | writes buf[0..pos) by the write loop and resets pos to 0 whatever the outcome |
| `EnvPosix.AcceptedThenCall` | util/env_posix.cc:223-236 | before each call of the write loop, the bytes the kernel took so far followed by the call's bytes are exactly the data |
| `EnvPosix.WrittenInOrder` | util/env_posix.cc:223-236 | the write loop reports OK only after the kernel took exactly the data, in order |
| `EnvPosix.InterruptedWriteIsReissued` | util/env_posix.cc:226-229 | one interrupted write followed by a complete one: OK, and the same write issued twice |
| `EnvPosix.RetrySpinsAsWritten` | util/env_posix.cc:226-229 | the inner retry loop as written never ends on EINTR, whatever the number of steps allowed |
| `EnvPosix.WriteUnbufferedAsWritten` | util/env_posix.cc:223-236 | the write loop as written, run for a bounded number of steps: it never reports EINTR as an error, and any failure it reports names the file |
| `EnvPosix.RetryAsWritten` | util/env_posix.cc:226-229 | the inner retry loop as written returns iff the errno is not EINTR (and a step is left), and then returns PosixError of that errno |
| `EnvPosix.InterruptedWriteHangsAsWritten` | util/env_posix.cc:223-236 | the write loop as written never returns once its first write is interrupted |
| `PosixLogging.TruncatedThreadId` | util/posix_logger.h:29-35 | the printed thread id is its first at most 32 characters; shorter ids are kept whole |
| `PosixLogging.Header` | util/posix_logger.h:44-51 | the header is the timestamp, a space, the truncated id and a space; for a 26-character timestamp it is at most 28 + 32 < 512 characters |
| `PosixLogging.LineEndsWithNewline` | util/posix_logger.h:65-68 | the written line starts with the formatted text and ends with a newline, added iff the text did not end with one |
| `PosixLogging.Snprintf` | util/posix_logger.h:44-54 | writes the first min(length, size - 1) characters and a NUL, touches nothing else, and returns the full length |
| `PosixLogging.FormatInto` | util/posix_logger.h:44-55 | one pass returns the header length plus the message length; when that leaves room for a newline, the buffer starts with header and message |
| `PosixLogging.Terminate` | util/posix_logger.h:65-69 | the bytes handed to fwrite are the formatted text plus a newline iff its last byte is not one |
| `PosixLogging.FormatLine` | util/posix_logger.h:36-76 | the line written is Line(...); two passes iff the formatted length is at least 511, the heap buffer is allocated and freed iff the second pass ran, and its length never exceeds the buffer used |
| `PosixLogging.PosixLogger.constructor` | util/posix_logger.h:18-19 | a new logger has written nothing |
| `PosixLogging.PosixLogger.Logv` | util/posix_logger.h:21-77 | appends exactly one formatted line to the file |
| `Env.NewAppendableFile` | util/env.cc:11-13 | the default refuses with NotSupported, naming the file |
| `Env.DoWriteStringToFile` | util/env.cc:45-63 | its status and call trace are exactly WriteOutcome: open, then Append, Sync and Close up to the first failure, delete, and RemoveFile when the result is not OK |
| `Env.OpenFailureReturnedAtOnce` | util/env.cc:47-50 | an open failure is returned unchanged, nothing else is called and nothing is removed |
| `Env.SyncAndCloseOnlyAfterSuccess` | util/env.cc:51-57 | Sync is called iff the open succeeded, a sync was asked for and Append succeeded; Close is called iff every earlier step succeeded |
| `Env.RemovedIffFailed` | util/env.cc:55-62 | after a successful open, the file is removed iff the final status is not OK, which happens iff some step failed |
| `Env.WriteStringToFile` | util/env.cc:66-68 | the write without sync; Sync is never called |
| `Env.WriteStringToFileSync` | util/env.cc:70-72 | the write with sync; Sync is called whenever the open and Append succeed |
| `Env.StopIndex` | util/env.cc:83-93 | the index of the first read that fails or returns an empty fragment; every earlier read succeeded with a non-empty one |
| `Env.ReadFileToString` | util/env.cc:74-97 | data starts empty; an open failure is returned with no data; otherwise 8198-byte reads run to the first failing or empty one, data is the fragments before it, the status is that read's, and the file object is deleted |
| `Env.ReadsWholeFile` | util/env.cc:83-93 | a file read as non-empty chunks and then its end yields OK and the concatenation of the chunks |
| `Env.ReadErrorKeepsEarlierFragments` | util/env.cc:85-88 | a read error stops the loop at that read, returns its status, and keeps only the earlier fragments |
| `Env.StopIndexIsFirst` | util/env.cc:83-93 | the loop stops exactly at the first read that fails or returns nothing |
| `Env.Log` | util/env.cc:34-42 | with a logger, exactly one formatted line is appended; with a null logger nothing changes |
| `Caches.UnlinkedKeeps` | include/leveldb/cache.h:38-41 | erasing a stored key keeps the whole cache invariant (no leak, counts, links, usage as a sum) |
| `Caches.AddedKeeps` | include/leveldb/cache.h:23-24 | storing a fresh entry under an absent key keeps the invariant |
| `Caches.InsertedKeeps` | include/leveldb/cache.h:23-24 | Insert of any key, replacing what was stored there, keeps the invariant |
| `Caches.InsertedContents` | include/leveldb/cache.h:23-24 | after Insert the key maps to the new value and charge; an old unreferenced entry for the key goes to the deleter |
| `Caches.InsertedHandles` | include/leveldb/cache.h:23-24 | Insert hands out exactly one new handle, not outstanding before, whose entry holds the value |
| `Caches.InsertedKeepsValues` | include/leveldb/cache.h:38-41 | Insert leaves every outstanding handle's entry alive with its value, even when it erases that entry's key |
| `Caches.ReferencedKeeps` | include/leveldb/cache.h:25 | handing out one more handle to a live entry keeps the invariant |
| `Caches.ReleasedKeeps` | include/leveldb/cache.h:27-30 | releasing an outstanding handle keeps the invariant, so no released entry is leaked or kept |
| `Caches.Cache.constructor` | include/leveldb/cache.h:17 | a new cache holds nothing and has handed out no handle and no id |
| `Caches.Cache.Value` | include/leveldb/cache.h:32-36 | requires an outstanding handle; its entry is alive, and while that entry is still stored its value is the value stored under its key |
| `Caches.Cache.TotalCharge` | include/leveldb/cache.h:56-58 | the combined charge of the stored entries |
| `Caches.Cache.Insert` | include/leveldb/cache.h:22-24 | the key maps to the value and charge; the returned handle is new, is the entry now stored under the key, and yields the value; the table changes only at the key; other handles keep their entries' keys and values; a replaced unreferenced entry goes to the deleter |
| `Caches.Cache.Lookup` | include/leveldb/cache.h:25 | None iff the key is not stored; otherwise a new handle to the entry stored under the key, whose Value is the stored value; the contents and the table do not change, and other handles keep their entries' keys and values |
| `Caches.Cache.Release` | include/leveldb/cache.h:27-30 | requires an outstanding handle and removes one copy of it; the table, and the keys and values of the remaining handles' entries, do not change; the entry goes to the deleter iff it was its last reference and it is no longer stored |
| `Caches.Cache.Erase` | include/leveldb/cache.h:38-41 | the key is no longer stored and the table loses only that key; every outstanding handle keeps its entry's key and value; the entry goes to the deleter at once iff no handle refers to it |
| `Caches.EraseDefersDeleter` | include/leveldb/cache.h:23-41 | Insert, Erase, then Release of the handle: nothing reaches the deleter at the Erase, and the entry's key and value reach it at the Release |
| `Caches.Cache.NewId` | include/leveldb/cache.h:43-47 | an id not returned before; nothing else changes |
| `Caches.Cache.Prune` | include/leveldb/cache.h:49-54 | the default Prune changes nothing |

## Left out

- **Concurrency.** The `Limiter` counter is atomic with relaxed ordering in the source. It is modelled as a sequential counter, and cross-thread interleavings are not represented.
- **System calls and the clock.**
  - The system calls, `fwrite` and `fflush`, `gettimeofday` and `localtime_r` are scripted parameters or traces.
  - `fwrite` and `fflush` are assumed to succeed; the source ignores their results.
  - The `mmap` region is a sequence of bytes with no address.
- **Error text.** `strerror` text is represented by the errno it describes (`ErrnoText`).
- **Logging.**
  - `Log` and `Logv` receive the message already formatted: printf-style formatting and `va_list` handling are not modelled.
  - The timestamp arrives rendered.
  - The thread id arrives as a string.
- **Integer widths.** `size_t`, `ssize_t`, `off_t` and `int` widths are not modelled; lengths and offsets are unbounded naturals. Width matters in these places, which the model does not capture:
  - `Skip` at util/env_posix.cc:120 and `PosixRandomAccessFile::Read` at :165 cast a `uint64_t` to the signed `off_t`, so a value of 2^63 or more becomes a negative seek or offset; the trace records it as a natural;
  - Logv at util/posix_logger.h:39-59 keeps the lengths in `int` (`buffer_offset`, `dynamic_buffer_size = buffer_offset + 2`), which overflows for a message near 2^31 bytes;
  - the 64-bit id of `NewId` (see the `Caches.Cache.NewId` line below);
  - the mmap bound at util/env_posix.cc:199, the only one raised as a finding (see "## Findings").
- **Empty and default bodies.** These are not modelled:
  - `PosixWritableFile::SyncDirIfManifest` (util/env_posix.cc:238-240) has an empty body and no return statement;
  - the defaulted constructors and destructors of `Env`, the file classes, `Logger`, `FileLock` and `EnvWrapper` (util/env.cc:7-9, 20-28, 98);
  - the `PosixLogger` destructor's `fclose` (util/posix_logger.h:20).
- **Mutual recursion.** The default `Env::RemoveDir`, `Env::RemoveFile` and `Env::DeleteFile` (util/env.cc:15-18) call each other or an undefined `DeleteDir`. They terminate only when a subclass overrides one of them. In `DoWriteStringToFile` the file system is not executed, and `RemoveFile` appears only as a recorded call.
- **Source files outside this model.**
  - `port/port.h` and `include/leveldb/dumpfile.h` are not part of this model.
  - `include/cache.h` is a stub duplicating part of the interface and is not modelled.
  - `NewLRUCache` is only declared, and no cache implementation is part of this model. Capacity, eviction, sharding and the order of deleter calls beyond the interface's promises are not represented.
- `EnvPosix.PosixSequentialFile.Read`: on a read error the source leaves `*result` untouched; the model returns an empty fragment.
- `EnvPosix.PosixRandomAccessFile.Read`: when the temporary `open` fails, the source leaves `*result` untouched; the model returns no bytes.
- `Caches.Cache.NewId`: does not model the wrap-around of the 64-bit id; ids are unbounded naturals, so a returned id is always new.
- `Slices.Slice.At`: returns a `byte` in 0..255, where the source's `char operator[]` (include/leveldb/slice.h:31) returns a plain `char`, which is signed on most Linux targets; the sign of bytes above 127 is not modelled.
- `Caches.Cache.Lookup`: a handle is the entry's number; the source's `Handle*` pointers and their identity are not modelled. Two handles to one entry are the same number counted twice in `outstanding`.
- `Caches.Cache.Insert`: drops the per-entry `deleter` argument. Every deleter call is recorded in the one log `deleted` as (key, value), so the model does not state that the deleter passed with an entry is the one called for it. `Erase` and `Release` state their deleter calls through the same log.
- `EnvPosix.PosixWritableFile.constructor`: the source declares no constructor (util/env_posix.cc:241-247 are field declarations, and nothing sets `pos_`); the model assumes a fresh buffer and `pos = 0`.
- **Slice lifetime and aliasing.** A `Slice` holds the viewed bytes as a value (`mem: seq<byte>`), where the source borrows a pointer. Later writes to the referenced memory, or its release (as `delete[] space` at util/env.cc:94 releases `ReadFileToString`'s scratch buffer), are not represented, so neither are dangling slices.
- `Caches.Cache.TotalCharge`: returns the exact combined charge; the interface promises only an estimate.
- `PosixLogging.FormatLine`: requires a timestamp of at most 26 characters, which means a four-digit year. The source makes the same assumption in its assert at util/posix_logger.h:50.
- `EnvPosix.PosixWritableFile.WriteUnbuffered`: models the corrected loop, which re-issues an interrupted write. The loop as written is `EnvPosix.WriteUnbufferedAsWritten` (see "## Findings").

## Findings

| source | as written | input that shows it | evidently intended | confidence | as-written member | corrected member |
|---|---|---|---|---|---|---|
| util/env_posix.cc:226-229 | when `write` fails with EINTR, the inner `while (write_result < 0)` loop continues without calling `write` again, so neither `write_result` nor `errno` changes and the loop never ends | non-empty data whose first `write` returns -1 with errno EINTR | issue the same `write` again, as the `read` retry loop at util/env_posix.cc:103-109 does | not executed | `EnvPosix.InterruptedWriteHangsAsWritten` | `EnvPosix.PosixWritableFile.WriteUnbuffered` |
| util/env_posix.cc:199 | the bound `offset + n > length_` is computed in 64-bit unsigned arithmetic and can wrap | offset = 2^64-1, n = 1, length_ = 0: the sum wraps to 0, the check passes, and the slice's offset lies far beyond the end of the mapping, and its address `mmap_base_ + offset` wraps to one byte below the mapping | refuse unless offset <= length_ and n <= length_ - offset | not executed | `EnvPosix.ReadPassesBoundsCheckAsWritten` | `EnvPosix.PosixMmapReadableFile.Read` |
