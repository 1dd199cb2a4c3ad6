# piwheels core, modelled in Dafny

piwheels builds Python wheels for the Raspberry Pi. A master hands out
build jobs to worker machines ("slaves"), receives the wheels they build,
and writes a static package index with per-project JSON. This project
models the sequential logic at the heart of that system:

- **The master's file receiver** (`MasterTransfer`): the credit-driven
  chunked upload of a built wheel. The state is the received file, the
  credit, the search offset and the sorted list of byte ranges still
  missing. `fetch` chooses the next range to request, `chunk` stores the
  data received, `reset_credit` refills the credit and `done` tells when
  the upload is complete.
- **The master's worker sessions** (`MasterSlaves`): worker ids from a
  class-wide counter, and the per-worker state (current build, transfer,
  termination) updated by the `request` and `reply` setters. It also
  holds the reply the driver loop chooses for each worker message.
- **The scribe's helpers** (`Scribe`): PEP 503 name normalisation, the
  `grouper` recipe, and the fold of flat database rows into the nested
  version → ABI → platform JSON data. Also the file and version counts
  written beside that data.
- **The worker's build** (`SlaveBuilder`): how a wheel's file name is
  split into its PEP 427 / PEP 425 tags, the pip command line, what
  `Builder.run` leaves behind, and the grouping of shared-library
  dependencies.

Supporting modules:

- `Wrappers`: `Option` and `Result`.
- `Ranges`: Python `range` values and the `intersect`/`exclude` operations on them.
- `Dicts`: insertion-ordered dictionaries as sequences of pairs, so the JSON key order is modelled.
- `Strings`: `str.split`, `Path.stem`, string ordering and `sorted` over a set.

## Model

| member | source | states |
|---|---|---|
| Ranges.Intersect | piwheels/master/__init__.py:561 | A position is in the intersection exactly when it is in both ranges; the result lies within each |
| Ranges.Exclude | piwheels/master/__init__.py:575 | Removing a range from a sorted, disjoint list of non-empty ranges keeps it sorted and disjoint; a position stays missing exactly when it was missing and is outside the removed range |
| MasterTransfer.InitialCredit | piwheels/master/__init__.py:542 | A new transfer's credit is between 1 and the pipeline size; it exceeds 1 only when that many whole chunks fit in the file, and it is below the pipeline size only when one more chunk would not fit, so it is the number of whole chunks clamped to 1..10 |
| MasterTransfer.InitialMissing | piwheels/master/__init__.py:548 | A new transfer misses exactly the bytes 0 to filesize; the list is empty only for an empty file and otherwise equals the source's `[range(filesize)]` |
| MasterTransfer.Overwrite | piwheels/master/__init__.py:573-574 | `seek` plus `write`: the data lands at the offset, every other byte keeps its value, a gap past the old end reads as zero, and the length is the larger of old end and write end |
| MasterTransfer.Sweep | piwheels/master/__init__.py:560-566 | One pass of the search loop finds a non-empty piece of one missing range, at most one chunk long and not before the window; or it ends with a window that has only moved forward |
| MasterTransfer.FetchResult | piwheels/master/__init__.py:554-570 | With credit, `fetch` answers `None` exactly when nothing is missing |
| MasterTransfer.WrapSweepFindsHead | piwheels/master/__init__.py:567-568 | The second pass, restarted at the first missing range, always finds that range's first chunk, so the `while True` loop runs at most twice |
| MasterTransfer.FetchWithinMissing | piwheels/master/__init__.py:558-570 | Every range fetched is non-empty, at most one chunk, inside one missing range, made only of missing bytes, and starts at or after the offset unless it is the first missing range's first chunk |
| MasterTransfer.SweepSkipsEarlier | piwheels/master/__init__.py:560-566 | Missing ranges ending at or before the offset are passed over without moving the window |
| MasterTransfer.FetchAtOffset | piwheels/master/__init__.py:558-566 | When the offset is itself missing, `fetch` asks for the chunk that starts at the offset, cut at the end of its range |
| MasterTransfer.FetchWraps | piwheels/master/__init__.py:558-570 | When nothing missing lies at or after the offset, `fetch` wraps to the first chunk of the first missing range |
| MasterTransfer.ZeroSizeFetchNeverEnds | piwheels/master/__init__.py:548-570 | For an empty file the source's `[range(0)]` makes both passes of `fetch` end with the same window, so the loop never ends, and the list is not well formed |
| MasterTransfer.SweepLoop | piwheels/master/__init__.py:560-566 | The `for` loop computes the pass `Sweep` describes |
| MasterTransfer.TransferState.constructor | piwheels/master/__init__.py:535-548 | A new transfer holds a zero-filled file of the given size, the initial credit, offset 0 and every byte missing |
| MasterTransfer.TransferState.Done | piwheels/master/__init__.py:550-552 | The transfer is done exactly when no byte is missing |
| MasterTransfer.TransferState.Fetch | piwheels/master/__init__.py:554-570 | With no credit, `fetch` returns `None` and changes nothing; otherwise it spends exactly one credit, returns `FetchResult` of the missing list and the old offset, and moves the offset to the result's end; credit never goes negative and the file and missing list do not change |
| MasterTransfer.TransferState.Chunk | piwheels/master/__init__.py:572-579 | `chunk` overwrites exactly the received bytes and removes exactly that interval from the missing list; credit becomes 0 when nothing is missing, else one more than before, even for a duplicate chunk |
| MasterTransfer.TransferState.ResetCredit | piwheels/master/__init__.py:581-588 | Credit is refilled to the pipeline size only when it is 0; nothing else changes |
| MasterSlaves.StampBuild | piwheels/master/__init__.py:511-512 | The build recorded from a `BUILT` message carries the worker's own id and the message's package, version, status, file name, size and hash |
| MasterSlaves.SlaveCounter.constructor | piwheels/master/__init__.py:467 | The class-wide counter starts at 0 with no id handed out |
| MasterSlaves.SlaveState.constructor | piwheels/master/__init__.py:470-478 | A new worker gets the counter plus one as its id, larger than every id handed out before, with no build, no transfer and not terminated |
| MasterSlaves.SlaveState.Kill | piwheels/master/__init__.py:480-481 | `kill` sets the terminated flag and touches nothing else; no other operation clears it |
| MasterSlaves.SlaveState.SetRequest | piwheels/master/__init__.py:508-512 | The request setter records the message and the time; a `BUILT` message records the build stamped with the worker's id |
| MasterSlaves.SlaveState.SetReply | piwheels/master/__init__.py:519-525 | A `SEND` reply starts a fresh transfer of the build's file: zero-filled, every byte missing, the initial credit and offset 0; a `DONE` reply clears the build and the transfer; any other reply keeps both |
| MasterSlaves.DecideReply | piwheels/master/__init__.py:242-282 | The reply table as if-and-only-ifs. `HELLO` always gets the worker's own id, and only `HELLO` gets a `HELLO` reply. `IDLE` gets `BYE` exactly when terminated; `SLEEP` exactly when live and either paused or the queue is empty; work exactly when live, not paused and the queue has an item, which is then the item handed out. `BUILT` or `SENT` get `SEND` or `DONE` by build status and verification. `BYE`, an unknown message and a `SENT` without a transfer get no reply |
| MasterSlaves.DecideReplyAsWritten | piwheels/master/__init__.py:281-284 | As written, an unknown message from a known worker is answered with the reply the loop sent before; any other message gets the table's reply, and none exactly for `BYE` and a `SENT` without a transfer |
| MasterSlaves.UnknownMessageGetsStaleSend | piwheels/master/__init__.py:281-284 | As written, a stale `SEND` is chosen for a worker with no build, where the corrected choice sends nothing |
| MasterSlaves.UnknownMessageGetsStaleReply | piwheels/master/__init__.py:281-284 | As written, an unknown message from a known worker is answered with the reply left over from the previous message, here another worker's `HELLO` |
| MasterSlaves.Exchange | piwheels/master/__init__.py:240-284 | One message from a known worker: request setter, reply choice, reply setter; the reply sent is the table's and the time of the message is recorded; `SEND` leaves a fresh transfer of the build's file, zero-filled, with every byte missing, the initial credit and offset 0; `DONE` leaves neither build nor transfer; a message other than `BUILT` keeps the build unless answered `DONE`, and every reply other than `SEND` and `DONE` keeps the transfer |
| Strings.Split | piwheels/slave/builder.py:76 | `str.split` with one separator character gives at least one piece and no piece holds the separator |
| Strings.JoinSplit | piwheels/slave/builder.py:76 | Joining the pieces of a split with the separator gives back the string |
| Strings.SplitJoin | piwheels/slave/builder.py:76 | Splitting a join of separator-free pieces gives back the pieces |
| Strings.RFind | piwheels/slave/builder.py:76 | The index of the last occurrence of a character, or -1 when it does not occur |
| Strings.Stem | piwheels/slave/builder.py:76 | `Path.stem`: the part before the name's last dot exactly when that dot is neither first nor last, so the suffix removed is non-empty and holds no dot; otherwise the name itself |
| Strings.LessTransitive | piwheels/slave/builder.py:482-483 | Python's string order is transitive |
| Strings.LessTotal | piwheels/slave/builder.py:482-483 | Any two different strings are ordered one way or the other |
| Strings.Insert | piwheels/slave/builder.py:482-483 | Inserting into a strictly sorted list keeps it strictly sorted and adds exactly the new element |
| Strings.SortedList | piwheels/slave/builder.py:482-483 | `sorted` of a set is strictly increasing and holds exactly the set's elements |
| SlaveBuilder.RetireNoabi | piwheels/slave/builder.py:77-79 | The second-last part becomes `none` when it was `noabi` and is never `noabi` afterwards; no other part changes |
| SlaveBuilder.NewWheel | piwheels/slave/builder.py:68-79 | Constructing a wheel fails exactly when the file name's stem has fewer than two `-`-separated parts; missing dependencies become an empty dictionary |
| SlaveBuilder.WheelTags | piwheels/slave/builder.py:76-176 | The tag properties against the parts split at lines 76-79: every tag is the part of the file name at its position: the package first, the version second, the platform last, the ABI second-last and never `noabi`, the Python version third-last or absent. The build tag is the third part exactly when there are six. Re-joining the parts gives the stem unless `noabi` was rewritten |
| SlaveBuilder.Wheel.AsMessage | piwheels/slave/builder.py:81-96 | The message exists exactly when the name has the three parts `py_version_tag` reads; it then carries the package first part, the Python version third-last, the ABI second-last and the platform last |
| SlaveBuilder.MessageTags | piwheels/slave/builder.py:81-96 | For a five- or six-part name the message carries file name, size, hash, the five tags in order and the dependencies, and the tags are the name's parts without the build tag |
| SlaveBuilder.BuildCommand | piwheels/slave/builder.py:379-393 | The command is ten arguments: `pip3 wheel`, seven `--` options (the index URL, wheel directory and log file passed in, then `--no-deps`, `--no-cache-dir` and two more), then `package==version` |
| SlaveBuilder.RequirementRoundTrip | piwheels/slave/builder.py:392 | The last argument of the command reads back as exactly the package and version asked for |
| SlaveBuilder.WheelOf | piwheels/slave/builder.py:502-504 | A wheel recorded by `run` carries its file's name and the dependencies computed for it |
| SlaveBuilder.Builder.constructor | piwheels/slave/builder.py:262-273 | A new builder has failed status, no wheels and empty output |
| SlaveBuilder.Builder.Run | piwheels/slave/builder.py:486-511 | After `run` a false status always means no wheels; a raised or failed build leaves status false and its log, plus the exception's text when it raised; a successful build records one wheel per file with its dependencies, and a time-out or termination clears them and appends the text of the first file stopped, every earlier file having parsed and had its dependencies computed; an exception that escapes leaves status true and the wheels so far |
| SlaveBuilder.ScanWheels | piwheels/slave/builder.py:499-504 | The dependency loop records one wheel per file, in order, with its dependencies; it ends early at the first file that does not parse or whose analysis raises an uncaught exception, or at the first file whose analysis is stopped |
| SlaveBuilder.GroupProviders | piwheels/slave/builder.py:470-480 | The loop succeeds exactly when no library has several providers or asks to stop, otherwise it fails at the first library that does, with the error that library raises; on success the names under `apt` are the libraries' sole providers and those under the empty tool the unprovided paths |
| SlaveBuilder.AddLibrary | piwheels/slave/builder.py:475-478 | Popping the one provider adds exactly that provider under `apt`; with no provider the path goes under the empty tool; the other tool is unchanged |
| SlaveBuilder.ToolMap | piwheels/slave/builder.py:443 | The `defaultdict`: `apt` is a key exactly when it was looked up, even with no package under it; the empty tool is a key exactly when it has paths; each key holds exactly its names |
| SlaveBuilder.UnprovidedLibraryKeepsAptKey | piwheels/slave/builder.py:475-478 | One library with no provider yields an empty `apt` entry beside its path under the empty tool |
| SlaveBuilder.SortGroups | piwheels/slave/builder.py:481-484 | Each tool's list is strictly sorted and holds exactly that tool's names |
| SlaveBuilder.GroupDependencies | piwheels/slave/builder.py:470-484 | The whole grouping: the same success condition and failures as the loop; `apt` is a key exactly when at least one library was handled, even if none had a provider; each tool's final list is sorted, without repeats, and holds exactly its names |
| Scribe.LowerChar | piwheels/master/the_scribe.py:415 | A lower-cased character is not an upper-case letter; separators, and `-` in particular, stay what they were |
| Scribe.Lower | piwheels/master/the_scribe.py:415 | The ASCII lowering keeps the length and lower-cases every character |
| Scribe.DropSeparators | piwheels/master/the_scribe.py:409 | Removes exactly the leading run of `-`, `_` and `.` |
| Scribe.CollapseSeparators | piwheels/master/the_scribe.py:409-415 | After `[-_.]+` is replaced by `-`, no `_` or `.` remains and no two `-` are adjacent |
| Scribe.CanonicalizeName | piwheels/master/the_scribe.py:412-415 | A canonical name has no `_`, no `.`, no two adjacent `-` and no upper-case ASCII letter; with the ASCII lowering it is never longer than the name, and it is empty only for the empty name |
| Scribe.CanonicalFixpoint | piwheels/master/the_scribe.py:412-415 | A name already in canonical form is returned unchanged |
| Scribe.CanonicalizeIdempotent | piwheels/master/the_scribe.py:412-415 | Canonicalising twice equals canonicalising once |
| Scribe.CanonicalKeepsLetters | piwheels/master/the_scribe.py:412-415 | Only separators and case change: without its separators, the canonical name is the lower-cased name without its separators |
| Scribe.Grouper | piwheels/master/the_scribe.py:419-423 | Every group has exactly `n` items; there are none exactly when there are no items or `n` is not positive; otherwise the groups are the fewest that hold all items |
| Scribe.GrouperFlatten | piwheels/master/the_scribe.py:419-423 | Laid end to end, the groups are the items followed by fewer than `n` fill values |
| Scribe.GrouperFirst | piwheels/master/the_scribe.py:419-423 | With more than `n` items the first group is the first `n` items, and the remaining groups are those of the rest |
| Scribe.GrouperCount | piwheels/master/the_scribe.py:419-423 | There are ⌈len(xs)/n⌉ groups |
| Scribe.GrouperExample | piwheels/master/the_scribe.py:421 | `grouper('ABCDEFG', 3, 'x')` gives `ABC DEF Gxx` |
| Scribe.SuccessOf | piwheels/master/the_scribe.py:383-394 | A successful build's entry keeps the file name and links to it under the project's simple-index URL |
| Scribe.ProjectVersionsAndFiles | piwheels/master/the_scribe.py:361-405 | The loop builds the fold of all rows in order, with each version listed once |
| Scribe.FoldKeys | piwheels/master/the_scribe.py:367-376 | The versions are listed once each, in the order the rows first name them |
| Scribe.UpdateEntry | piwheels/master/the_scribe.py:377-404 | A row's builds never change its version's release date or skip reason |
| Scribe.AddRow | piwheels/master/the_scribe.py:371-404 | One row leaves its version listed and every other version's entry unchanged |
| Scribe.AddRowEntry | piwheels/master/the_scribe.py:371-376 | A row creates its version's entry only when none exists, from its own date and skip reason, and never changes an existing entry's date or skip reason |
| Scribe.DatesFold | piwheels/master/the_scribe.py:371-376 | The folded data lists a version exactly when some row names it, with the date and skip reason of the first such row |
| Scribe.FirstRowDates | piwheels/master/the_scribe.py:371-376 | A version's release date and skip reason are those of the first row naming it |
| Scribe.PlainRowAddsOnlyEntry | piwheels/master/the_scribe.py:371-404 | A row that neither succeeded nor has a build leaves the data unchanged, except that a new version's entry is appended |
| Scribe.AbiStep | piwheels/master/the_scribe.py:377-404 | A successful row adds its file under its version, file ABI and platform; a failed row with a build replaces the failed build under its builder's ABI; every other ABI entry is unchanged |
| Scribe.LastSuccessExists | piwheels/master/the_scribe.py:377-394 | There is a last successful build for a version, ABI and platform exactly when some row succeeded for them |
| Scribe.LastSuccessAt | piwheels/master/the_scribe.py:377-394 | The last successful build is the entry of the last row that succeeded for them |
| Scribe.LastSuccessWins | piwheels/master/the_scribe.py:377-394 | The file listed for a version, ABI and platform is the last successful row's for them; none is listed exactly when no row succeeded for them |
| Scribe.LastFailureExists | piwheels/master/the_scribe.py:395-404 | There is a last failed build for a version and ABI exactly when some row failed with a build for them |
| Scribe.LastFailureAt | piwheels/master/the_scribe.py:395-404 | The last failed build is that of the last row that failed with a build for them |
| Scribe.LastFailureWins | piwheels/master/the_scribe.py:395-404 | The failed build listed for a version and ABI is the last failed row's with a build; none is listed exactly when there is no such row |
| Scribe.NumFilesForVersion | piwheels/master/the_scribe.py:437-438 | A version has no files exactly when none of its ABIs lists a successful build |
| Scribe.NumFiles | piwheels/master/the_scribe.py:431-435 | There are no files exactly when no version has any |
| Scribe.NumVersions | piwheels/master/the_scribe.py:425-429 | Every version is counted exactly when every version has files |
| Scribe.VersionCounts | piwheels/master/the_scribe.py:425-438 | The number of versions with files is at most the number of versions and at most the number of files |
| Scribe.FilesStep | piwheels/master/the_scribe.py:377-394 | One row adds one file exactly when it succeeded for a platform not yet listed, and otherwise none |
| Scribe.NumFilesCountsTriples | piwheels/master/the_scribe.py:377-438 | The file count of the folded data is the number of distinct version, ABI and platform triples that built successfully |
| Dicts.Get | piwheels/master/the_scribe.py:371 | A lookup finds nothing exactly when the key is not among the keys |
| Dicts.Put | piwheels/master/the_scribe.py:367-404 | Storing a value: the key now gives that value and every other key keeps its value |
| Dicts.PutKeys | piwheels/master/the_scribe.py:371-376 | Storing under a new key appends it last; storing under an old key keeps the key order |
| Dicts.PutDistinct | piwheels/master/the_scribe.py:367-404 | Storing a value keeps every key distinct |
| Dicts.SumByPut | piwheels/master/the_scribe.py:431-438 | Storing a value changes a sum over the values by the new value minus the replaced one |

## Left out

- The database layer (`PiWheelsDatabase`): the build queue, build logging and everything else the master reads from or writes to it. `PiWheelsDatabase` is not part of this model. The reply table takes the head of the build queue as a parameter, and the scribe's fold takes the database rows as a parameter.
- ZeroMQ sockets, threads and polling loops. Only the reply decision and the state updates of one exchange are modelled. The path where a new worker's first message is not `HELLO` is also left out: it is dropped before any state exists.
- The registry of workers (`self.slaves`): a `BYE` removes the worker from it, which the model does not track; `BYE` is modelled only as getting no reply.
- A `BUILT` message with the wrong number of fields: `BuildState(self._slave_id, *value[1:])` then raises `TypeError` and ends the driver loop. A `BuildReport` always has all its fields.
- The status message the `reply` setter publishes: it is I/O.
- The `last_seen` clock reading: it is a parameter of `SetRequest`.
- Files on disk: the transfer's temporary file is a byte sequence, and the rename and permission change in `verify` are left out. So are the index writers, `AtomicReplaceFile` and every `write_*` method of the scribe.
- SHA-256 digests (`Wheel.filehash`, `TransferState.verify`): a digest is an opaque string, and the result of verification is a parameter of the reply choice.
- Templates, JSON serialisation and version sorting: these are foreign libraries.
- `duration_to_secs`, `duration_adjusted` and `format_size`: the model keeps the raw duration and size, and has no human-readable size field.
- `strftime` on the release date: the date is an opaque, already formatted string.
- `Builder.build_wheel`'s process handling, `build_environment`, `ldd` and apt lookups, zip scanning and `Wheel.metadata`. Pip's outcome, the dependency analysis of each wheel and each library's providers are parameters.
- The repository's `ranges` module is not part of this model. `Ranges.Intersect` and `Ranges.Exclude` are defined here to meet the contracts the master relies on, not transcribed.
- SQL NULL build ids: an absent build id is `None` and counts as false, like `0`.
- Strings.Split: a single separator character only, which is all the source uses.
- Scribe.LowerChar: lower-cases ASCII letters only; Python's `str.lower` also lower-cases other Unicode letters, and may lengthen a non-ASCII name (`'İ'.lower()` is two code points), so `Scribe.CanonicalizeName`'s length bound holds for the ASCII lowering only.
- SlaveBuilder.Builder.Run: the wheels are found in a given order, while the source takes whatever order `Path.glob` yields.
- MasterTransfer.TransferState.Chunk: offsets and sizes are non-negative; the master never receives negative ones.

## Findings

| source | as written | input that shows it | evidently intended | confidence | as-written member | corrected member |
|---|---|---|---|---|---|---|
| piwheels/master/__init__.py:548-570 | A new transfer's missing list is `[range(filesize)]`, even when the file is empty | A `BUILT` message reporting a zero-byte file, then the first `fetch`: both passes find nothing and the window never moves, so `while True` never ends; `done` is never true | An empty file has nothing missing, so its transfer is done at once | not executed; derived from the code | MasterTransfer.ZeroSizeFetchNeverEnds | MasterTransfer.InitialMissing |
| piwheels/master/__init__.py:281-284 | An unknown message from a known worker is logged, then falls through to `slave.reply = reply` and a send | Worker 1 sends `HELLO`, then worker 2 sends `STATUS`: worker 2 is sent `['HELLO', 1]`. After worker 1's `BUILT` with a successful status, worker 2 with no build sends `STATUS`: the stale `['SEND']` reaches the `reply` setter, which reads `self._build.filesize` on `None`, and the `AttributeError` ends `slave_driver` | Log the message and send nothing, like the other error paths that `continue` | not executed; derived from the code | MasterSlaves.UnknownMessageGetsStaleReply | MasterSlaves.DecideReply |
