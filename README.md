# witty — a verified model of the terminal relay, its registries and its recording tools

witty shares an interactive shell through a web browser. One browser
drives a pty-backed shell (the *primary* socket). Any number of read-only
*viewer* sockets watch the same output. A session can be recorded to a JSON
array of `{Duration, Data}` records. The recordings can then be replayed on
a terminal, merged, listed, renamed and replayed in the browser. A small
JSON file of salted password hashes guards the web interface.

This project models the sequential cores of that system and proves what they
promise:

- **Session relay** (`Relay`, term_conn/relay.go). The fan-out loop is a class
  `Session`. It has the viewer slot list with nil tombstones, the open
  recording, `lastRecTime` and a file map. Each case of the loop's `select` is
  one method (`OnBlock`, `OnViewer`, `OnRecordCmd`, `OnPtyEof`, `OnDone`).
  Everything done to sockets, the process and the registry is appended to a
  trace of `Action`s. A ghost invariant (`BroadcastInvariant.SlotsOk`) states
  what every viewer slot has seen:
  - a contiguous run of the blocks written to the primary socket, starting
    with the first block after the viewer arrived;
  - no close while the slot is live and the loop runs;
  - exactly one close once the loop has ended.

  The recording file is proved to hold `[` and then, per recorded block, its
  encoding and `,`. Stopping turns it into the array `[e1,...,ek]`, or into
  `]` when nothing was recorded. `release` is a fixed teardown trace.
  `handlePlayer` defers that release before creating the pty and
  registering, so the session's name is deregistered on every path.
- **Older single-session relay** (`LegacyRelay`, relay.go). There is one
  session named `"main"`. It takes at most one waiting viewer per block read
  from the pty. After the read loop it closes the viewers, sends a close frame
  and waits out a grace period. The origin check accepts exactly the
  configured host. The primary-write check in that loop looks at the read's error
  (already nil there) instead of the write's. So a failed primary write does
  not end the loop, and the model keeps this behaviour.
- **Registries** (`Registry`, term_conn/reg.go; `LegacyRegistry`, reg.go). A
  class with a `map` field. Each method is one atomic step under the mutex.
- **Terminal replay** (`ReplayTool`, term_conn/replay.go and
  cmd/replay/replay.go). Decoded records become a trace of sleeps and writes.
  Each sleep is capped at the wait flag, malformed elements are skipped, and
  the trace ends with the banners.
- **Merge** (`MergeTool`, term_conn/merge.go and cmd/merge.go). The inputs'
  record lists are concatenated in order. Any bad input aborts the merge, and
  the cmd tool normalises the output name to end in `.scr`.
- **Recordings page** (`RecordTools`, web/record.go). `getDuration` uses
  int64 arithmetic and truncating division. The listing keeps only `.scr`
  files and reports their size in KiB. `renameRec` normalises the new name
  and refuses to overwrite an existing file.
- **User database** (`CmdUsers`, cmd/user.go; `WebUsers`, web/user.go).
  Add-or-update, delete and validate all act on the *first* record with the
  name. The hash is SHA-256 of seed followed by password; it is a function
  parameter.
- **Browser replay scheduler** (`ReplayPage`, assets/replay.js):
  - the tick loop of `sleep`;
  - the `replay_session` schedule, which writes records before the start
    offset without sleeping and sleeps `min(Duration, max_wait)` before each
    later one, in 20 ms ticks, while watching the pause flag;
  - its progress reports;
  - `forwardScreen`;
  - the in-place ns→ms conversion of `fetchAndParse`, on an array.

Shared pieces:
- `Text` holds byte strings, suffix tests, `strconv.FormatInt` with its
  read-back proof, and Go's int64 wrap-around and truncating division.
- `Records` holds the record type, the decoded file and the `.scr` name rule.
- `Broadcast` holds the action trace and its per-slot projections.

Library calls are parameters of the model:
- `json.Marshal` and `json.Unmarshal` are partial maps (`imap`).
- SHA-256 is a function `Bytes -> Bytes`.
- The file system is a `map` from path to contents.
- Wall-clock time is an integer `now` in nanoseconds.
- A websocket write that fails is a flag (`primaryOk`) or a set of failing
  slots.

## Model

| member | source | states |
|---|---|---|
| Text.FormatIntRoundTrip | term_conn/relay.go:262 | the hexadecimal (or decimal) text of any int64, sign included, reads back as exactly that number, so the name and listing fields built with strconv.FormatInt determine their numbers |
| Text.FormatNatDigits | term_conn/relay.go:262 | a formatted number is a non-empty run of digits valid in its base (no sign, so it cannot be confused with a '-') |
| Text.WrapInt64 | web/record.go:54 | the result is in int64 range, congruent to the exact value modulo 2^64, and equal to it when no overflow occurs |
| Text.Quot | web/record.go:54 | Go's quotient truncates toward zero: for a ≥ 0 it is ≥ 0 with q·b ≤ a < q·b + b, and for a < 0 it is ≤ 0 with q·b − b < a ≤ q·b (unlike Dafny's Euclidean division) |
| Records.WellFormed | term_conn/replay.go:54-60 | the records kept from a decoded file are at most as many as its elements, and each is one of its decoded elements |
| Records.WellFormedAppend | term_conn/replay.go:54-68 | the well-formed records of two consecutive parts of a file are those of the first part followed by those of the second |
| Records.ScrName | cmd/merge.go:40-42 | the normalised name always ends in ".scr"; it is the given name when that already does, else the name with ".scr" appended |
| Records.ScrNameIdempotent | cmd/merge.go:40-42 | the suffix is never doubled |
| Broadcast.FanOutProjections | term_conn/relay.go:230-243 | per-slot isolation of one broadcast: a slot is sent the block iff it was live, is closed iff it was live and its write failed, nil slots are skipped, no other slot is affected and nothing goes to the primary socket |
| Broadcast.CloseLiveProjections | term_conn/relay.go:300-305 | the loop after the select closes every still-live slot exactly once, sends nothing and closes no nil slot |
| Broadcast.Tombstoned | term_conn/relay.go:238-241 | after the viewer loop exactly the failing slots are nil; every other slot is as it was |
| BroadcastInvariant.SlotsOkArrive | term_conn/relay.go:285-287 | a viewer is appended at the end of the slot list, live, having seen nothing, and every earlier slot keeps its history |
| BroadcastInvariant.SlotsOkBroadcast | term_conn/relay.go:223-243 | after a block is written to the primary socket and then to the viewers, every slot's history is still a contiguous run of the primary's blocks starting after its arrival, live slots are up to date, and a slot whose write failed is nil and closed once |
| BroadcastInvariant.SlotsOkExit | term_conn/relay.go:300-305 | at loop exit every slot, whether tombstoned earlier or still live, has been closed exactly once and keeps what it was sent |
| BroadcastInvariant.SlotsOkQuiet | term_conn/relay.go:311-347 | teardown actions that touch no viewer keep every slot's history and close count |
| BroadcastInvariant.NoViewerActionsProjections | term_conn/relay.go:311-347 | actions that touch no viewer socket give no slot any block or close |
| Registry.Registry.constructor | term_conn/reg.go:18 | the package-level registry starts with no sessions and no delivered viewers |
| Registry.Registry.Init | term_conn/reg.go:20-22 | init leaves an empty map |
| Registry.Registry.AddPlayer | term_conn/reg.go:24-33 | a duplicate name leaves the map unchanged (the first session wins); otherwise exactly that name is added, mapped to the session |
| Registry.Registry.RemovePlayer | term_conn/reg.go:35-47 | the result is nil iff the name was registered, "not found" otherwise; afterwards the name is absent and every other entry is unchanged |
| Registry.Registry.SendToPlayer | term_conn/reg.go:50-60 | true iff the name is registered; the socket is delivered to that session only then, and the map is not changed |
| Registry.Registry.ForEachSession | term_conn/reg.go:62-68 | the visitor is called once per registered session and for nothing else: the visit order lists every name exactly once, each with its session |
| LegacyRegistry.LegacyRegistry.constructor | reg.go:18 | the registry starts empty |
| LegacyRegistry.LegacyRegistry.Init | reg.go:20-22 | init leaves an empty map |
| LegacyRegistry.LegacyRegistry.AddPlayer | reg.go:24-32 | the entry already under the explicit name is kept; otherwise the session is stored under that name |
| LegacyRegistry.LegacyRegistry.RemovePlayer | reg.go:34-45 | nil iff the name was present; only that key is deleted |
| LegacyRegistry.LegacyRegistry.SendToPlayer | reg.go:48-58 | true iff the name is present; the socket is handed over only then and the map is unchanged |
| Relay.FinishFramed | term_conn/relay.go:251-252 | stopping a recording framed block by block (`[`, then each encoding and `,`) yields exactly the array `[e1,...,ek]`, and `]` alone when no block was recorded |
| Relay.FramedIsJoin | term_conn/relay.go:270 | the open recording of k ≥ 1 blocks is `[`, the encodings separated by `,`, and one trailing `,` |
| Relay.RecordFileNameParts | term_conn/relay.go:262 | the recording file name is "./records/", the session name and "_", then the Unix seconds in lower-case hexadecimal (which read back as those seconds), then ".rec" |
| Relay.Session.constructor | term_conn/relay.go:357-366 | a new connection has no pty, no viewers, no recording and an empty trace, and satisfies the slot invariant |
| Relay.Session.CreatePty | term_conn/relay.go:69-93 | the session owns a pty exactly when spawning succeeded |
| Relay.Session.WriteSlot | term_conn/relay.go:230-243 | one slot's turn: a nil slot is skipped; a live one is written and, only if that write fails, set to nil and closed |
| Relay.Session.WriteViewers | term_conn/relay.go:230-243 | the viewer loop emits the slots' actions in slot order and leaves exactly the failing live slots nil |
| Relay.Session.RecordBlock | term_conn/relay.go:246-256 | when recording, the file gains the encoding of (now − lastRecTime, block) and ",", or nothing when encoding fails; lastRecTime becomes now either way; when not recording nothing changes |
| Relay.Session.PrimaryFailed | term_conn/relay.go:223-227 | a failed primary write ends the loop: the block went to the primary socket only, then every live viewer is closed |
| Relay.Session.Broadcast | term_conn/relay.go:223-243 | the primary write comes before any viewer write; viewers get the block per slot and the slot invariant is kept |
| Relay.Session.OnBlock | term_conn/relay.go:213-256 | a pty block goes to the primary socket first; if that fails the loop ends and neither the viewers nor the recording see it; otherwise live viewers get it (failures tombstone only their slot) and it is recorded as RecordBlock says |
| Relay.Session.OnViewer | term_conn/relay.go:285-287 | a viewer arriving on the viewer channel is appended as a new last slot that has seen none of the blocks sent before |
| Relay.Session.OnRecordCmd | term_conn/relay.go:258-283 | a start opens, empties and names the file after the session and the current second and writes `[` (a failed open records nothing); any other command stops, turning the open file into the closed array; lastRecTime is reset on every start |
| Relay.Session.OnPtyEof | term_conn/relay.go:213-220 | when the pty reader has closed its channel, a close frame goes to the primary socket, the loop ends and every slot has been closed exactly once |
| Relay.Session.OnDone | term_conn/relay.go:289-295 | ws_done or pty_done ends the loop with no further write, and every slot has been closed exactly once |
| Relay.Session.Exit | term_conn/relay.go:300-305 | leaving the loop closes the live viewers in slot order and leaves every slot closed exactly once |
| Relay.Session.Step | term_conn/relay.go:210-296 | every case of the select keeps the slot and recording invariants, and whenever the loop has ended every viewer was closed exactly once |
| Relay.Session.AppendQuiet | term_conn/relay.go:311-347 | actions that touch no viewer keep every invariant and every slot's history |
| Relay.Session.Release | term_conn/relay.go:311-347 | the name is always deregistered and the socket always closed last; closing the pty, interrupt, a one-second pause, kill, wait and closing both channels happen in that order only when a pty exists |
| Relay.HandlePlayer | term_conn/relay.go:350-392 | the release is deferred before the pty is created: a failed spawn still deregisters the name and closes the socket; a successful one registers the session (keeping an earlier one of the same name) and, once the loop ends, removes whatever entry holds the name and leaves every viewer closed once |
| Relay.HandleViewer | term_conn/relay.go:395-408 | the viewer socket is handed to the named session, or closed when there is none |
| LegacyRelay.CheckOriginAcceptsOnlyHost | relay.go:77-90 | records relay.go:90's return expression as the definition of CheckOrigin: the check passes iff a host is configured and the Origin header parses to exactly that host |
| LegacyRelay.LegacySession.constructor | relay.go:243-256 | a new connection has no pty, no viewers and an empty trace |
| LegacyRelay.LegacySession.CreatePty | relay.go:46-70 | the session owns a pty exactly when spawning succeeded |
| LegacyRelay.LegacySession.TakeViewer | relay.go:160-166 | a waiting watcher is appended as a new live slot that has seen nothing |
| LegacyRelay.LegacySession.WriteSlot | relay.go:176-188 | one slot's turn: nil skipped, live written, tombstoned and closed on failure |
| LegacyRelay.LegacySession.WriteViewers | relay.go:176-188 | the viewer loop emits the slots' actions in order and leaves exactly the failing live slots nil |
| LegacyRelay.LegacySession.Broadcast | relay.go:168-188 | the primary write precedes the viewer writes and the slot invariant is kept |
| LegacyRelay.LegacySession.OnRead | relay.go:150-188 | at most one waiting viewer is taken and appended before the block is broadcast, so it receives that block; the primary-write result is never consulted, so the loop goes on even when that write fails |
| LegacyRelay.LegacySession.CloseViewers | relay.go:191-196 | leaving the loop closes every live viewer, leaving each slot closed exactly once |
| LegacyRelay.LegacySession.OnReadError | relay.go:152-157 | a failed read ends the loop: the live viewers are closed, then a close frame is sent, then the 10-second grace period is waited |
| LegacyRelay.LegacySession.AppendQuiet | relay.go:204-240 | actions that touch no viewer keep every invariant and every slot's history |
| LegacyRelay.LegacySession.Release | relay.go:204-240 | the name is always deregistered and the socket always closed last; pty close, interrupt, a one-second pause, kill, wait and closing done and vchan only when a pty exists |
| LegacyRelay.HandleDoer | relay.go:243-274 | the release is deferred before the pty is created; "main" is registered only after a successful spawn (an existing entry is kept); once the read loop ends "main" is removed and every viewer was closed once |
| LegacyRelay.HandleViewer | relay.go:277-290 | the viewer socket goes to "main", or is closed when "main" is not registered |
| ReplayTool.Clamp | term_conn/replay.go:62-64 | the slept duration is min(Dur, cap): never above either, and equal to one of them |
| ReplayTool.WaitNsExact | term_conn/replay.go:62 | wait milliseconds converted to a time.Duration is exactly wait·10^6 ns when it fits in an int64 |
| ReplayTool.PlayedAppend | term_conn/replay.go:54-68 | replaying a file made of two parts replays the parts in order |
| ReplayTool.PlayedSkipsMalformed | term_conn/replay.go:57-60 | a malformed element leaves no sleep and no write, and the elements after it are still replayed |
| ReplayTool.PlayedContents | term_conn/replay.go:54-68 | the data passed to the terminal's Write is exactly the Data of the well-formed records, unchanged and in file order; the sleeps are their durations capped, one per well-formed record |
| ReplayTool.PlayedWrites | term_conn/replay.go:66-67 | the writes of a replay are the Data of the well-formed records in file order |
| ReplayTool.PlayedSleeps | term_conn/replay.go:62-66 | the sleeps of a replay are the capped durations of the well-formed records in file order |
| ReplayTool.SleepsCapped | term_conn/replay.go:62-64 | no sleep exceeds the wait cap |
| ReplayTool.PlayRecords | term_conn/replay.go:54-68 | the decoder loop's output is the replay of the decoded elements with the cap wait ms |
| ReplayTool.Replay | term_conn/replay.go:18-71 | a file that cannot be opened is fatal before any output; otherwise the beginning banner, the replay of the records, the end banner |
| ReplayTool.ReplayMain | cmd/replay/replay.go:20-84 | with other than one positional argument only the usage line is printed; an unopenable file is fatal; otherwise the records are replayed with the flag's cap (2000 ms by default), then the end banner, with no beginning banner |
| ReplayTool.ReplayMainBanners | cmd/replay/replay.go:66-83 | the stand-alone tool writes the well-formed Data in order and then only the end banner, which is its last output |
| MergeTool.ConcatSpec | term_conn/merge.go:13-28 | the merge succeeds iff every input can be read and parsed, and then it is the concatenation of the inputs' record lists in argument order |
| MergeTool.FlattenCopies | term_conn/merge.go:27-30 | every merged record is a record of some input, unchanged; no duration is renormalised |
| MergeTool.AbortSticks | term_conn/merge.go:14-25 | once one input has failed no later input makes the merge succeed |
| MergeTool.Gather | term_conn/merge.go:13-28 | the read-parse-append loop returns early on the first bad input and otherwise yields the concatenation |
| MergeTool.Merge | term_conn/merge.go:9-38 | on success the merged list is marshalled and written under the output name verbatim; a failed read, parse or marshal leaves every file as it was |
| MergeTool.CmdMerge | cmd/merge.go:12-45 | the same, with the output name ending in ".scr" (appended iff missing) |
| MergeTool.CmdMergeName | cmd/merge.go:40-42 | the cmd tool's output name always ends in ".scr" and equals the given name iff that already does |
| RecordTools.WrapSumExact | web/record.go:44-55 | with non-negative durations whose millisecond total fits in an int64 the accumulator never wraps and equals the exact sum |
| RecordTools.DurationAtLeastOne | web/record.go:44-57 | an openable recording with such durations lasts exactly (total whole ms) / 1000 + 1 seconds, hence at least one |
| RecordTools.DurationSkipsMalformed | web/record.go:49-52 | a malformed element contributes nothing to the length |
| RecordTools.GetDuration | web/record.go:24-58 | 0 for a file that cannot be opened; otherwise the int64 sum of the records' truncated milliseconds, divided by 1000 toward zero, plus 1 |
| RecordTools.ScrEntriesExact | web/record.go:66-68 | an entry is listed iff it is in the directory and its name ends in ".scr" |
| RecordTools.Listing | web/record.go:65-79 | one row per listed entry, in directory order |
| RecordTools.ListingRows | web/record.go:69-78 | every row names a ".scr" file and gives its size in whole KiB (bytes / 1024) and its length, both as decimal text that reads back as those numbers |
| RecordTools.CollectRecords | web/record.go:60-83 | a directory that cannot be read lists nothing; otherwise the listing of its ".scr" files |
| RecordTools.ScrNameUnderDir | web/record.go:111-116 | appending ".scr" to the path is the same as appending it to the name, since the directory ends in '/' |
| RecordTools.RenameRec | web/record.go:110-126 | the new name gets ".scr" iff it lacks it; if that file exists, or the old one does not, nothing changes; otherwise the old file is moved there |
| RecordTools.RenamePreserves | web/record.go:118-125 | a rename never overwrites or loses another recording, keeps the number of files and, when performed, moves the contents unchanged |
| CmdUsers.FirstMatch | cmd/user.go:50-57 | the index found is the first record with the name; none exactly when no record has it |
| CmdUsers.AddOrUpdateShape | cmd/user.go:50-62 | for a present name only the seed and hash of its first record change and the length is kept; for a new name exactly one record is appended at the end |
| CmdUsers.AddedIsFirst | cmd/user.go:50-62 | after adding, the first record with the name carries the new seed and hash |
| CmdUsers.ValidatesAfterAdd | cmd/user.go:25-28 | a user added with hash(seed ++ password) validates with that password |
| CmdUsers.ValidatesOnlyWithPassword | cmd/user.go:25-28 | with a collision-free hash of seed followed by password, the added user validates with its own password and no other |
| CmdUsers.AddKeepsOthers | cmd/user.go:50-62 | adding one user leaves the validation of every other name unchanged |
| CmdUsers.AddUserRecord | cmd/user.go:50-62 | the update loop updates the first match in place and stops, or appends |
| CmdUsers.AddUserFile | cmd/user.go:30-71 | an unreadable or unparsable file counts as an empty list; the added list replaces the file unless it cannot be marshalled, in which case the file is unchanged |
| CmdUsers.AddUser | cmd/user.go:73-101 | a failed read, a password shorter than 12 bytes or a differing confirmation stops before the store is touched; otherwise addUser runs |
| CmdUsers.RemoveFirstShape | cmd/user.go:121-127 | deleting removes exactly the first record with the name and keeps the others in order (as a multiset, one fewer occurrence of that record); an absent name changes nothing |
| CmdUsers.DeletedDoesNotValidate | cmd/user.go:121-127 | after deleting a name that occurred once, it validates with no password |
| CmdUsers.RemoveUserRecord | cmd/user.go:121-127 | the splice loop removes the first match and reports whether there was one |
| CmdUsers.DelUser | cmd/user.go:103-138 | nothing is written when the file cannot be read or parsed, when the name is absent or when marshalling fails; otherwise the list without its first match is written |
| CmdUsers.CheckUsers | cmd/user.go:181-188 | the search loop's answer is decided by the first record with the name; false when there is none |
| CmdUsers.ValidateUser | cmd/user.go:163-189 | true iff the file reads and parses and the first record with the name stores hash(seed ++ password) |
| WebUsers.UpdateCopies | web/user.go:41-48 | the update loop assigns to copies: the list is unchanged, and only whether the name exists is found out |
| WebUsers.StoredAsWritten | web/user.go:51-53 | the list web addUser marshals is always exactly one record, the new user |
| WebUsers.AddUserFile | web/user.go:29-62 | whatever the file held, the stored list is the new user alone, unless marshalling fails |
| WebUsers.AddDiscardsExisting | web/user.go:39 | a store holding alice, after adding bob, holds only bob, whereas the intended add keeps alice |
| WebUsers.AddAgreesOnlyWhenAlone | web/user.go:39-53 | the as-written list equals the intended one iff the store was empty or held only an earlier record of the same user |
| WebUsers.AddUser | web/user.go:64-87 | a failed read or a differing confirmation stops before the store is touched; there is no minimum length, so even an empty password is stored |
| WebUsers.DelUser | web/user.go:89-124 | the same first-match delete as the command-line tool |
| WebUsers.ValidateUser | web/user.go:126-152 | the same first-match validation as the command-line tool |
| ReplayPage.Trunc | assets/replay.js:58 | parseInt(a / b) truncates toward zero: by a positive b it is Go's quotient; its sign is that of a·b, and its magnitude k is the number of whole \|b\|s in \|a\| (k·\|b\| ≤ \|a\| < k·\|b\| + \|b\|) |
| ReplayPage.LoopCount | assets/replay.js:58 | sleep(ms) loops parseInt(ms / 20) + 1 times for non-negative ms, and never a negative number of times |
| ReplayPage.SleepEnd | assets/replay.js:57-69 | sleep spends at most LoopCount(ms) ticks |
| ReplayPage.Sleep | assets/replay.js:57-69 | sleep checks the paused flag before each tick and returns at the first tick the flag is set (true), or after all ticks with the flag's final value |
| ReplayPage.PlayWritesPrefix | assets/replay.js:97-114 | the records written are a prefix of the records, in order, with their Data unchanged |
| ReplayPage.PlayEnd | assets/replay.js:114-116 | end() is called at most once, and then as the very last action, after every record was written |
| ReplayPage.PlayEndCount | assets/replay.js:103-116 | end() is called at most once, and only when every record was written |
| ReplayPage.PlayEndLast | assets/replay.js:116 | when end() is called it is the last action |
| ReplayPage.PlayEndsUnpaused | assets/replay.js:103-116 | without a pause end() is reached |
| ReplayPage.PlayUnpaused | assets/replay.js:97-116 | without a pause every record is written in order and end() is called once, last |
| ReplayPage.BlastThroughBeforeStart | assets/replay.js:99-106 | a recording whose every cumulative offset is below the start is played without spending a single tick |
| ReplayPage.PlayBlastsPrefix | assets/replay.js:97-114 | when the first n records start below the start offset, the playback is exactly their tick-free writes and progress reports followed by the playback of the rest from the offset after them, on the same tick count |
| ReplayPage.BlastedNoTick | assets/replay.js:99-106 | the records blasted through before the start spend no tick |
| ReplayPage.BlastedWrites | assets/replay.js:108-109 | the records blasted through before the start are all written, in order, with their Data unchanged |
| ReplayPage.SleepBeforeRecord | assets/replay.js:99-108 | a record at or after the start is preceded by exactly LoopCount(min(Duration, max_wait)) ticks when no pause is seen |
| ReplayPage.TruncMonotone | assets/replay.js:112 | the progress percentage parseInt(cur·100 / total) grows with cur |
| ReplayPage.ProgressMonotone | assets/replay.js:109-113 | with non-negative durations and a positive total, every progress value is a number, none is below the progress at the current offset, and they never decrease |
| ReplayPage.PlayItem | assets/replay.js:108-113 | write the record, advance cur by its Duration, and report progress only once cur is past the start |
| ReplayPage.SleepItem | assets/replay.js:99-106 | records before the start get no sleep; later ones sleep min(Duration, max_wait) and stop exactly when the pause is seen |
| ReplayPage.PlayRecord | assets/replay.js:97-114 | one loop iteration either ends the playback as the schedule says, or leaves the rest of the schedule to the remaining records |
| ReplayPage.ReplaySession | assets/replay.js:91-117 | the start percentage becomes a millisecond offset parseInt(total_dur·start / 100), the terminal is reset, and the records are played as the schedule says |
| ReplayPage.ForwardExact | assets/replay.js:124-131 | exactly the records whose cumulative offset is below the threshold are written, as a prefix and in order; the first one left out starts at or above it |
| ReplayPage.ForwardPrefix | assets/replay.js:124-131 | forwardScreen writes the Data of a prefix of the records, in order |
| ReplayPage.ForwardBounds | assets/replay.js:126-128 | every written record starts below the threshold and the first one left out does not |
| ReplayPage.ForwardScreen | assets/replay.js:119-133 | the threshold is the percentage of the page-global total_dur; the terminal is reset and the records before the threshold are written without any sleep |
| ReplayPage.ToMs | assets/replay.js:151 | a converted item keeps its Data; its Duration d ms is the ns value truncated toward zero: d·10^6 ≤ ns < d·10^6 + 10^6 for ns ≥ 0, and d·10^6 − 10^6 < ns ≤ d·10^6 for ns < 0 |
| ReplayPage.FetchAndParse | assets/replay.js:136-157 | a failed fetch changes nothing and calls no update; otherwise every Duration is converted to ms in place and update receives the sum of the new durations |

## Left out

- Goroutines, channels, `select` scheduling, `sync.WaitGroup`, the mutex, the ping ticker and `wsToPtyStdin` are concurrency. Each `select` case is one method call and each registry call is atomic. Which event fires next is an input (`Relay.Event`, `LegacyRelay.Read`).
- Websocket, pty and `exec` calls are foreign I/O: upgrades, reads, writes, `Setsize`, signals and `proc.Wait`. They are trace actions, and their failures are flags (`spawnOk`, `primaryOk`, the set of failing slots, `openOk`). The terminal-size handling inside `createPty` is left out for the same reason.
- Wall-clock time is the integer `now`. `time.Sleep` and the JS timers are trace entries (`Pause`, `Sleep`, `Tick`). A negative `time.Sleep` is modelled as a `Sleep` of that value.
- `encoding/json` internals are partial maps from values to bytes and back. This includes the base64 of `[]byte`, reusing a slice across `Unmarshal` calls (merge's `records`) and partial decodes of mistyped fields. The model also does not tell nil from an empty slice.
- SHA-256 is an uninterpreted function parameter. `uniuri` seeds are parameters.
- A JSON syntax error makes `Decoder.More()` keep returning true. The model does not capture this: a malformed element is decoded as `None` and skipped.
- `Decoder.Token()` consumes the opening `[`. The decoded file starts after that token.
- `StopRecord`/`StartRecord` plumbing, `ConnectTerm`, `Init`, `ListUsers`, `delRec` and the gin routing handlers are thin infrastructure outside this model.
- The references that do not resolve in the repository are not reconciled: `tc.vchan` vs `viewChan`, `registry.recordSession`, and `delDoer`/`addDoer`/`sendToDoer` vs `removePlayer`/`addPlayer`/`sendToPlayer`. Each function is modelled by its own body, with the registry operations it evidently means.
- Log messages and the ignored `os.WriteFile`, `Close`, `Seek` and `Signal` errors are left out; a failed write is treated as a no-op. A failing `Truncate` on an empty recording leaves the file alone and the `]` is still written.
- The JS page has no floating point in the model. Durations are integers, `parseInt(a / b)` is truncation toward zero, and a zero `total_dur` reports NaN as `None`. The DOM, xterm, `atob`, `fetch` and a failing `res.json()` are left out. The page-global `i`, shared by `sleep` and `base64ToUint8array` across concurrent calls, is also left out.
- The page-global `total_dur` read by `forwardScreen` is a parameter (`globalTotalDur`) of `ReplayPage.ForwardScreen`.
- Go strings converted to `[]byte` (user names, passwords) are `Bytes` directly. Session and file names stay `string`.
- The recording in `Relay.Session` holds its encoded blocks in a ghost field (`encs`). This feeds the framing invariant only: the file contents themselves are in `files`.
- `term.Terminal.Write` turns `\n` into `\r\n` before it reaches stdout. `ReplayTool` records the argument of that Write, so "unchanged" in its contracts is about the bytes handed to the terminal, not the bytes on stdout.
- The page's `paused()` callback is not part of the sources. It is modelled as a flag that, once set at tick `pauseAt`, stays set.
- `ioutil.ReadDir` returns its entries sorted by file name (web/record.go:61), so the "directory order" of the listing is name order; the sort itself is outside this model and the listing takes the entries as given.
- ReplayTool.PlayRecords: the cap is `WaitNs(wait)`. This models the int64 conversion and product of `time.Duration(wait) * time.Millisecond` with wrap-around. `wait` is limited to Go's `uint` range, the flag's type.
- RecordTools.DurationAtLeastOne: states the one-second lower bound only for durations that are non-negative and whose total fits in an int64. Outside that range the int64 accumulator wraps, and the model states the wrapped value (`RecordTools.GetDuration`) instead.
- ReplayPage.ProgressMonotone: needs a positive `total_dur` and non-negative durations. With a zero total every report is NaN, and a negative duration can make progress fall.

## Findings

| source | as written | input that shows it | evidently intended | confidence | as-written member | corrected member |
|---|---|---|---|---|---|---|
| web/user.go:39 | `json.Unmarshal(file, users)` is passed the slice rather than a pointer to it. It always fails with an InvalidUnmarshalError, so the existing users are never loaded, and the stored file becomes the new user alone. | a store holding a record for "a" (alice); add "b" (bob); the file then holds only bob's record | load the existing list, update the first match or append, and keep every other user, as in cmd/user.go | not executed | WebUsers.AddDiscardsExisting | CmdUsers.AddKeepsOthers |
