# DirSync in Dafny

DirSync keeps a replica directory a one-way copy of a source directory. Each sync session does five things in a fixed order:

1. It prunes replica directories that the source lacks.
2. It recreates source directories that the replica lacks.
3. It removes replica files that the source lacks.
4. It replaces replica files whose SHA-256 fingerprint differs from the source file's.
5. It imports source files that the replica lacks.

With archiving on, replica content that is removed or replaced is moved into a per-session folder of the archive. With archiving off it is deleted. A scheduler runs sessions at a fixed interval. A configuration manager validates, merges and parses the configuration.

This project models that core and proves properties of the model.

- **Filesystem** (`filesystem.dfy`). The host filesystem is a class `FileSystem.FileSystem`, with:
  - a set of directory locations;
  - a map from file location to content;
  - the set of session logs that exist.

  A location is a root plus a path relative to it. The three roots are source, replica and archive.

  The primitives of `FileSystemUtils` are methods over this class: `MoveFile`, `CopyFile`, `DeleteFile`, `MoveDirectory`, `CreateDirectory`, `DeleteDirectory` and `EnsureParentDirectoriesExist`. Each one returns true when it made its change. It can only succeed when .NET would not throw on the current tree. Even then, a nondeterministic choice stands for the host refusing the call (permissions, locks, I/O errors). On failure:
  - `CopyFile`, `DeleteFile`, `CreateDirectory` and `DeleteDirectory` change nothing;
  - `MoveFile` and `MoveDirectory` may leave the destination's parent directories created (they create them before moving), and change nothing else;
  - `EnsureParentDirectoriesExist` fails only when the parent is still missing afterwards.

  The host's partial failures are not modelled; "## Left out" names them.

  Every method keeps the shape a real tree has: every entry sits in an existing directory, and no location is both a file and a directory.

- **The hash string** (`file_hash.dfy`). How `GetFileHash` renders a digest: `BitConverter.ToString`, then dash removal, then lower-casing. This is proved equal to plain lower-case hex, 2 characters per byte, and injective. The SHA-256 function itself is an opaque parameter of the filesystem.

- **The sync engine** (`sync_service.dfy`). `SyncService` is a class. Its `PerformSync` runs the five phases, each as a loop over a listing taken when the phase starts.
  - Each phase is proved against a predicate of the state before and after it. These predicates are in `sync_phases.dfy`, and the loop proofs are in the `sync_*` files.
  - Those predicates compose into the properties of a whole session (`sync_session.dfy`):
    - the source is untouched;
    - with archiving, no replica content is lost;
    - a fully successful session leaves the replica mirroring the source;
    - a replica that already mirrored the source is left alone, with no mutation recorded.
  - Each phase also reports the listing entries whose operation failed. Every other entry got its effect, and the phase's result is true exactly when none failed.
  - A ghost history `sessions` records the outcome of every `PerformSync`, so the scheduler's loop is stated against the sessions it ran.

- **`OperationStatus`** (`operation_status.dfy`). A sticky failure accumulator. A ghost history of reports proves that its result is the conjunction of every reported outcome.

- **The scheduler** (`scheduler.dfy`). `SyncScheduler.Start` covers:
  - the interval guard;
  - the countdown from 5 to 1;
  - the loop of sessions, with the delay and overrun arithmetic in `TimeSpan` ticks.

  The clock is an input: one reading per iteration, giving the session's local time and its duration.

- **Configuration** (`config.dfy`, `config_manager.dfy`):
  - the `Config` record;
  - `ValidateConfig` and `ValidatePaths`, as the sequence of complaints they append;
  - `IsSubPathOf`;
  - `MergeConfigInPlace`;
  - `ParseArgumentsToConfig`, including .NET's `int.TryParse` and `bool.TryParse`.

  `Directory.Exists` and `Path.GetFullPath` are parameters.

- **Text helpers** (`text.dfy`, `session_id.dfy`):
  - ordinal case-insensitive comparison;
  - ASCII trimming;
  - the session id `Sync_Session_yyyy-MM-dd_HH-mm-ss`, which is proved injective in the clock reading.

## Model

| member | source | states |
|---|---|---|
| Sync.SyncService.constructor | DirSync/SyncService.cs:24-30 | The service keeps the filesystem and the archiving switch it is given; no mutation is recorded yet. |
| Sync.SyncService.PerformSync | DirSync/SyncService.cs:32-54 | The outcome is appended to `sessions`, and the session id comes from the clock reading. When the session folder cannot be created there is no run, the call throws and the trees and logs are unchanged. Otherwise the run starts from the state after setup and `RanPhases` holds: the five phases in order, each from the state the previous one left. A completed result is the conjunction of the five results. A throw from phase 4 stops the run and keeps the session log. When the run did not stop, the log survives exactly when the flag is set. The source tree is unchanged. With archiving, every replica file is still in place or in the session archive with the same bytes. A true result means the replica tree mirrors the source tree: same directories, same file paths, equal digests. If the replica already mirrored the source, the run does not report failure, the flag stays false and the replica tree is unchanged; when the session folder did not exist before, the whole filesystem ends as it began. On a true result the flag is set exactly when the replica did not mirror the source. The session folder survives exactly when it is not empty. Without archiving, a new session folder leaves the archive as it was. |
| Sync.SyncService.RunPhases | DirSync/SyncService.cs:36-44 | The returned run starts at the state before the call and ends at the state after it, and `RanPhases` holds: phases 1 to 5 in order, each from the state the previous one left, each running even when an earlier one failed. The call throws exactly when phase 4 did, and then phase 5 does not run. Success is the conjunction of the five results. The run makes a session (`SessionProof.Session`), and a throw cannot happen from a false flag on a replica that mirrors the source. |
| Sync.SyncService.SetupSyncFiles | DirSync/SyncService.cs:56-62 | The id is `SessionId(now)`. The session folder and the session log are added, and nothing else changes. If a file already occupies the folder's path, the call throws and changes nothing. |
| Sync.SyncService.CloseSession | DirSync/SyncService.cs:46-53 | The end of a session whose phases did not throw: cleanup, then the result. Files are untouched, and only the session folder may go. A completed result is the phases' success. The log survives exactly when the flag is set. Seen from before setup, the source tree is unchanged, archiving keeps every replica file, a true result means mirroring, and a replica that mirrored is left as it was with no flag. When it mirrored and no session folder existed before, the directories and files end as they were before setup. |
| Sync.SyncService.SessionArchive | DirSync/SyncService.cs:59 | The session folder is directly in the archive, and everything the session archives lies inside it. |
| Sync.SyncService.CleanupFiles | DirSync/SyncService.cs:212-223 | The session log is deleted exactly when no mutation was recorded. The session folder is removed exactly when it has no subdirectory and no file. A missing session folder throws. Files are never touched. |
| Sync.SyncService.HandleOverheadDirectory | DirSync/SyncService.cs:74-95 | One listing entry of phase 1. An entry already gone is skipped. A replica directory with no source directory is moved with its subtree to the session archive, or deleted recursively, and the outcome goes to the status. The flag is set when this is attempted. |
| Sync.SyncService.DeleteOverheadDirectoriesFromTarget | DirSync/SyncService.cs:64-98 | `PrunedDirs`: the source is untouched and the archive only gains. The replica only loses entries, never one with a source counterpart. A replica directory with no source directory is gone unless it is in the report's failed set, and those are still there. The result is true exactly when the failed set is empty, and then every replica directory has a source directory. The flag is set exactly when some replica directory had none. With archiving, every replica file is kept in place or archived. |
| Sync.SyncService.HandleMissingDirectory | DirSync/SyncService.cs:110-115 | One listing entry of phase 2. A source directory missing from the replica is created there, together with any missing ancestors, and the outcome goes to the status. |
| Sync.SyncService.RecreateMissingDirectories | DirSync/SyncService.cs:100-118 | `RecreatedDirs`: only replica directories are added, each of them a source directory. Every source directory is in the replica unless it is in the failed set, and those were missing. The result is true exactly when the failed set is empty, and then every source directory is in the replica; a replica that already had them all succeeds. The flag is set exactly when one was missing. |
| Sync.SyncService.HandleOverheadFile | DirSync/SyncService.cs:130-145 | One listing entry of phase 3. A replica file with no source file is moved to the session archive, or deleted. A file with a counterpart is untouched. |
| Sync.SyncService.RemoveOverheadFiles | DirSync/SyncService.cs:120-148 | `RemovedFiles`: replica directories are unchanged. Replica files only go, never one with a source file. A replica file with no source file is gone unless it is in the failed set, and those are still there. The result is true exactly when the failed set is empty, and then every replica file has a source file. The flag is set exactly when one had none. |
| Sync.SyncService.HandleEditedFile | DirSync/SyncService.cs:160-184 | One listing entry of phase 4. Hashing throws when the source counterpart is missing. On a digest mismatch with archiving, the file is archived and then replaced by a copy of the source file. A failed archive move fails the status, skips the copy and does not set the flag. Without archiving, a mismatched file is deleted. |
| Sync.SyncService.ReplaceEditedFiles | DirSync/SyncService.cs:150-187 | `ReplacedFiles`: the phase throws exactly when some replica file has no source file. A file whose digest already matches is untouched, and when all match nothing changes at all. Every replica file keeps its old content or takes its source file's. A differing file not in the failed set holds its source file's content with archiving, or is gone without it. The result is true exactly when the failed set is empty, and then every replica file matches its source file and, with archiving, none went missing. The flag is set only when something differed. |
| Sync.SyncService.HandleMissingFile | DirSync/SyncService.cs:200-207 | One listing entry of phase 5. A source file missing from the replica is copied there. |
| Sync.SyncService.ImportMissingFiles | DirSync/SyncService.cs:190-210 | `ImportedFiles`: existing replica files are untouched, and every new file is a copy of the source file at its path. Every source file is in the replica unless it is in the failed set, and those are still missing. The result is true exactly when the failed set is empty, and then every source file is in the replica. The flag is set exactly when one was missing. |
| Phases.MirrorsView | DirSync/SyncService.cs:32-53 | Mirroring stated over locations is equivalent to mirroring of the two relative trees. |
| SyncFacts.MirrorsIsEquality | DirSync/SyncService.cs:32-53 | Under a hash that tells every two contents apart, the replica mirrors the source exactly when it equals the source: the same directories and the same bytes in every file. |
| Phases.DirsConverge | DirSync/SyncService.cs:40-44 | When phases 1 and 2 succeed, the replica and the source have the same directories afterwards, and phases 3 to 5 keep them. |
| Phases.FilesConverge | DirSync/SyncService.cs:42-44 | When phases 3 to 5 succeed, every source file is in the replica, and every replica file has its source file's digest. |
| Phases.Converges | DirSync/SyncService.cs:40-44 | When the run does not stop and all five phases succeed, the replica mirrors the source at the end of the run. |
| Phases.Idle | DirSync/SyncService.cs:40-44 | On a replica that already mirrors the source, from a false flag, the run does not stop, every phase reports success with nothing failed, and the state at the end is the state at the start, flag included. |
| Phases.NothingToDo | DirSync/SyncService.cs:40-44 | A fully successful run from a false flag that set no flag started on a replica that already mirrored the source. |
| Phases.Preserved | DirSync/SyncService.cs:40-44 | Through the whole run, stopped or not, the source is untouched and the archive only gains. With archiving, every starting replica file is still in place or in the session archive. |
| SessionProof.Session | DirSync/SyncService.cs:32-54 | The guarantee of a session's phases: the source is untouched, the archive only gains, archiving loses no replica content, success means mirroring, a mirrored replica from a false flag is left exactly as it was with success, and on success from a false flag the flag is set exactly when the replica did not mirror. |
| Phases.RanPhases | DirSync/SyncService.cs:36-44 | Each phase of a run starts from the state the previous one left and meets its own predicate; when phase 4 throws, phase 5 does not run. |
| SessionProof.Sequence | DirSync/SyncService.cs:36-54 | A run of the five phases makes a `Session` whose success is the run's: no throw and all five results true. A stopped run started from a set flag or a replica that did not mirror the source. |
| SessionProof.AroundSession | DirSync/SyncService.cs:32-54 | Seen as trees, around the creation and possible removal of the session folder: the source is unchanged, success gives mirroring, a replica that already mirrored is left as it was, and the flag is set exactly when it did not mirror. |
| SessionProof.LeavesNoTrace | DirSync/SyncService.cs:219-222 | Without archiving, a new session folder is empty at the end, and removing it restores the archive. |
| SessionProof.ClearedAway | DirSync/SyncService.cs:219-222 | After cleanup, the session folder exists exactly when something is in it. |
| Status.OperationStatus.constructor | DirSync/OperationStatus.cs:11-12 | A fresh status has no reports and reports success. |
| Status.OperationStatus.Success | DirSync/OperationStatus.cs:11 | Success holds exactly when no false outcome was reported. |
| Status.OperationStatus.SuccessIsFold | DirSync/OperationStatus.cs:11-25 | Success equals the left-fold conjunction of every reported outcome. |
| Status.OperationStatus.AssertTrue | DirSync/OperationStatus.cs:17-20 | Records the outcome. The new success is the old success and the outcome. `AssertTrue(true)` leaves the failure field unchanged. |
| Status.OperationStatus.Fail | DirSync/OperationStatus.cs:22-25 | Records a false outcome, so `Success` is false afterwards. |
| Status.AllTrueIsEvery | DirSync/OperationStatus.cs:17-20 | The fold of outcomes holds exactly when every outcome is true. |
| Status.FailureIsSticky | DirSync/OperationStatus.cs:11-25 | Once a false outcome is in, no later outcomes bring success back. |
| Scheduling.SyncScheduler.constructor | DirSync/SyncScheduler.cs:18-22 | The scheduler keeps the service and the nullable interval it is given. |
| Scheduling.SyncScheduler.Start | DirSync/SyncScheduler.cs:24-63 | Start does nothing, and never syncs, exactly when the interval is null or not positive. Otherwise the countdown is 5, 4, 3, 2, 1, and then `Ran` holds with the interval in ticks. The outcomes of the rounds, in order, are appended to `sessions`: one `PerformSync` per round, and a false result does not stop the loop. Each completed session is followed by `PauseAfter(interval, elapsed)`. The loop goes on until the readings run out, unless PerformSync or `Thread.Sleep` throws. The session id is that of the last reading used. |
| Scheduling.SyncScheduler.Countdown | DirSync/SyncScheduler.cs:32-36 | The countdown is exactly [5, 4, 3, 2, 1]. |
| Scheduling.SyncScheduler.Sessions | DirSync/SyncScheduler.cs:40-62 | `Ran`: the loop with no exit, run over the readings. `sessions` grows by exactly the outcomes of the rounds, in order, one `PerformSync` each. A completed session's pause is `PauseAfter` of the reading, and a thrown session ends the loop with no pause. |
| Scheduling.SyncScheduler.Iteration | DirSync/SyncScheduler.cs:42-61 | One iteration: one `PerformSync` under the reading's clock, appended to `sessions`, then the pause computed from the interval and the elapsed ticks; no pause after a throw. A true result leaves the replica mirroring the source. |
| Scheduling.SyncScheduler.Step | DirSync/SyncScheduler.cs:42-61 | The iteration after rounds that all went on: its outcome extends the history, and the loop stops after it for the reason it gives (a throw, a rejected sleep) or goes on. |
| Scheduling.PauseAfter | DirSync/SyncScheduler.cs:51-61 | No sleep exactly when the session took the interval or longer, and then the overrun is the excess. Otherwise the sleep is the remaining delay truncated to whole milliseconds, and it is rejected exactly when that exceeds int.MaxValue. |
| Scheduling.Outcomes | DirSync/SyncScheduler.cs:40-46 | One outcome per round. |
| Scheduling.OutcomesAt | DirSync/SyncScheduler.cs:40-46 | The i-th outcome is that of the i-th round. |
| Scheduling.PauseShrinksWithDuration | DirSync/SyncScheduler.cs:51-61 | The pause depends only on what is left of the interval. A longer session never sleeps longer, and never overruns by less. |
| Scheduling.StartToStart | DirSync/SyncScheduler.cs:51-57 | When the loop sleeps, elapsed plus the sleep lies within one millisecond below the interval. So the next session starts one interval after this one started. |
| Scheduling.SleepRejectedBeyondLimit | DirSync/SyncScheduler.cs:54-57 | `Thread.Sleep` rejects the delay exactly when it reaches (int.MaxValue + 1) ms. |
| Scheduling.LongestSleepableInterval | DirSync/SyncScheduler.cs:38 | An interval of 2147484 s, which validation accepts, cannot be slept after an instant session. An interval of 2147483 s sleeps 2147483000 ms. |
| Configs.Clone | DirSync/Config.cs:34-44 | The clone has all five settings of the original. |
| ConfigManagement.IsSubPathOf | DirSync/ConfigManager.cs:225-237 | When true, both paths resolve and the outer full path is no longer than the inner one. A path that cannot be resolved makes it false. |
| ConfigManagement.SubPathOfItself | DirSync/ConfigManager.cs:225-237 | A path is inside itself exactly when it resolves. |
| ConfigManagement.SubPathTransitive | DirSync/ConfigManager.cs:225-237 | Being inside is transitive. |
| ConfigManagement.MutualSubPaths | DirSync/ConfigManager.cs:225-237 | Two paths are inside each other exactly when their full forms are equal ignoring case. |
| ConfigManagement.SubPathIgnoresComponents | DirSync/ConfigManager.cs:231 | The test is on characters, not path components: `/data/sync-old` counts as inside `/data/Sync`. |
| ConfigManagement.Rank | DirSync/ConfigManager.cs:145-215 | Each complaint belongs to one of the 11 checks, and the first 5 checks are the field checks. |
| ConfigManagement.ComplaintExact | DirSync/ConfigManager.cs:145-215 | A check complains with `q` exactly when `q` is its rule and that rule is broken. |
| ConfigManagement.FlaggedExactly | DirSync/ConfigManager.cs:145-215 | A run of checks reports exactly the broken rules among them. |
| ConfigManagement.FlaggedInOrder | DirSync/ConfigManager.cs:145-215 | Complaints appear in the order of the checks, and none twice. |
| ConfigManagement.PathLines | DirSync/ConfigManager.cs:189-215 | The path checks' message, check by check, in the code's order. |
| ConfigManagement.PathMessageExact | DirSync/ConfigManager.cs:189-215 | Each path complaint is in the message exactly when its rule is violated. |
| ConfigManagement.PathMessageEmpty | DirSync/ConfigManager.cs:217-222 | The path message is empty exactly when the paths are valid. |
| ConfigManagement.ValidatePaths | DirSync/ConfigManager.cs:185-223 | There is one complaint per pair of the three paths that are equal ignoring case. Others are raised for the source and replica lying inside one another, and for the logs folder inside the source or the replica. The complaints are in order. The result is true exactly when there is no complaint, that is, when the paths are valid. |
| ConfigManagement.FieldLines | DirSync/ConfigManager.cs:145-164 | The field checks' message, check by check: each path is missing or else not found, then the interval, then the archiving switch. |
| ConfigManagement.FieldMessageExact | DirSync/ConfigManager.cs:145-164 | Each field complaint is in the message exactly when its rule is broken. |
| ConfigManagement.FieldMessageEmpty | DirSync/ConfigManager.cs:145-164 | The field message is empty exactly when every field is valid. |
| ConfigManagement.ValidateConfig | DirSync/ConfigManager.cs:143-182 | Every field violation is reported, not just the first. The path checks run only when no field check complained. The result is true exactly when the message is empty, that is, when the configuration is valid. |
| ConfigManagement.DefaultConfigInvalid | DirSync/Config.cs:18-25 | The default configuration is rejected for its three empty paths and nothing else. |
| ConfigManagement.IntervalArgumentChecked | DirSync/ConfigManager.cs:160-161 | For any `--interval` text: the interval stored from it breaks the interval rule exactly when the text does not parse to a positive `int`, and then the configuration is invalid. |
| ConfigManagement.SourceInsideLogsAccepted | DirSync/ConfigManager.cs:203-215 | A source folder inside the logs folder passes the path checks. |
| ConfigManagement.MergeConfigInPlace | DirSync/ConfigManager.cs:256-272 | Returns the merged configuration: each path comes from the override when it is non-empty, and each nullable setting when it is set. |
| ConfigManagement.MergeFields | DirSync/ConfigManager.cs:256-272 | Each setting comes from the override exactly when the override has it, and otherwise stays unchanged. |
| ConfigManagement.MergeIdempotent | DirSync/ConfigManager.cs:256-272 | Applying an override twice is the same as applying it once. |
| ConfigManagement.MergeEmptyOrSelf | DirSync/ConfigManager.cs:256-272 | Merging `GetEmptyConfig()` into a configuration, or a configuration into itself, changes nothing. |
| ConfigManagement.MergeAssociative | DirSync/ConfigManager.cs:256-272 | Merging two overrides in turn is the same as merging the second over the first. |
| ConfigManagement.SplitAtFirst | DirSync/ConfigManager.cs:281-282 | There are two parts exactly when the separator occurs. The parts rejoin to the argument, and the first part has no separator. |
| ConfigManagement.SplitAtFirstJoin | DirSync/ConfigManager.cs:281-282 | Splitting undoes joining at a separator the key does not contain. |
| ConfigManagement.ArgumentsKeys | DirSync/ConfigManager.cs:279-291 | A key is in the dictionary exactly when some argument has it. |
| ConfigManagement.ArgumentsLastWins | DirSync/ConfigManager.cs:284 | A key's value comes from the last argument with that key. |
| ConfigManagement.Arguments | DirSync/ConfigManager.cs:279-291 | The dictionary the argument loop fills. Every key is lower case. |
| ConfigManagement.SignedValue | DirSync/ConfigManager.cs:322 | Trimmed text has a value exactly when it is a non-empty digit string, or a '+' or '-' followed by one. A negative value comes only after a '-'. |
| ConfigManagement.ParseInt32 | DirSync/ConfigManager.cs:322 | `int.TryParse`: a parsed value has non-blank text and fits an `int`. |
| ConfigManagement.ParseInt32Exact | DirSync/ConfigManager.cs:322 | The accepted texts exactly, in both directions: `s` parses to `v` if and only if `s` is white space, an optional '+' or '-', at least one digit, then white space, and `v` is the signed value of those digits and lies in the `int` range. |
| ConfigManagement.ParsesText | DirSync/ConfigManager.cs:322 | Integer text parses exactly when its signed value fits an `int`, and then to that value. |
| ConfigManagement.TextOfParse | DirSync/ConfigManager.cs:322 | Text that parses splits into white space, a sign, digits and white space, and the result is the digits' signed value. |
| ConfigManagement.ParseInt32Digits | DirSync/ConfigManager.cs:322 | A digit string parses to the number it denotes exactly when that fits an `int`. |
| ConfigManagement.ParseInt32Signed | DirSync/ConfigManager.cs:322 | A signed digit string parses to its signed value when that fits, and to nothing otherwise. |
| ConfigManagement.ParseInt32RejectsOther | DirSync/ConfigManager.cs:322 | Text containing any character other than white space, digits or signs parses to nothing. |
| ConfigManagement.ParseInt32RejectsBlank | DirSync/ConfigManager.cs:322 | Blank text parses to nothing. |
| ConfigManagement.ParseBool | DirSync/ConfigManager.cs:331 | `bool.TryParse`: true exactly for a trimmed "True" in any case, false exactly for a trimmed "False" in any case, and nothing otherwise. |
| ConfigManagement.ParseArgumentsToConfig | DirSync/ConfigManager.cs:274-339 | The program exits exactly when some argument has no '=', and the first such argument is named. A given path that cannot be resolved throws, naming the first of --source, --replica and --logs that fails. Otherwise the settings: the given paths in full form, the last duplicate winning. An interval that does not parse is stored as 0, and an archive switch that does not parse as false. Settings not given stay unset. |
| ConfigManagement.CollectArguments | DirSync/ConfigManager.cs:279-291 | The loop stops exactly when some argument has no '=', and names the first such argument. Otherwise the dictionary is `Arguments` of all of them. |
| ConfigManagement.FirstUnresolved | DirSync/ConfigManager.cs:293-317 | The path the settings throw on: one of the given values, and one without a full form. |
| ConfigManagement.ReadSettings | DirSync/ConfigManager.cs:292-338 | A given path that cannot be resolved throws, naming the first of --source, --replica and --logs that fails. Otherwise the three paths are given in full form or left empty, an interval that does not parse is stored as 0, an archive switch that does not parse is stored as false, and settings not given stay unset. |
| FileHash.BitConverterToString | DirSync/FileSystemUtils.cs:18 | `BitConverter.ToString` writes 3n − 1 characters for n > 0 bytes, and nothing for none. |
| FileHash.BitConverterLayout | DirSync/FileSystemUtils.cs:18 | Byte i is written as its two upper-case hex digits at positions 3i and 3i + 1, followed by a dash at 3i + 2 unless it is the last byte. |
| FileHash.RemoveDashes | DirSync/FileSystemUtils.cs:18 | `Replace("-", "")` leaves no dash. |
| FileHash.RemoveDashesKeeps | DirSync/FileSystemUtils.cs:18 | A string without a dash is left exactly as it is. |
| FileHash.RemoveDashesAppend | DirSync/FileSystemUtils.cs:18 | Dash removal distributes over concatenation. |
| FileHash.RenderIsLowerHex | DirSync/FileSystemUtils.cs:18 | The rendering equals two lower-case hex digits per byte, high nibble first. |
| FileHash.LowerHexShape | DirSync/FileSystemUtils.cs:18 | That rendering has 2 characters per byte, each in [0-9a-f]. |
| FileHash.LowerHexRoundTrip | DirSync/FileSystemUtils.cs:18 | That rendering reads back to the bytes it came from. |
| FileHash.Render | DirSync/FileSystemUtils.cs:18 | The hash string is the plain lower-case hex of the digest and reads back to it. |
| FileHash.RenderInjective | DirSync/FileSystemUtils.cs:11-21 | Two hash strings are equal exactly when the digests are equal. |
| FileHash.RenderedDigestShape | DirSync/FileSystemUtils.cs:11-21 | A SHA-256 hash string has 64 characters, all in [0-9a-f]. |
| FileSystem.FileSystem.constructor | DirSync/Program.cs:34-40 | The filesystem the service starts on: the given well-formed trees, with no session log yet. |
| FileSystem.FileSystem.Fingerprint | DirSync/FileSystemUtils.cs:11-21 | The hash string of some content: 64 lower-case hex characters. |
| FileSystem.FileSystem.GetFileHash | DirSync/FileSystemUtils.cs:11-21 | When the location is a file, the hash of its content, 64 characters long. When it is not, `File.OpenRead` throws. |
| FileSystem.FileSystem.GetFiles | DirSync/SyncService.cs:122 | The recursive file listing of a root, as relative paths. |
| FileSystem.FileSystem.GetDirectories | DirSync/SyncService.cs:66 | The recursive directory listing of a root, as relative paths. |
| FileSystem.FileSystem.GetTopDirectories | DirSync/SyncService.cs:219 | The directories directly inside a directory, or a throw when it does not exist. |
| FileSystem.FileSystem.GetTopFiles | DirSync/SyncService.cs:219 | The files directly inside a directory, or a throw when it does not exist. |
| FileSystem.FileSystem.CreateSessionLog | DirSync/SyncService.cs:61 | The session log exists afterwards, and the trees are unchanged. |
| FileSystem.FileSystem.DeleteSessionLog | DirSync/SyncService.cs:216 | The session log is gone afterwards, and the trees are unchanged. |
| FileSystem.FileSystem.CreateDirectory | DirSync/FileSystemUtils.cs:147-161 | On success, the directory and every missing ancestor exist, with no file in the way. On failure, nothing changes. |
| FileSystem.FileSystem.EnsureParentDirectoriesExist | DirSync/FileSystemUtils.cs:27-46 | An existing parent is left alone and the call succeeds. A missing parent is created with its ancestors, and the result says whether the parent exists afterwards. |
| FileSystem.FileSystem.MoveFile | DirSync/FileSystemUtils.cs:55-71 | The destination's parent is first created when possible, whatever the outcome of the move. The move succeeds only from a file to a free location, and the content travels with it. On failure the files are unchanged. |
| FileSystem.FileSystem.CopyFile | DirSync/FileSystemUtils.cs:79-93 | The copy succeeds only onto a free location in an existing directory, with no overwrite and no directory created. On failure, nothing changes. |
| FileSystem.FileSystem.DeleteFile | DirSync/FileSystemUtils.cs:100-114 | The delete succeeds only on a non-directory in an existing directory, and a missing file counts as deleted. On failure, nothing changes. |
| FileSystem.FileSystem.MoveDirectory | DirSync/FileSystemUtils.cs:123-139 | The destination's parent is created first. The move succeeds only from a directory to a free location outside it, and carries the whole subtree with its contents. On failure, only the parent creation remains. |
| FileSystem.FileSystem.DeleteDirectory | DirSync/FileSystemUtils.cs:167-181 | The delete is recursive: on success the whole subtree is gone. On failure, nothing changes. |
| FileSystem.DirsWithout | DirSync/FileSystemUtils.cs:171 | The directories left after removing a subtree. |
| FileSystem.FilesWithout | DirSync/FileSystemUtils.cs:171 | The files left after removing a subtree, with their contents. |
| FileSystem.DirsMoved | DirSync/FileSystemUtils.cs:129 | The directories after a subtree is rebased from the source location to the destination. |
| FileSystem.FilesMoved | DirSync/FileSystemUtils.cs:129 | The files after a subtree moves, each keeping its bytes. |
| FileSystem.CreatePreserves | DirSync/FileSystemUtils.cs:151 | Creating a directory with its ancestors keeps the tree well formed. |
| FileSystem.RemovePreserves | DirSync/FileSystemUtils.cs:171 | Removing a subtree keeps the tree well formed. |
| FileSystem.MovePreserves | DirSync/FileSystemUtils.cs:129 | Moving a subtree to a free location in an existing directory outside it keeps the tree well formed. |
| FileSystem.NothingBelowMissing | DirSync/SyncService.cs:74-77 | Nothing lies beneath a location that does not exist, so a listed entry removed with an ancestor is skipped. |
| FileSystem.EmptyDirHoldsNothing | DirSync/SyncService.cs:219-221 | A directory with nothing directly inside it has nothing anywhere beneath it. |
| SessionIds.SessionId | DirSync/SyncService.cs:58 | The id is 32 characters long, starts with `Sync_Session_`, and contains no path separator, so the session folder is one path step. |
| SessionIds.Pad | DirSync/SyncService.cs:58 | A zero-padded field has exactly the given width, all digits. |
| SessionIds.PadRoundTrip | DirSync/SyncService.cs:58 | A padded field reads back to its number. |
| SessionIds.SessionIdLayout | DirSync/SyncService.cs:58 | The id is 32 characters long, and each field has a fixed position. |
| SessionIds.SessionIdInjective | DirSync/SyncService.cs:58 | Two ids are equal exactly when the clock readings are equal. |
| Text.ToLower | DirSync/FileSystemUtils.cs:18 | Lower-casing keeps the length and lower-cases each character. |
| Text.ToLowerAppend | DirSync/FileSystemUtils.cs:18 | Lower-casing distributes over concatenation. |
| Text.EqualsIgnoreCaseLowered | DirSync/ConfigManager.cs:190-201 | `string.Equals` with `OrdinalIgnoreCase` (`Text.EqualsIgnoreCase`, which folds to upper case) holds exactly when the lower-cased strings are equal. |
| Text.StartsWithIgnoreCaseLowered | DirSync/ConfigManager.cs:231 | `StartsWith` with `OrdinalIgnoreCase` (`Text.StartsWithIgnoreCase`) holds exactly when the lower-cased prefix is a prefix of the lower-cased string. |
| Text.EqualsIgnoreCaseIsEquivalence | DirSync/ConfigManager.cs:190-201 | Ordinal case-insensitive equality is reflexive, symmetric and transitive. |
| Text.MutualPrefixes | DirSync/ConfigManager.cs:231 | Two strings are case-insensitive prefixes of each other exactly when they are equal ignoring case. |
| Text.StartsWithIgnoreCaseTransitive | DirSync/ConfigManager.cs:231 | Being a case-insensitive prefix is transitive. |
| Text.TrimStart | DirSync/ConfigManager.cs:322 | Leading white space is dropped: the result is a suffix that starts with a non-white character. |
| Text.TrimEnd | DirSync/ConfigManager.cs:322 | Trailing white space is dropped: the result is a prefix that ends with a non-white character. |
| Text.Trim | DirSync/ConfigManager.cs:322 | Neither end of the result is white space, and a string without surrounding white space is kept as it is. |
| Text.TrimStartKeeps | DirSync/ConfigManager.cs:322 | A non-white character survives `TrimStart`. |
| Text.TrimEndKeeps | DirSync/ConfigManager.cs:322 | A non-white character survives `TrimEnd`. |
| Text.TrimKeepsNonWhite | DirSync/ConfigManager.cs:322 | `Trim` removes nothing but white space. |
| Text.TrimStartDropsWhite | DirSync/ConfigManager.cs:322 | Everything `TrimStart` drops is white space. |
| Text.TrimEndDropsWhite | DirSync/ConfigManager.cs:322 | Everything `TrimEnd` drops is white space. |
| Text.TrimStartPast | DirSync/ConfigManager.cs:322 | White space in front of text that starts with a non-white character is exactly what `TrimStart` drops. |
| Text.TrimEndPast | DirSync/ConfigManager.cs:322 | White space after text that ends with a non-white character is exactly what `TrimEnd` drops. |
| Text.TrimSurrounded | DirSync/ConfigManager.cs:322 | `Trim` gives back text with non-white ends from between any white space. |
| Text.TrimSplit | DirSync/ConfigManager.cs:322 | Every string is the white space `Trim` drops on each side around what `Trim` keeps. |

## Behaviour worth knowing

- The mutation flag is set after every attempted mutation, whether or not it succeeded (DirSync/SyncService.cs:88, 93, 114, 138, 143, 177, 182, 206). The only exception is a failed archive move in phase 4, which skips to the next file first.
- The session folder is removed whenever it has no top-level entry (DirSync/SyncService.cs:219-222), whatever the flag says.
- Phase 4 hashes outside any try block (DirSync/SyncService.cs:163-164). A replica file with no source file therefore throws out of `PerformSync`; phase 5 and the cleanup do not run, and the model returns `Threw`.
- `ValidatePaths` does not reject a source or replica folder lying inside the logs folder (DirSync/ConfigManager.cs:203-215).
- An interval above 2147483 seconds passes validation, but `Thread.Sleep` rejects the delay after a short session (DirSync/SyncScheduler.cs:56). The model reports this as `SleepThrew`.

## Left out

- Logging: message text, the console, colours and the error log are not modelled. Only whether a session log exists is kept (`sessionLogs`). Creating the session log never fails in the model (`CreateSessionLog`), and neither does deleting it when a session ends with nothing done. In .NET, `File.Create` (DirSync/Logger.cs:29) and that deletion (DirSync/Logger.cs:35) can both throw, and the exception would leave `PerformSync`.
- FileSystem.FileSystem.DeleteDirectory: a failed call changes nothing in the model. A recursive `Directory.Delete` (DirSync/FileSystemUtils.cs:171) that fails part-way has already deleted part of the subtree. Likewise a failed `Directory.CreateDirectory` may have created some ancestors, and a `File.Move` across volumes (DirSync/FileSystemUtils.cs:61) that fails may leave the copy at the destination. These partial results are not modelled: `CreateDirectory`, `DeleteDirectory` and `MoveFile` promise all or nothing (apart from the parents `MoveFile` and `MoveDirectory` create first).
- PromptUtils, Program and the JSON persistence of ConfigManager (`Initialize`, `InitializeConfig`, `ConfigureInteractive`, `ConfigureNonInteractive`, `SaveConfig`, `PrintConfig`) are outside the core modelled here. They do console I/O, process exit and file serialisation.
- Host paths: `Path.Combine` and `Path.GetRelativePath` are the identity on relative paths under the three roots. `Path.GetFullPath` and `Directory.Exists` are uninterpreted parameters of the configuration code.
- FileSystem.FileSystem.GetFileHash: it throws only when the location is not a file. A file that exists but cannot be read (permissions, a lock, an I/O error) also makes `File.OpenRead` throw; that case is not modelled.
- Sync.SyncService.HandleEditedFile: it throws only when the source counterpart is missing, because the hash is modelled as above. An unreadable source or replica file would throw out of `PerformSync` as well.
- Sync.SyncService.ReplaceEditedFiles: the phase throws exactly when some replica file has no source file. In .NET it also throws when a file cannot be read, which the model does not have.
- FileSystem.FileSystem.GetFiles: the recursive listing always succeeds. `Directory.GetFiles` throws on a directory it cannot read, and that exception would escape `PerformSync`; it is not modelled.
- FileSystem.FileSystem.GetDirectories: the same holds for `Directory.GetDirectories`.
- Phases.Idle: it rests on reads never failing. With an unreadable file, phase 4 could throw on a replica that mirrors the source.
- SessionProof.Sequence: its clause that a stopped run did not start from a mirrored replica rests on the same assumption.
- Sync.SyncService.PerformSync: the archive is `<logs>/DirSync/Archive` (DirSync/Program.cs:29-32), and the model keeps it as a root of its own. It therefore assumes that neither the source nor the replica contains `<logs>/DirSync` or lies inside it. Validation does not rule out a source or replica inside the logs folder, and there the phases would also see the archive and the logs.
- Enumeration order: each phase walks its listing in an arbitrary order, except phase 1, which goes shallowest first as .NET's breadth-first listing does. Nothing changes the filesystem concurrently during a run.
- The SHA-256 function itself (FIPS 180-4) is an opaque function from bytes to a 32-byte digest. Only its rendering is modelled.
- The clock: `DateTime.Now` and `DateTime.UtcNow` are given as readings, and `Thread.Sleep` is represented by the pause it would take. The one-second sleeps of the countdown are not modelled.
- Scheduling.SyncScheduler.Start: the endless loop runs once per given reading, so the model covers any finite prefix of the run, not the infinite run.
- Scheduling.PauseAfter: `TimeSpan.TotalMilliseconds` is a double. It is modelled as exact integer division of ticks, truncated toward zero as the conversion to `Thread.Sleep`'s milliseconds does for positive delays.
- ConfigManagement.MergeConfigInPlace: it returns the merged record instead of updating its argument in place. Aliasing between the base and the override is not captured.
- ConfigManagement.ValidateConfig: the `null` configuration check is not modelled, because a `Config` value always exists here. The message text is a sequence of complaint kinds, not the exact wording.
- Text.ToLower: it lower-cases the ASCII letters A to Z only, as the invariant culture does. `ToLower()` at DirSync/ConfigManager.cs:284 uses the current culture, which differs on ASCII too: under tr-TR or az-AZ, 'I' becomes the dotless 'ı', so `--REPLICA=`, `--INTERVAL=` and `--ARCHIVE=` would miss their keys. Neither that nor the culture-aware casing of non-ASCII letters is captured.
- Text.EqualsIgnoreCaseIsEquivalence: ordinal ignore-case comparison is ASCII-only here, for the same reason.
- Text.Trim: only the ASCII white-space characters are trimmed, not every Unicode white-space character `Char.IsWhiteSpace` accepts.
- ConfigManagement.ParseInt32: it accepts only ASCII '+' and '-' as signs. `int.TryParse` reads the signs of the current culture's `NumberFormatInfo`; under a culture whose negative sign is U+2212, "−5" parses in .NET but not in the model. Thousands separators do not apply to the default integer style.
- `GetDefaultConfig` and `GetEmptyConfig` are constants of the model. Their contents are used through `ConfigManagement.DefaultConfigInvalid` and `ConfigManagement.MergeEmptyOrSelf`.
