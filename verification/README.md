# gala-filetrace, modelled in Dafny

gala-filetrace watches configuration files with eBPF. The kernel half captures an event for every write, copy or
removal, with the file's name and up to four directory names in fixed slots. The user-space half rebuilds the path,
compares it with a configured list, reports the accepted events (a counter, a gauge per process, a published record with
the ancestry of the process), queues them for an HTTP poll, and keeps a rotating log. This project models the
components that carry state or parse bytes, each in its own module, and proves what they keep over whole runs.

| file | module | what it models |
|---|---|---|
| `text.dfy` | `Text` | byte strings, the decimal printer, `std::stol` and `std::stoul` |
| `utf8.dfy` | `Utf8` | `sanitize_utf8` |
| `statline.dfy` | `StatLine` | `split_stat_line` and the /proc lookup |
| `capture.dfy` | `Capture` | the two dentry walks and the handlers that fill an event |
| `paths.dfy` | `Paths` | `get_full_path`, `get_dir_level`, the list checks of `load_config` |
| `skiplist.dfy`, `filter.dfy` | `SkipList`, `Filter` | `match_process_name`, `compare_config_file`, `is_valid_event`; exactness for writes, copies and removals by bare name |
| `removals.dfy` | `Removals` | exactness for removals by absolute and relative names |
| `config.dfy` | `Config` | `update_config` over runs of requests |
| `post.dfy`, `pipeline.dfy` | `Post`, `Pipeline` | `process_event`, the bounded queue and the poll; runs of events, updates and polls |
| `ancestry.dfy`, `processes.dfy` | `Ancestry`, `Processes` | `generate_proc_trace`; fork, exec and exit filling the map it walks |
| `gauges.dfy` | `Gauges` | `set_metrics` and the timeout sweeper, interleaved |
| `logging.dfy` | `Logging` | level filter, log file and rotation |
| `ipaddr.dfy` | `IpAddr` | `is_valid_ip` |

Code that changes things in place is modelled by classes and loops (`Capture.RingEvent`, `Post.PostData`,
`Gauges.Exporter`, `Logging.Logger`, and the loops of the text code). Each of their methods is proved equal to a
specification function, and the properties are lemmas about those functions and about runs of them.

## Where the code does not do what one would expect

- `sanitize_utf8` checks structure only: overlong forms, surrogates and values above U+10FFFF pass.
  `Utf8.RfcValidExactly` says exactly when the output is valid under section 4 of RFC 3629, and `Utf8.OverlongPasses`
  gives an input for which it is not.
- Writes, copies and removals by bare name are decided by a file's true path if and only if each listed file path has at
  most four components, directory names of at most 14 bytes and a file name of at most 62 (`Filter.ExactExactly`;
  `Filter.Reliable` is the test, made on the text of the entry). A deeper path is also rebuilt from deeper files
  (`Filter.Alias`), and a name that fills its slot is also what is left of longer names (`Filter.CutAlias`): with `/` + 15
  letters + `/x` listed, a write to `x` in a directory of 16 letters is reported (`Filter.CutNameReported`). No write or
  copy matches an entry of six components or more (`Filter.NeverMatchedBelowFive`); a removal by absolute name can.
- Removals by absolute name are matched by the name as written, cut to 63 bytes (`Removals.AcceptedByAbsoluteName`), so
  depth plays no part and hidden files are reported too. They are decided by the true path if and only if no listed file
  path is longer than 63 bytes and no entry of exactly 63, a closing `/` included, is the beginning of a file path
  (`Removals.AbsoluteExactly`). A list exact for writes need not pass: with `/` + 62 letters listed, the removal of `/` +
  63 letters is reported (`Removals.CutPathReported`).
- Removals by relative name from a resolved directory are decided by the true path if and only if the entries are reliable
  for writes and neither cut to the 63 bytes of the name nor what is left of a longer one (`Removals.RelativeExactly`). A
  name that starts with `.` is never reported, and a name with `.` or `..` among its components is matched as it stands:
  with `/a/b` listed, neither `./b` nor `c/../b`, removed from `/a`, is reported (`Removals.DottedNamesMissed`).
- A reliable entry of less than 63 bytes passes all these tests (`Removals.ShortEntry`). Renames are matched by the new
  name as captured, like removals by absolute name.
- `load_config` checks levels only. No level limit makes every accepted list exact for writes
  (`Filter.LevelNeverSuffices`). A limit of four or less, the default, does so for writes to the files whose own names fit
  their slots, and to all files when the entries are short of theirs; a limit of five or more does neither
  (`Filter.LevelLimit`).
- `update_config` checks neither levels nor names: an addition keeps the decisions about writes, and those about removals,
  exact if and only if the added path passes the tests above (`Config.AddKeepsExact`, `Removals.AddKeepsRemovalsExact`).
  It also changes memory before it touches the disk: after a failed open or rename the two can differ
  (`Config.AgreeExactly`, `Config.FailedSaveDiffers`).
- A removal with a relative name is matched by its full path but reported by the name as the caller wrote it
  (`Filter.ReportedExactly`, `Filter.BareNameReported`).
- `generate_proc_trace` has no bound of its own. Over a map that contains a cycle it never stops
  (`Ancestry.HaltsExactly`). Without reuse of process ids no cycle can arise (`Processes.WalkHalts`); with reuse one can
  (`Processes.ReuseCanLoop`).
- Backups are named by the second of local time. Two log rotations in the same second share a name and the second
  overwrites the first (`Logging.ConservationExactly`, `Logging.SameSecondLoses`).
- `split_stat_line` throws on a line without `(` and on a line ending in `)` (`StatLine.SplitStatLine`); nothing in the
  ancestry walk catches it, so no trace is published then (`Ancestry.GenerateProcTrace`, `Ancestry.ShortLineThrows`).
- A poll whose `count` exceeds the queue limit is treated like one without a count and gets ten records at most
  (`Post.AsksForExactly`).
- A comment in `src/include/exporter.hpp` says the sweeper checks every minute; the code sleeps one second between
  passes. The model leaves the period open.

## Modelling decisions

- A C character array is the text before its terminator, and reading into one cuts the text to the room it has.
  `size_t` arithmetic on string positions wraps modulo 2^64 in `StatLine`; `unsigned int` narrowing of the parent pid is
  explicit. Bit tests on bytes are written as divisions: `(b & 0xC0) == 0x80` is `b / 64 == 2`.
- A dentry is a chain of names ending at the root of one file system. The kernel's walk does not cross mount points, so
  "true path" means the path below that root. No name is "." or "..", and names may have any length; the kernel's own
  limit of 255 bytes is not modelled, and the files with a cut name in `Filter.CutAlias` and in `Removals` can be longer.
- A critical section is one step; the time sample `set_metrics` takes before the lock is a separate step, so samples
  and commits of different threads interleave freely. The sweeper meets the entries in an arbitrary order, which
  includes the ascending order of `std::map`, and reads the clock anew for each entry.
- The gauge family is a map from label set to gauge in which `Add` returns the existing gauge for equal labels and
  `Remove` drops the series of one gauge.
- The configuration object is a map from key to value. A queued record holds the fields `cache_event` copies, except the
  ones an accepted write, copy or removal leaves empty.
- `send` sets the metrics and then publishes; the outcome of publishing is an input, None standing for an exception while
  the record is built or dumped. Such an event is counted and not queued. `Pipeline.Serve` carries whole runs out on the
  object, so the results about runs are results about it; `Gauges.Interleave` does the same for the exporter. The model lets a run go on after an exception.
- The answers of `/proc` and of the exec map may differ between any two lookups of the ancestry walk; they are a
  function of the iteration, taken from moments of one behaviour in `Processes`.
- `Ancestry.GenerateProcTrace` is a loop without a bound in the source. Dafny requires termination, so the method is
  called with a number of iterations within which it halts; `HaltsExactly` and `WalkHalts` say when there is one.
- Assumptions of `Processes` about the machine: a process id is given out once, a process whose parent exits is adopted
  by an earlier-born one, the recorded parent is a process (a group leader) although the handlers record the parent
  thread's `->pid`, every process id is at most 4194304, command names contain no NUL and have at most 255 bytes, and the
  fields behind the parent in a stat line take at most 65536 bytes.
- Assumptions of the log results: the named opens succeed where stated, writes do not fail, nobody else touches the
  files, and the local time that backups are named by is not set back between rotations, neither by a clock running
  backwards nor by the end of summer time. Each call of the logger brings its own formatted line, the second its rotation
  would be named after, and whether renaming and reopening would succeed. The model's standard error holds the
  diverted log lines, not the diagnostics about failed opens and renames.

## Model

| member | source | states |
|---|---|---|
| Utf8.Sanitize | src/post.cpp:7-48 | the scanning loop computes the one left-to-right decomposition described by `IsScan`, units copied and every other byte replaced by U+FFFD |
| Utf8.PiecesScan | src/post.cpp:12-46 | the decomposition keeps a unit wherever one starts and gives up a single byte only where no unit starts |
| Utf8.ScanUnique | src/post.cpp:12-46 | no other decomposition of the string has that property |
| Utf8.SanitizedAccounts | src/post.cpp:14-45 | the pieces spell the input back, and the output is longer by two for each byte replaced |
| Utf8.PiecesOfUnits | src/post.cpp:12-46 | units are a prefix code: a string made of units is cut back into exactly those units |
| Utf8.SanitizedWellFormed | src/post.cpp:6-48 | every output consists of structurally complete one to four byte units |
| Utf8.FixedPoints | src/post.cpp:6-48 | a string is unchanged if and only if it is structurally well formed, and sanitising is idempotent |
| Utf8.RfcUnitExactly | src/post.cpp:14-41 | what the structural test admits beyond section 4 of RFC 3629 are overlong forms, surrogates and values above U+10FFFF, and nothing else |
| Utf8.RfcValidUnchanged | src/post.cpp:6-48 | a string valid under section 4 of RFC 3629 is unchanged |
| Utf8.RfcValidExactly | src/post.cpp:6-48 | the output is valid under RFC 3629 if and only if every kept unit is |
| Utf8.OverlongPasses | src/post.cpp:17-20 | the overlong form C0 80 passes unchanged, so the output need not be valid under RFC 3629 |
| Utf8.SafeCut | src/post.cpp:12-46 | sanitising distributes over a cut whose right part is empty or does not start with a continuation byte |
| Utf8.SafeCutExactly | src/post.cpp:12-46 | those are exactly the right parts for which it distributes whatever precedes them |
| Utf8.SanitizedJoin | src/post.cpp:393-399 | sanitising words joined with blanks equals joining the separately sanitised words |
| Text.DecValue | src/exporter.cpp:132-142 | the number a decimal text spells is the number it was printed from |
| Text.DecInjective | src/exporter.cpp:142 | distinct numbers print differently |
| Text.StolInvertsToString | src/exporter.cpp:180 | reading back a stored timestamp gives the time that was printed, for every 64-bit value |
| Text.StoulInvertsDec | src/post.cpp:604 | reading back a printed parent pid gives that number |
| Text.ReadNumberExactly | src/post.cpp:604 | blanks in front of a number and text behind it are ignored, and its sign is heeded |
| Text.SplitJoin | src/post.cpp:125-127 | splitting at a separator undoes joining with it |
| Text.JoinSplit | src/post.cpp:125-127 | joining the pieces of a split gives the text back |
| StatLine.ReadTokens | src/post.cpp:570-574 | the extraction loop yields all blank-separated tokens |
| StatLine.TokensOfJoin | src/post.cpp:570-574 | extracting tokens undoes joining them with blanks |
| StatLine.TokensAfterBlank | src/post.cpp:570-574 | a blank of any of the six kinds in front makes no difference to the tokens |
| StatLine.SplitStatLine | src/post.cpp:552-577 | on every line, malformed ones and wrapped positions included: the text up to the first blank, from the first '(' to the last ')', and the tokens behind; a throw if and only if there is no '(' or the line ends in ')' |
| StatLine.CommSubstr | src/post.cpp:564-566 | what the middle `substr` yields with all positions modulo 2^64: it throws if and only if there is no '(' |
| StatLine.RestSubstr | src/post.cpp:567-570 | the last `substr` throws if and only if the line ends in ')' |
| StatLine.SplitPrinted | src/post.cpp:552-577 | splitting a printed stat line gives back pid, "(comm)" and the tokens, whatever the command name contains |
| StatLine.GetProcInfoFromSystem | src/post.cpp:579-608 | missing if and only if the pid is 0 or above 4194304, the file is absent, or the line has fewer than five fields; a process found has the line's fourth field, narrowed to 32 bits, as parent, the first 31 bytes of the second as command, and the arguments left from before |
| StatLine.LookupPrinted | src/post.cpp:598-606 | from the line the kernel prints, the lookup recovers the parent pid and the first 31 bytes of "(comm)" |
| Capture.CreateRingbuf | src/filetrace.bpf.c:27-40 | no event for the tracer itself or when the buffer is full, otherwise a fresh zeroed one |
| Capture.FillParentDirs | src/filetrace.bpf.c:42-70 | for any start and any tree the slots receive the names of the nearest parents, at most four, the others unchanged |
| Capture.FillDirChain | src/filetrace.bpf.c:121-153 | the slots receive the directory itself and its nearest parents, at most four; nothing changes without a base |
| Capture.WalksAgree | src/filetrace.bpf.c:45-153 | the walk from a file over its parents and the walk from its directory read the same names |
| Capture.CreateFileEvent | src/filetrace.bpf.c:231-302 | while the buffer has room, an event exactly for readable regular files touched by others than the tracer, carrying the task, its parent's id or 0 when that cannot be read, the inode, the cut name and the parent names |
| Capture.TraceWrite | src/filetrace.bpf.c:541-599 | while the buffer has room, an event exactly for writes to regular files by others than the tracer, equal to what a copy to that file captures but for the flag |
| Capture.EnterUnlinkat | src/filetrace.bpf.c:191-229 | while the buffer has room, an event for every removal by others than the tracer, with the directory chain unless the name is absolute or no base is resolved |
| Capture.ParentWalkAt | src/filetrace.bpf.c:49-69 | the k-th name read is that of the k-th parent, cut to 15 bytes, as long as there is one; the root is read as "/" and ends the walk |
| Capture.FileEventTells | src/filetrace.bpf.c:243-300 | the event of a write or copy has the task's id and command, its parent's id or 0, user, group and inode, the name cut to 63 bytes, and in slot k the k-th parent's name |
| Capture.UnlinkEventTells | src/filetrace.bpf.c:203-215 | the event of a removal has the task's id and command, its parent's id or 0, the name cut to 63 bytes, and neither user, group nor inode; unless the name is absolute or no base is resolved, its slots hold the directory's own name and its parents' |
| Paths.GetFullPath | src/post.cpp:629-649 | the rebuilt path is the slots from the far end and the name, empty ones and "/" left out, joined and rooted |
| Paths.KeptOfWalk | src/post.cpp:632-641 | read from the far end, the slots of a walk of any length hold exactly the last directories of the path, each cut to its slot, and the root leaves no trace |
| Paths.RebuiltPath | src/post.cpp:629-649 | for a file at any depth with names of any length, capture and rebuild together give the path of its last five components, each cut to its slot |
| Paths.PathInjective | src/post.cpp:451-455 | distinct files of a tree have distinct true paths |
| Paths.FromComponentsInverse | src/filetrace.bpf.c:45-70 | every sequence of proper names is the path of some file |
| Paths.FilePathExactly | src/post.cpp:795-806 | the test on an entry's text, absolute and without components that are empty or only dots, holds of exactly the true paths of files |
| Paths.PathSlashes | src/post.cpp:805 | a path has as many slashes as components |
| Paths.LevelOfPath | src/post.cpp:795-806 | the level of a file's path is its number of components |
| Paths.OtherLevels | src/post.cpp:798-804 | a closing '/' does not count, and exactly the texts that are not absolute have level -1 |
| Paths.AcceptedLevels | src/post.cpp:160-176 | a path of n components is accepted if and only if n is at most the configured level, or at most four when none is configured |
| Paths.CheckList | src/post.cpp:144-176 | a list is accepted if and only if it is not empty and every entry is absolute and within the level, which is four unless a positive one is configured |
| SkipList.MatchProcessName | src/post.cpp:459-482 | true if and only if the command is not empty and some entry agrees with the part behind its last '/' byte by byte up to 15 bytes, long names being cut and short ones compared whole |
| SkipList.SameProcessExactly | src/post.cpp:470-478 | the relation both branches decide, in terms of lengths and single bytes |
| SkipList.BasenameOf | src/post.cpp:464-465 | what is compared is the text behind the last '/', whatever precedes it |
| Filter.CompareConfigFile | src/post.cpp:437-457 | true if and only if the non-empty path is listed, or in verbose mode is the monitored path |
| Filter.IsValidEvent | src/post.cpp:484-534 | an event is valid if and only if its name is visible, its pid is not 0, its process is not skipped, and it is a rename whose new name, or a write, copy or removal whose rebuilt path, is listed (or in verbose mode the monitored path); openat, dup2 and unknown calls never are |
| Filter.RenameDecided | src/post.cpp:511-518 | a rename of any of the three kinds is accepted if and only if its pid is not 0, its process is not skipped, and the new name as captured is visible and listed |
| Filter.OthersRejected | src/post.cpp:530-531 | openat, dup2 and unknown calls are never accepted |
| Filter.RebuiltIsSuffix | src/post.cpp:629-649 | with names that fit, the rebuilt path is made of the last five components, so it is the true path up to that depth |
| Filter.CapturedFits | src/filetrace.bpf.c:42-70 | whatever is captured fits the slots; if it has at most four names, all short of their slots, it is the whole path |
| Filter.NeverMatchedBelowFive | src/post.cpp:451-455 | no write or copy, whatever the file's names, rebuilds to a listed path of six or more components |
| Filter.Alias | src/filetrace.bpf.c:42-70 | every five-component path whose names fit is also rebuilt from some deeper file that a given list does not contain |
| Filter.CutAlias | src/filetrace.bpf.c:58-67 | every path with a name that fills its slot is also rebuilt from a file with a longer name that a given list does not contain |
| Filter.ExactExactly | src/post.cpp:629-649 | for writes, copies and removals by bare name: matching rebuilt paths agrees with matching true paths about every file there can be if and only if each listed file path has at most four components and only names short of their slots |
| Filter.FittingExactly | src/post.cpp:629-649 | about the files whose names fit, it agrees if and only if no listed file path with fitting names has five or more components |
| Filter.LevelLimit | src/post.cpp:160-176 | accepted lists are exact about writes to files whose names fit, and accepted lists of short names about writes to all files, if and only if the effective level limit is at most four |
| Filter.LevelNeverSuffices | src/post.cpp:160-176 | for every level limit `load_config` accepts some list that is not exact for writes |
| Filter.AcceptedByRebuilt | src/post.cpp:491-534 | for any file, of any depth and names, and any list, a write or copy is accepted if and only if the file is visible and its last five components, cut to their slots, are listed |
| Filter.ExactDecision | src/post.cpp:491-534 | end to end from dentry to decision: with listed paths at most four deep, and either their names short of the slots or the file's own names fitting, a write or copy is accepted if and only if the file's true path is listed and its name does not start with '.' |
| Filter.ExactFilter | src/post.cpp:491-534 | the same for any list `load_config` accepts with a level limit of at most four |
| Filter.CutNameReported | src/post.cpp:523-529 | an accepted list and a write that is reported although its file is not listed, a directory name having been cut |
| Filter.UnlinkMatchesWrite | src/filetrace.bpf.c:216-223 | removing a bare name from a resolved directory is matched by the same path as a write to that file |
| Filter.ExactUnlink | src/post.cpp:505-510 | exactness carries over, under the same condition, to removals by bare name from a resolved directory |
| Filter.UnlinkRelative | src/filetrace.bpf.c:216-223 | for any relative name the matched path is the directory's last four components, cut to their slots, followed by the name as written, cut to 63 bytes |
| Filter.ReportedExactly | src/post.cpp:421-428 | an accepted removal is reported under the string it was matched by if and only if its name is absolute |
| Filter.BareNameReported | src/post.cpp:421-428 | an accepted removal that is reported under another string than it was matched by |
| Filter.ReportedName | src/post.cpp:421-428 | a write or copy is reported under its rebuilt path, everything else under the captured name |
| Removals.AcceptedByAbsoluteName | src/post.cpp:505-510 | for any text that starts with '/', a removal is accepted if and only if the text is not "/" alone and its first 63 bytes are listed |
| Removals.AbsoluteExactly | src/filetrace.bpf.c:214-223 | removals by absolute name are decided by the true path if and only if no listed file path exceeds 63 bytes and no entry of exactly 63 bytes is the beginning of a file path |
| Removals.ExactAbsoluteUnlink | src/post.cpp:505-510 | then the removal of any file by its absolute name is accepted if and only if the file is listed |
| Removals.CutPathReported | src/filetrace.bpf.c:214-215 | an accepted list that is exact for writes, and a removal that is reported although its file is not listed |
| Removals.AcceptedByRelativeName | src/filetrace.bpf.c:216-223 | for any relative text, a removal is accepted if and only if it does not start with '.' and the directory's retained names followed by its first 63 bytes are listed |
| Removals.RelativeExactly | src/filetrace.bpf.c:216-223 | removals by relative name, from any resolved directory, are decided by the true path if and only if every entry is reliable for writes and neither cut by the room for the name nor left over from a longer one |
| Removals.ExactRelativeUnlink | src/post.cpp:505-510 | under reliable entries, and with the name or the entries keeping to the room, a removal by any relative name in simplest form is accepted if and only if the file is listed by its true path and the name does not start with '.' |
| Removals.DottedNamesMissed | src/post.cpp:493-495 | under a list that is exact for everything above, removals of a listed file by names with dots are not accepted |
| Removals.ShortEntry | src/filetrace.bpf.c:214-223 | an entry of less than 63 bytes is neither cut nor left over |
| Removals.AddKeepsRemovalsExact | src/post.cpp:682-683 | after an addition removals by absolute, or relative, name are decided by the true path if and only if they were before and the added path passes the corresponding test |
| Config.LastWriterWins | src/post.cpp:682-690 | after any run a path is listed if and only if its last edit added it, or it had none and was there at the start; file failures do not matter |
| Config.EditExactly | src/post.cpp:680-689 | "add" adds and "remove" removes the path in "conf" |
| Config.RejectedExactly | src/post.cpp:674-689 | a request is rejected if and only if it asks for neither |
| Config.ErasedExactly | src/post.cpp:685 | a removal drops exactly the copies of the path and keeps the order |
| Config.LastRequestWins | src/post.cpp:670-708 | in terms of requests: after any run a path is listed if and only if the last request to add or remove it asked to add it, or there was none and it was listed at the start |
| Config.StaysInStep | src/post.cpp:690-691 | object and list stay in step and no other key ever changes, in memory or on disk |
| Config.DiskIsLastSaved | src/post.cpp:692-707 | the file holds the whole object as of the last successful request, and its initial content before any |
| Config.AgreeExactly | src/post.cpp:690-707 | after a request memory and disk agree if and only if it succeeded or the disk already held the resulting list |
| Config.FailedSaveDiffers | src/post.cpp:690-698 | a request whose file cannot be opened, after which memory and disk differ |
| Config.AddKeepsExact | src/post.cpp:682-683 | after an addition writes, copies and removals by bare name are decided by the true path of every file if and only if they were before and the added path passes the text test |
| Config.RemoveKeepsExact | src/post.cpp:684-685 | a removal from the list never makes those decisions inexact |
| Config.FilterAfterRun | src/post.cpp:670-708 | after any run of requests whose additions suit the file, a write is accepted according to the last edit of its true path |
| Config.SuitsAfter | src/post.cpp:670-708 | such a run leaves only suitable entries in the list |
| Post.QueueLimit | src/post.cpp:205-210 | a positive configured limit counts as it is, any other as 1000 |
| Post.AsksForExactly | src/post.cpp:761-772 | which raw parameters are sure to be given c records where they are there: a positive count up to the limit of at least c, or anything else if c is at most ten |
| Post.PostData.CacheEvent | src/post.cpp:329-359 | with caching on, a record carrying the event's fields one by one goes to the end of the queue, and a full queue gives up its oldest |
| Post.RecordOfWrite | src/post.cpp:337-348 | the record of a write or copy names the task, its parent and its command, and the path rebuilt from its slots is the one rebuilt for the file |
| Post.PostData.ProcessEvent | src/post.cpp:238-257 | a rejected event, and any event in verbose mode, changes neither metrics nor queue; an accepted one sets the metrics once and is queued once, unless an exception passes through, after which it is counted but not queued |
| Post.PostData.GetEventsFromQueue | src/post.cpp:807-821 | exactly the oldest records leave, in order, as many as asked for and available; none for a count of zero or less; none is lost |
| Post.PostData.Poll | src/post.cpp:760-775 | the poll takes the requested number, or ten when the parameter is missing, unreadable, not positive or above the limit |
| Post.PostData.UpdateConfig | src/post.cpp:670-708 | "add" appends the path, "remove" erases its copies, any other request changes nothing; object and disk follow, including the failed open and rename |
| Post.PostData.HandleUpdateConfigRequest | src/post.cpp:710-740 | 400 without any change for exactly the requests that do not parse or ask neither to add nor to remove; otherwise the list changes as asked, with 200, or with 500 when persisting fails |
| Pipeline.Perform | src/post.cpp:238-257 | an event, an update request or a poll carried out on the object has the effect of one step on settings, queue and counter, and a poll returns what that step hands out |
| Pipeline.Serve | src/post.cpp:742-791 | a whole run on a fresh object ends in the state of the run's steps and has handed out exactly its delivered records, in order |
| Pipeline.StepDelivers | src/post.cpp:807-821 | what a step hands to a client is what it adds to the delivered records |
| Pipeline.StepConserves | src/post.cpp:238-257 | every event, update or poll keeps the conservation invariant, in verbose mode and after exceptions too |
| Pipeline.AlwaysConserved | src/post.cpp:349-355 | over any interleaving the departures are the first queued events in order and the queue is the rest, within its limit; event k is evicted only by the push of event k + limit |
| Pipeline.CounterAccounts | src/exporter.cpp:126-129 | the counter equals delivered plus evicted plus queued records plus the events lost to exceptions |
| Pipeline.RejectedLeavesNoTrace | src/post.cpp:240-251 | any run ends as it would have ended without the events that were not reported |
| Pipeline.NoLoss | src/post.cpp:807-821 | when polls ask for at least c and at most c events are queued between them, nothing is evicted and the queue holds exactly what was queued since the last poll |
| Pipeline.PollDeliversAll | src/post.cpp:807-821 | after a closing poll under that contract the records delivered are exactly the events queued, once and in order |
| Pipeline.QueuedExactlyListed | src/post.cpp:238-257 | over any run of writes, updates and polls whose entries suit the written files, the events queued are exactly the visible writes whose file's last request added it, or which was listed at first, in order |
| Pipeline.DeliveredExactlyListed | src/post.cpp:807-821 | under the polling contract, with a closing poll, exactly those are what the clients have been handed |
| Pipeline.ListedWritesTell | src/post.cpp:337-348 | each record handed out in such a run is that of one of its writes to a listed file, field by field, with the file's path to be rebuilt from it |
| Ancestry.GenerateProcTrace | src/post.cpp:365-405 | where the loop halts, it publishes the walk, unless that ends in a lookup that throws, and then nothing; each entry tells the command and leads to the parent that the map holds for its process, whatever /proc says, and only for processes outside the map those of the stat line; an empty trace for pids 0 and 1 |
| Ancestry.LookupExactly | src/post.cpp:386-392 | the map answers first, whatever /proc holds; what /proc answers for the others, and when neither answers |
| Ancestry.WalkTold | src/post.cpp:380-402 | the same of the walk: parents, commands and end of the trace in terms of map entries and stat lines, with the arguments of the last process found in the map |
| Ancestry.RankHalts | src/post.cpp:380-402 | a rank that falls with every iteration bounds the walk, even while the lookups change |
| Ancestry.CycleNeverHalts | src/post.cpp:380-402 | from a process with a reachable cycle no number of iterations suffices |
| Ancestry.HaltsExactly | src/post.cpp:380-402 | over a fixed map and /proc the walk ends if and only if no cycle is reachable |
| Ancestry.MaximalChainUnique | src/post.cpp:382-401 | a process has at most one maximal parent chain |
| Ancestry.TraceExactly | src/post.cpp:365-405 | the published pids are the one maximal parent chain: each is the parent recorded for the one before, the end is parent 0 or a failed lookup, and none repeats; where a lookup throws there is no such chain |
| Ancestry.ShortLineThrows | src/post.cpp:388-389 | a view over which the walk throws |
| Ancestry.CommandTextWords | src/post.cpp:393-399 | each emitted command is the command and arguments sanitised one by one, joined with blanks, and is well formed |
| Processes.StepOrdered | src/filetrace.bpf.c:490-530 | fork, both exec handlers and exit with adoption keep every edge, the map's included, leading to an earlier-born process |
| Processes.StepExtends | src/filetrace.bpf.c:507-528 | births are never rewritten and the map never forgets a process, full or not |
| Processes.ExecRecords | src/filetrace.bpf.c:490-530 | both exec handlers record the process's present parent, its name (the new one in the second) and no arguments, replacing its entry or adding one while there are fewer than 4096 |
| Processes.ForkAndExit | src/filetrace.bpf.c:500-525 | the environment of those handlers: a child's parent is its creator, and an exit leaves the children, and only them, to the reaper |
| Processes.AlwaysInvariant | src/filetrace.bpf.c:490-530 | the ordering holds at every moment of every behaviour |
| Processes.AlwaysExtends | src/filetrace.bpf.c:507-528 | between any two moments births persist and map entries stay |
| Processes.ProcLookup | src/post.cpp:579-608 | in a reachable state /proc yields the kernel's parent and name of every living process, and nothing for others |
| Processes.LookupDescends | src/post.cpp:386-392 | a lookup spanning two moments of a behaviour never throws and finds an earlier-born parent |
| Processes.WalkHalts | src/post.cpp:379-402 | in every behaviour the walk halts from any process, even while execs and exits happen between its lookups |
| Processes.TraceDescends | src/post.cpp:379-402 | along the emitted trace every process was born before the one preceding it |
| Processes.BirthsDistinct | src/post.cpp:379-402 | such a trace is strictly ordered by birth, so no pid repeats |
| Processes.NeverThrows | src/post.cpp:386-392 | in a behaviour no lookup of the walk throws |
| Processes.TraceProcess | src/post.cpp:365-405 | `generate_proc_trace` in any behaviour, its lookups spread over any moments: it ends and publishes the whole walk, told process by process from the map and, for the rest, from /proc; every entry was born after the next, so no pid repeats |
| Processes.ReuseCanLoop | src/post.cpp:379-402 | if process ids are given out again, six steps reach a map over which the walk never ends |
| Gauges.KeysDistinct | src/exporter.cpp:132-142 | distinct processes have distinct cache keys and distinct label sets |
| Gauges.OperationNamed | src/exporter.cpp:119 | the operation label is the system call's name by its number |
| Gauges.LabelsOfWrite | src/exporter.cpp:121-140 | the series of a write or copy names the task, its parent, user, group, the inode, the rebuilt path and the sampled time |
| Gauges.CommitAgrees | src/exporter.cpp:145-167 | the locked half of `set_metrics` keeps cache, timestamps and family in agreement |
| Gauges.ForgetSeries | src/exporter.cpp:183-190 | a sweep removes the series of the stale processes and no other's, leaving theirs unchanged |
| Gauges.ForgetAgrees | src/exporter.cpp:176-199 | a sweep keeps cache, timestamps and family in agreement |
| Gauges.CommitTellsPid | src/exporter.cpp:163-165 | every cached gauge shows the pid its key is printed from |
| Gauges.AlwaysSound | src/exporter.cpp:106-201 | over every interleaving of samples, commits and sweeps: equal keys in both maps, distinct gauges for distinct keys, one series for each cached gauge and no other series |
| Gauges.SeriesExactly | src/exporter.cpp:157-159 | under agreement the exported series correspond one to one to the cached processes |
| Gauges.SweepPrecision | src/exporter.cpp:176-199 | a sweep lasting from t0 to t1 removes every process stamped before t0 - timeout and none stamped at or after t1 - timeout, series included |
| Gauges.FreshStays | src/exporter.cpp:176-199 | a process stamped at t keeps its series through every interleaving until the clock passes t + timeout |
| Gauges.UpdateStamps | src/exporter.cpp:166 | every committed update, of a cached process or a new one, moves its stamp to the time it sampled, and no other stamp |
| Gauges.UpdatedStays | src/exporter.cpp:145-199 | once an update sampled at t is committed, with no earlier-sampled one of that process still pending, the process keeps its series through every interleaving until the clock passes t + timeout |
| Gauges.SpelledCommit | src/exporter.cpp:139-166 | storing timestamps as text stays in step with storing numbers |
| Gauges.SpelledSweep | src/exporter.cpp:179-182 | through the text the sweeper finds exactly the keys the numbers make stale |
| Gauges.SweptIsForget | src/exporter.cpp:176-199 | erasing entry by entry while iterating, in any order, equals forgetting all stale keys at once |
| Gauges.PassRefinesSweep | src/exporter.cpp:176-199 | an erase-while-iterating pass over stored text never throws and is one sweep step of the interleavings above, each key examined at a clock reading of that pass |
| Gauges.Exporter.Finish | src/exporter.cpp:145-167 | under the lock the stamp becomes the sampled time and the gauge the pid; a cached process keeps its gauge and series, another gets the series with its labels, existing or new |
| Gauges.Exporter.SweepEntry | src/exporter.cpp:177-198 | one entry is erased together with its gauge and series exactly when it has outlived the timeout; an unreadable timestamp throws and changes nothing |
| Gauges.Exporter.SweepOnce | src/exporter.cpp:175-199 | a pass terminates, meets each key exactly once unless a timestamp throws, and has the effect of examining them one after another |
| Gauges.Interleave | src/exporter.cpp:106-201 | any interleaving of begun and finished updates and of sweeps, carried out on a fresh exporter, is one of the runs above, spelt in text; no sweep throws |
| Gauges.Exporter.Begin | src/exporter.cpp:106-142 | the counter goes up if it is set, and the prepared labels carry the event's fields one by one |
| Gauges.Pass | src/exporter.cpp:175-199 | where a run has led, a pass on the object does not throw and has the effect of one sweep step |
| Logging.Logger.Init | src/logger.cpp:77-100 | initialising sets threshold and limit and reopens the file without losing content |
| Logging.Logger.RotateLogFile | src/logger.cpp:37-62 | the content moves to the backup of that second, replacing one already there, or stays when renaming fails; the file is reopened |
| Logging.Logger.Log | src/logger.cpp:117-140 | a line below the threshold changes nothing; any other is appended after a rotation if one is due, or goes to standard error when no file is open |
| Logging.AdmittedLevels | src/logger.cpp:24-34 | which levels each threshold admits: DEBUG < INFO < WARN < ERROR |
| Logging.ParsedLevels | src/logger.cpp:17-22 | the three spellings of each level, anything else meaning INFO |
| Logging.LineParts | src/logger.cpp:119-126 | a line is stamp, level in brackets, base name of the file, line number and message, in this order |
| Logging.LineLandsOnce | src/logger.cpp:127-139 | whatever fails to open or rename, an admitted line is appended once, to the open file or to standard error, and another changes nothing |
| Logging.NothingSkipped | src/logger.cpp:117-140 | contents set aside followed by the file are always the initial content and every admitted line in order, whichever renames fail |
| Logging.SurvivingText | src/logger.cpp:42-55 | the backups in time order hold everything set aside when the seconds differ, and strictly less when two coincide |
| Logging.ConservationExactly | src/logger.cpp:37-140 | backups in time order followed by the file equal what was there and every admitted line in order if and only if no two successful rotations fell into the same second |
| Logging.BackupsReachLimit | src/logger.cpp:65-75 | every backup a run makes has reached the size limit |
| Logging.LiveBounded | src/logger.cpp:117-140 | when renames succeed, from the first admitted line on the file is smaller than the limit plus the longest line |
| IpAddr.IsValidIp | src/post.cpp:120-132 | pattern pass and conversion pass together accept exactly four groups of one to three digits with values up to 255 |
| IpAddr.PrintedReadsBack | src/post.cpp:120-132 | every printed quad of bytes is accepted and reads back to the same bytes |
| IpAddr.DecOctetExactly | src/post.cpp:121-129 | a group is a dec-octet of section 3.2.2 of RFC 3986 if and only if it is accepted and has no leading zero |
| IpAddr.AcceptedBeyondRfc | src/post.cpp:120-132 | the addresses of RFC 3986 are the accepted texts without leading zeros |

## Left out

- Publishing with CURL, the HTTP server and its routing, the Prometheus exposer, and the texts of HTTP responses: library plumbing.
- Parsing and printing JSON; the rest of `load_config`, which copies one key after another; an exception inside `cache_event`, which is caught and loses the record.
- Loading the BPF program, polling the ring buffer, signals and command-line options.
- `resolve_base_dentry` and the search through the file-descriptor table: the model has a resolved base directory or none.
- The rename, openat and dup2 handlers and their slots: renames are matched by `filename` directly, the other two are never reported.
- The `write` handler for kernels before 6.6, which finds the file through its descriptor.
- A fork that makes the child a sibling of its creator, and a change of process id of a thread that executes a program.
- User, group and login-address lookup: system databases.
- Event printing, counters and histograms as wrappers, starting and joining threads.
- Mutexes themselves, and the read of the list in `process_event` racing with an update between two of its steps.
- Ancestry.GenerateProcTrace: is stated for walks that halt; for the others the source loops for ever, which `Ancestry.CycleNeverHalts` states as a lemma.
- Logging.Logger.Init: does not model a change of the log path between calls; whether the log directory exists or could be created is part of the input that says whether opening succeeds.
- Gauges.Exporter.Begin: takes the clock reading as an input.
- Post.PostData.ProcessEvent: takes the clock reading and the outcome of publishing as inputs.
