# io_uring detector — a verified model

The repository ships two small Linux command-line tools, `io_uring_detector`
(`io_uring_detector/src/main.rs`) and the top-level binary (`src/main.rs`).
Each one does the following:

1. Probes the kernel for io_uring with one `io_uring_setup(2)` call. A descriptor
   means "supported"; `ENOSYS` means "not supported"; any other error number is an error.
2. When io_uring is supported, lists the feature flags the kernel reported. This uses a
   fixed table of thirteen `(mask, name)` pairs.
3. Walks `/proc` to find every process holding a descriptor whose link target contains
   `anon_inode:[io_uring]`. For each one it prints the pid, the name from `comm`, the
   executable, the command line, a "running in memory" heuristic read from `maps`, and
   the `VmSize`/`VmRSS` figures from `status`.

Both binaries read `uname`: the top-level binary fails when that read fails, and
`io_uring_detector` prints the error and stops without probing. `io_uring_detector`
also checks the kernel release, warning when it is below 5.1, and it scans `/proc`
only when the probe succeeds. The top-level binary returns early when io_uring is
not supported.

The model replaces everything outside the program with input values:

- The system call becomes its return value, its error number and the `features` word.
- `uname` becomes the machine and release strings, or a failure.
- `/proc` becomes an immutable snapshot holding the listing of `/proc` itself, and,
  per pid, the descriptor listing and the contents of `comm`, `exe`, `cmdline`, `maps`
  and `status`. Any of these may be unreadable.

Printing becomes returned values: the feature names, the reports, and the
"nothing found" flags.

The Rust standard-library string operations the tools use are written out in
`Text`: `split`, `lines`, `split_whitespace`, `trim`, `contains`, `starts_with` and
`parse::<u32>`/`parse::<u64>`. They keep Rust's own edge cases:

- `lines` drops a final empty line and strips `\r` only before a `\n`.
- Whitespace is Unicode `White_Space`.
- Integer parsing accepts one leading `+` and returns an error on overflow.

Modules:

- `Wrappers`: `Option`.
- `Text`: the string operations.
- `Probe`: probe classification and feature decoding.
- `ProcInfo`: `get_process_name`, `get_process_info` and its parsers.
- `Scan`: `check_io_uring_usage`.
- `ExitStatus`: how `main` returns.
- `Detector`: `get_system_info`, the release check and `main` of `io_uring_detector`.
- `RootDetector`: `main` of `src/main.rs`.

Both binaries contain the same logic for the probe, the feature table,
`get_process_info` and the scan, differing only in message text and in the
`cfg` branches around the probe in `io_uring_detector`. Each of these is
modelled once. The rows below cite the
`io_uring_detector` copy and name the lines of the other.

## Model

| member | source | states |
|---|---|---|
| Probe.DetectIoUringSupport | io_uring_detector/src/main.rs:139-172 | supported iff `ret >= 0`, carrying the kernel's `features` word, and the descriptor `ret` is closed; unsupported iff `ret < 0` and the error is `ENOSYS` (38); an error carrying the error number iff `ret < 0` with any other errno, so an error is never "unsupported" (the top-level binary has the same code at src/main.rs:77-102) |
| Probe.EnosysIsUnsupported | io_uring_detector/src/main.rs:160-161 | a failing call with `ENOSYS` yields exactly "unsupported" and closes nothing |
| Probe.FeatureMasks | io_uring_detector/src/main.rs:56-70 | the table has 13 entries and entry `k` has mask `1 << k` |
| Probe.FeatureNamesDiffer | io_uring_detector/src/main.rs:56-70 | no two table entries share a name |
| Probe.Meets | io_uring_detector/src/main.rs:181 | the test `(features & mask) != 0` (a definition; see `FeatureListed`, `NamesInMasked`) |
| Probe.NamesIn | io_uring_detector/src/main.rs:180-185 | the names of the entries of a table whose mask meets the word, in table order (a definition; its properties are the `NamesIn*` lemmas below) |
| Probe.FeatureNames | io_uring_detector/src/main.rs:180-185 | the names `print_io_uring_features` lists for a word: `NamesIn` over the thirteen-entry table (a definition; see `FeatureListed`, `FeatureNamesSound`, `FeatureNamesOrdered`) |
| Probe.ReportFeatures | io_uring_detector/src/main.rs:175-190 | the loop lists exactly the names of the table entries whose mask meets `features`, in table order, and prints "(no features reported)" iff it listed none (the top-level binary has the same code at src/main.rs:105-120) |
| Probe.FeatureListed | io_uring_detector/src/main.rs:180-184 | the name of entry `k` is listed iff `features & (1 << k) != 0` |
| Probe.FeatureNamesSound | io_uring_detector/src/main.rs:180-184 | every listed name is the name of a table entry whose bit is set, and no name is listed twice |
| Probe.FeatureNamesOrdered | io_uring_detector/src/main.rs:180-184 | when bits `i < j` are both set, the name of `i` is listed before the name of `j` |
| Probe.NamesInMember | io_uring_detector/src/main.rs:180-184 | for any table, a name is listed iff some entry with that name has its mask met |
| Probe.NamesInOrder | io_uring_detector/src/main.rs:180-184 | for any table, selected entries are listed in table order |
| Probe.NamesInEmpty | io_uring_detector/src/main.rs:187-189 | for any table, nothing is listed iff no entry's mask is met |
| Probe.UnknownBitsIgnored | io_uring_detector/src/main.rs:180-184 | bits outside the 13 table bits (`0x1FFF`) never change the listing |
| Probe.NamesInMasked | io_uring_detector/src/main.rs:180-184 | for any table whose masks lie within `known`, clearing the bits of the word outside `known` never changes the listing |
| Probe.NoFeaturesExactly | io_uring_detector/src/main.rs:187-189 | the "(no features reported)" case happens iff `features & 0x1FFF == 0` |
| Probe.NoFeaturesForZero | io_uring_detector/src/main.rs:187-189 | a zero feature word lists nothing |
| Probe.FeaturesOfFive | io_uring_detector/src/main.rs:56-59 | `features == 0x5` lists `IORING_FEAT_SINGLE_MMAP` then `IORING_FEAT_SUBMIT_STABLE` |
| ProcInfo.ProcessName | io_uring_detector/src/main.rs:193-196 | present iff `comm` is readable, and then the trimmed contents |
| ProcInfo.DisplayName | io_uring_detector/src/main.rs:201 | the `name` field: the trimmed `comm`, or `<unknown>` when it cannot be read (a definition; see `DisplayNameOfComm`) |
| ProcInfo.DisplayNameOfComm | io_uring_detector/src/main.rs:201 | a readable `comm` is shown trimmed: the name neither starts nor ends with whitespace |
| ProcInfo.DisplayNameDropsNewline | io_uring_detector/src/main.rs:195 | a `comm` of one word plus the kernel's trailing newline shows as the word |
| ProcInfo.CmdlineContents | io_uring_detector/src/main.rs:214-219 | the arguments are non-empty, contain no NUL, and concatenate to the file with its NULs removed |
| ProcInfo.CmdlineAbsent | io_uring_detector/src/main.rs:214-223 | the command line is absent (not an empty list) iff the file is unreadable or holds only NULs |
| ProcInfo.CmdlineRoundTrip | io_uring_detector/src/main.rs:214-223 | non-empty, NUL-free arguments, each followed by a NUL as the kernel writes them, parse back to exactly those arguments |
| ProcInfo.CmdlineFooBar | io_uring_detector/src/main.rs:214-223 | `"foo\0bar\0"` gives `["foo", "bar"]` |
| ProcInfo.CmdlineFragments | io_uring_detector/src/main.rs:215-219 | the `\0`-separated pieces of the file with the empty ones dropped (a definition; see `CmdlineContents`) |
| ProcInfo.CmdlineField | io_uring_detector/src/main.rs:213-223 | the `cmdline` field: the fragments when the file is readable and they are not all empty, absent otherwise (a definition; see `CmdlineAbsent`, `CmdlineRoundTrip`) |
| ProcInfo.DropEmptyFrom | io_uring_detector/src/main.rs:217 | every kept fragment is one of the split fragments |
| ProcInfo.IsMarkerLine | io_uring_detector/src/main.rs:229-231 | the closure of `any`: the line contains `memfd:`, `anon_inode:` or `(deleted)` (a definition; see `MemoryMarkerAnywhere`) |
| ProcInfo.HasMemoryMarker | io_uring_detector/src/main.rs:228-232 | some line of `maps` contains `memfd:`, `anon_inode:` or `(deleted)` (a definition; see `MemoryMarkerAnywhere`) |
| ProcInfo.MemoryMarkerAnywhere | io_uring_detector/src/main.rs:228-232 | some line holds `memfd:`, `anon_inode:` or `(deleted)` iff the whole `maps` text does, since no marker spans a line break |
| ProcInfo.SetsField | io_uring_detector/src/main.rs:240-245 | a line changes a field iff it starts with the key and `split_whitespace().nth(1)` exists (a definition; see `StatusLastLineWins`, `StatusFieldMissing`) |
| ProcInfo.StatusField | io_uring_detector/src/main.rs:239-248 | the value one of the two keys ends with after the line loop: set by each line that starts with the key and has a second token (a definition; see `StatusLastLineWins`, `StatusFieldMissing`) |
| ProcInfo.MemoryInfoOf | io_uring_detector/src/main.rs:236-249 | the `MemoryInfo` built from `status`: `VmSize:` and `VmRSS:` each decided by `StatusField` over `lines()` (a definition; `ParseMemoryInfo` is proved equal to it) |
| ProcInfo.ParseMemoryInfo | io_uring_detector/src/main.rs:237-249 | the line loop yields, for each of `VmSize:` and `VmRSS:`, the `u64` parse of the second token of the last line that has the prefix and a second token (the top-level binary has the same code at src/main.rs:167-179) |
| ProcInfo.StatusLastLineWins | io_uring_detector/src/main.rs:239-248 | the last line that sets a field decides it, malformed or not |
| ProcInfo.StatusFieldMissing | io_uring_detector/src/main.rs:237-248 | a field that no line sets stays absent |
| ProcInfo.ResidentAbsentWithoutLine | io_uring_detector/src/main.rs:244-248 | without a `VmRSS:` line the resident figure is absent |
| ProcInfo.ResidentExample | io_uring_detector/src/main.rs:244-247 | `"VmRSS:    1234 kB"` gives a resident figure of 1234 |
| ProcInfo.ExampleTokens | io_uring_detector/src/main.rs:245 | that line splits into `VmRSS:`, `1234` and `kB` |
| ProcInfo.GetProcessInfo | io_uring_detector/src/main.rs:199-255 | the step-by-step record: name is the trimmed `comm` or `<unknown>`; executable absent iff `exe` is unreadable; command line present only when readable and non-empty; memory status present iff both `maps` and `status` are readable; "in memory" only when `maps` is readable (the top-level binary has the same code at src/main.rs:129-185) |
| ProcInfo.InfoOf | io_uring_detector/src/main.rs:199-255 | the `ProcessInfo` of a process directory, field by field (a definition; `GetProcessInfo` is proved equal to it) |
| Scan.FirstIoUringFd | io_uring_detector/src/main.rs:285-287 | the position of the first readable descriptor link containing `anon_inode:[io_uring]`, with none before it, or absent when there is none |
| Scan.IsIoUringFd | io_uring_detector/src/main.rs:286-287 | the descriptor entry is readable, its link is readable and its target contains `anon_inode:[io_uring]` (a definition; see `FirstIoUringFd`) |
| Scan.NamesPid | io_uring_detector/src/main.rs:282 | the entry is readable and its name parses as that `u32` pid (a definition; see `ReportedExactly`, `EntryReportsNamed`) |
| Scan.EntryReports | io_uring_detector/src/main.rs:282-320 | the reports one entry of `/proc` produces: at most one, for the first io_uring descriptor of the process it names |
| Scan.ReportsOf | io_uring_detector/src/main.rs:281-320 | the reports of a run of entries, in listing order (a definition; see `ReportsAppend`, `ReportedExactly`) |
| Scan.ScanOf | io_uring_detector/src/main.rs:279-331 | an error iff `/proc` cannot be listed; otherwise "nothing found" iff there are no reports |
| Scan.CheckIoUringUsage | io_uring_detector/src/main.rs:275-332 | the nested loops with the `found` flag and the `break` yield exactly the per-entry reports in listing order, and "nothing found" iff there are none (the top-level binary has the same code at src/main.rs:205-262) |
| Scan.ScanEntry | io_uring_detector/src/main.rs:282-324 | the body of the loop over `/proc`: the inner descriptor loop with its `break` yields exactly the entry's reports (the top-level binary has the same code at src/main.rs:212-254) |
| Scan.ReportsAppend | io_uring_detector/src/main.rs:281 | the reports of a listing are those of its parts, in order |
| Scan.SkippedEntry | io_uring_detector/src/main.rs:281-286 | an unreadable entry, a non-numeric name, a vanished process or one without an io_uring descriptor adds nothing and leaves the other entries' reports unchanged |
| Scan.ReportsFaithful | io_uring_detector/src/main.rs:282-319 | at most one report per entry; each report has a `u32` pid, names that process's first io_uring descriptor, and carries the information read from that process's own files |
| Scan.ReportedExactly | io_uring_detector/src/main.rs:281-320 | a pid is reported iff some entry names it and that process lists an io_uring descriptor |
| Scan.ReportedAtMostOnce | io_uring_detector/src/main.rs:285-319 | when no two entries name the same pid, no pid is reported twice |
| Scan.EntryReportsNamed | io_uring_detector/src/main.rs:282-288 | a report comes from an entry whose name parses to its pid, for a process that holds an io_uring descriptor |
| Text.Split | io_uring_detector/src/main.rs:107 | `split(d)`: at least one piece, none containing `d` (see `JoinSplit`, `SplitJoin`) |
| Text.DropEmpty | io_uring_detector/src/main.rs:217 | the `is_empty` filter: the pieces that are not empty, in order (see `CmdlineContents`, `DropEmptyFrom`, `WithoutEmpty`) |
| Text.Lines | io_uring_detector/src/main.rs:228 | `lines()`: pieces without `\n`, a final empty piece dropped and a `\r` before each `\n` removed (see `ContainsLines`) |
| Text.Contains | io_uring_detector/src/main.rs:229-231 | `contains`: the pattern occurs at some position of the text (a definition; see `ContainsLines`) |
| Text.JoinSplit | io_uring_detector/src/main.rs:107 | `split(d)` loses nothing: joining the pieces with `d` gives back the text |
| Text.SplitAround | io_uring_detector/src/main.rs:107 | splitting at one separator splits each side independently |
| Text.SplitJoin | io_uring_detector/src/main.rs:216 | splitting pieces glued with `d` gives back the pieces when none contains `d` |
| Text.WithoutEmpty | io_uring_detector/src/main.rs:217 | removing `d` leaves nothing iff every character is `d` |
| Text.ContainsLines | io_uring_detector/src/main.rs:228-232 | a pattern without line breaks occurs in a text iff it occurs in one of its `lines()` |
| Text.Trim | io_uring_detector/src/main.rs:195 | `trim` yields the part between a leading and a trailing run of whitespace, and that part neither starts nor ends with whitespace |
| Text.Tokens | io_uring_detector/src/main.rs:241 | `split_whitespace` yields non-empty runs with no whitespace |
| Text.ParseUnsigned | io_uring_detector/src/main.rs:242 | a parse succeeds only on a non-empty string of digits with an optional leading `+` (so never on `""` or `"+"`), and only below the type's limit; `ParseDigits` gives the value and the overflow error for every digit string |
| Text.ParseU32 | io_uring_detector/src/main.rs:282 | `parse::<u32>()`: `ParseUnsigned` with the limit 2^32 (a definition; see `ParseDigits`, `ParseOverflow`, `ParseTwelve`) |
| Text.ParseU64 | io_uring_detector/src/main.rs:242 | `parse::<u64>()`: `ParseUnsigned` with the limit 2^64 (a definition; see `ParseDigits`, `ParseOverflow`) |
| Text.ParseDigits | io_uring_detector/src/main.rs:242 | a non-empty digit string parses to its value iff the value is below the limit and is an error otherwise; a leading `+` changes nothing and a leading `-` is always an error |
| Text.ParseOverflow | io_uring_detector/src/main.rs:242 | the decimal spelling of a value at or above the limit is an error, with or without `+`, never a wrapped value |
| Text.LeadingZeroValue | io_uring_detector/src/main.rs:282 | a leading `0` does not change the value of a digit string |
| Text.ParseLeadingZero | io_uring_detector/src/main.rs:282 | a leading `0` does not change what a digit string parses to |
| Text.ParseTwelve | io_uring_detector/src/main.rs:282 | `"12"`, `"012"` and `"+12"` all parse as the `u32` 12 |
| Text.ParseDecimal | io_uring_detector/src/main.rs:109 | parsing the decimal spelling of a value that fits gives that value |
| Detector.ParsedParts | io_uring_detector/src/main.rs:109-110 | `filter_map` keeps at most as many numbers as pieces, each below 2^32 |
| Detector.FirstTwo | io_uring_detector/src/main.rs:108 | `.take(2)`: a prefix of the pieces holding the first two, or all of them when there are fewer (see `KernelMinimumExactly`) |
| Detector.VersionParts | io_uring_detector/src/main.rs:106-110 | `version_parts`: the first two `.`-pieces of the release that parse as `u32`, in order (a definition; see `ParsedPair`, `KernelMinimumExactly`) |
| Detector.AtLeast51 | io_uring_detector/src/main.rs:115 | `major > 5` or `major == 5` with `minor >= 1` (a definition; see `KernelMinimumOfPair`, `Release510`, `Release419`) |
| Detector.KernelMinimumMet | io_uring_detector/src/main.rs:106-118 | `min_version_met`: false unless two numbers were collected, then a major number above 5, or 5 with a minor number of at least 1 (a definition; see `KernelMinimumExactly`) |
| Detector.KernelMinimumExactly | io_uring_detector/src/main.rs:106-118 | the minimum is met iff the first two `.`-components both parse as `u32` and form 5.1 or later |
| Detector.KernelMinimumIgnoresRest | io_uring_detector/src/main.rs:108 | components after the second never matter |
| Detector.KernelMinimumOfPair | io_uring_detector/src/main.rs:106-118 | for `major.minor`, the check is `major > 5 || (major == 5 && minor >= 1)` on the parsed numbers, and false if either does not parse |
| Detector.Release510 | io_uring_detector/src/main.rs:112-115 | `"5.10"` meets the minimum (a numeric, not textual, comparison) |
| Detector.Release51 | io_uring_detector/src/main.rs:112-115 | `"5.1"` meets it |
| Detector.Release419 | io_uring_detector/src/main.rs:112-115 | `"4.19"` does not |
| Detector.ReleaseRc | io_uring_detector/src/main.rs:106-118 | `"6.1-rc"` does not, because `"1-rc"` does not parse and only one number is collected |
| Detector.ReleaseMajorOnly | io_uring_detector/src/main.rs:112-118 | a release with no minor number does not |
| Detector.GetSystemInfo | io_uring_detector/src/main.rs:93-129 | present iff `uname` succeeded; machine and release as reported, io_uring support not yet known, and the release check |
| Detector.DetectorMain | io_uring_detector/src/main.rs:334-375 | a `uname` failure prints the error and returns `Ok` with no probe and no scan (the probe runs only after `get_system_info` succeeds); otherwise the warning is printed iff the minimum is not met; a probe error ends with that error; "unsupported" ends with `Ok` and no scan; "supported" sets the support flag, lists exactly the decoded features, prints "(no features reported)" iff there are none, and runs the scan, which ends `main` with an error only when `/proc` cannot be listed |
| RootDetector.RootMain | src/main.rs:264-290 | a `uname` failure ends with an error before the probe; a probe error ends with that error; "unsupported" returns `Ok` early and never scans; "supported" lists exactly the decoded features, prints "(no features reported)" iff there are none, and then scans, and the run fails only when `/proc` cannot be listed |

## Left out

- The `io_uring_setup` system call, `libc::close`, `uname` (libc and nix) and the `CStr` conversions are foreign calls. They are inputs to the model. The model records which descriptor would be closed, but not the act of closing it.
- The `#[repr(C)]` layout of `IoUringParams`, `IoSqringOffsets` and `IoCqringOffsets` is not modelled. Only the `features` word is kept, as a 32-bit value.
- The `ret as RawFd` cast is not modelled. A descriptor is kept as the integer the call returned.
- Reads of `/proc` (`read_dir`, `read_link`, `read_to_string`) are modelled as a fixed snapshot. A process that exits during the scan shows up only as "every read fails", and reads of the same process cannot disagree with each other.
- Lossy UTF-8 conversion (`to_string_lossy`, of the `/proc` entry names and the descriptor link targets) is not modelled. Names and link targets are strings.
- `read_to_string` is strict: a `comm`, `cmdline`, `maps` or `status` file that is not valid UTF-8 fails to read. The snapshot gives such a file as unreadable (`None`), with the same effects as any other failed read; in particular a non-UTF-8 `maps` also leaves `memory_status` absent, because `status` is read only after `maps`.
- `println!` formatting and message wording are left out. Only what is printed, and whether the "none" lines appear, is modelled. This covers the list of `uname` fields that `src/main.rs` prints and the text of the error messages.
- The `#[cfg(not(target_os = "linux"))]` branches are left out. They are constants for other systems.
- `io_uring_test/src/main.rs` and `src/test_processes.rs` are workload generators built on threads, timers and the external `io_uring` crate. They are not part of this model.
- The feature table is copied as written. From bit 8 on its names differ from the kernel's `IORING_FEAT_*` names (the kernel calls bit 8 `IORING_FEAT_EXT_ARG`, the table `IORING_FEAT_ENTER_EXT_ARG`), and the model claims no agreement with the kernel.
- ProcInfo.DisplayNameOfComm: a readable `comm` whose trimmed text is literally `<unknown>` looks the same as the fallback. The model states the name as a function of `comm` and does not claim that the two cases can be told apart.
- Scan.ReportedAtMostOnce: the kernel never lists a pid twice, but `parse::<u32>` maps names such as `12` and `012` to the same number. So "at most once per pid" is proved only under the condition that no two entries parse to the same pid. "At most one report per entry" holds unconditionally.
