/**
 * The `io_uring_detector` binary: `get_system_info` with its kernel-release
 * check, and `main`. When `uname` fails, `main` prints the error and returns
 * without probing. Otherwise it reports the system, warns below Linux 5.1,
 * probes for io_uring and, only when the probe succeeds, lists the feature
 * flags and scans `/proc`. `uname` is an input: the machine and release
 * strings it returned, or `None` when it failed.
 */
module Detector {
  import opened Wrappers
  import opened Text
  import opened Probe
  import opened Scan
  import opened ExitStatus

  datatype Uname = Uname(machine: string, release: string)

  datatype SystemInfo = SystemInfo(
    architecture: string,
    kernelVersion: string,
    ioUringSupport: bool,
    minKernelVersionMet: bool)

  // ---------------------------------------------------------------------------
  // Kernel release check

  /** `.take(2)` of the dot-separated pieces. */
  function FirstTwo(pieces: seq<string>): (r: seq<string>)
    ensures r <= pieces && |r| == (if |pieces| < 2 then |pieces| else 2)
  {
    if |pieces| <= 2 then pieces else pieces[..2]
  }

  /** `.filter_map(|s| s.parse().ok())` into `Vec<u32>`: the pieces that parse, in order. */
  function ParsedParts(pieces: seq<string>): (r: seq<nat>)
    ensures |r| <= |pieces|
    ensures forall k :: 0 <= k < |r| ==> r[k] < U32_LIMIT
    decreases |pieces|
  {
    if pieces == [] then []
    else
      var head := match ParseU32(pieces[0]) case Some(v) => [v] case None => [];
      head + ParsedParts(pieces[1..])
  }

  /** `version_parts`. */
  function VersionParts(release: string): seq<nat>
  {
    ParsedParts(FirstTwo(Split(release, '.')))
  }

  /** Linux 5.1 or later, by major and minor number. */
  predicate AtLeast51(major: nat, minor: nat)
  {
    major > 5 || (major == 5 && minor >= 1)
  }

  /** `min_version_met`: false unless two numbers were collected. */
  predicate KernelMinimumMet(release: string)
  {
    var parts := VersionParts(release);
    |parts| >= 2 && AtLeast51(parts[0], parts[1])
  }

  /** The `k`-th dot-separated component of the release, as a `u32`, when it parses. */
  function Component(release: string, k: nat): Option<nat>
  {
    var pieces := Split(release, '.');
    if k < |pieces| then ParseU32(pieces[k]) else None
  }

  /** The minimum is met exactly when the first two components both parse as `u32`
      and form 5.1 or later; a first or second component that does not parse (as in
      `6.1-rc`) makes the check fail, whatever the other says. */
  lemma KernelMinimumExactly(release: string)
    ensures KernelMinimumMet(release) <==>
      Component(release, 0).Some? && Component(release, 1).Some? &&
      AtLeast51(Component(release, 0).value, Component(release, 1).value)
  {
    var pieces := Split(release, '.');
    var two := FirstTwo(pieces);
    if |pieces| >= 2 {
      ParsedPair(pieces[0], pieces[1]);
      assert two == [pieces[0], pieces[1]];
    } else {
      assert |ParsedParts(two)| <= 1;
    }
  }

  lemma ParsedPair(a: string, b: string)
    ensures ParsedParts([a, b]) ==
      (match ParseU32(a) case Some(v) => [v] case None => []) +
      (match ParseU32(b) case Some(v) => [v] case None => [])
  {
    assert [a, b][1..] == [b];
    assert [b][1..] == [];
  }

  /** Only the first two components matter: the rest of the release is ignored. */
  lemma KernelMinimumIgnoresRest(major: string, minor: string, rest: string)
    requires '.' !in major && '.' !in minor
    ensures KernelMinimumMet(major + "." + minor + "." + rest) == KernelMinimumMet(major + "." + minor)
  {
    var long, short := major + "." + minor + "." + rest, major + "." + minor;
    assert long == major + ['.'] + (minor + ['.'] + rest);
    assert short == major + ['.'] + minor;
    SplitAround(major, '.', minor + ['.'] + rest);
    SplitAround(minor, '.', rest);
    SplitAround(major, '.', minor);
    SplitWithout(major, '.');
    SplitWithout(minor, '.');
    KernelMinimumExactly(long);
    KernelMinimumExactly(short);
  }

  /** A release of two dot-free components is judged by those two numbers. */
  lemma KernelMinimumOfPair(major: string, minor: string)
    requires '.' !in major && '.' !in minor
    ensures Split(major + "." + minor, '.') == [major, minor]
    ensures KernelMinimumMet(major + "." + minor) <==>
      ParseU32(major).Some? && ParseU32(minor).Some? && AtLeast51(ParseU32(major).value, ParseU32(minor).value)
  {
    assert major + "." + minor == major + ['.'] + minor;
    SplitAround(major, '.', minor);
    SplitWithout(major, '.');
    SplitWithout(minor, '.');
    KernelMinimumExactly(major + "." + minor);
  }

  /** A 5.x release from 5.1 on meets the minimum. */
  lemma Release510()
    ensures KernelMinimumMet("5.10")
  {
    ParseOneDigit('5', U32_LIMIT);
    ParseTwoDigits('1', '0', U32_LIMIT);
    assert ['1', '0'] == "10";
    KernelMinimumOfPair("5", "10");
  }

  lemma Release51()
    ensures KernelMinimumMet("5.1")
  {
    ParseOneDigit('5', U32_LIMIT);
    ParseOneDigit('1', U32_LIMIT);
    KernelMinimumOfPair("5", "1");
  }

  /** A 4.x release does not. */
  lemma Release419()
    ensures !KernelMinimumMet("4.19")
  {
    ParseOneDigit('4', U32_LIMIT);
    ParseTwoDigits('1', '9', U32_LIMIT);
    assert ['1', '9'] == "19";
    KernelMinimumOfPair("4", "19");
  }

  /** `"6.1-rc"` does not, because `"1-rc"` is not a number and only one part is collected. */
  lemma ReleaseRc()
    ensures !KernelMinimumMet("6.1-rc")
  {
    KernelMinimumOfPair("6", "1-rc");
    assert !IsDigit("1-rc"[1]);
  }

  /** A release without a minor number does not. */
  lemma ReleaseMajorOnly()
    ensures !KernelMinimumMet("5")
  {
    SplitWithout("5", '.');
    KernelMinimumExactly("5");
  }

  /** `get_system_info`: the machine and release as reported, the release check, and
      io_uring support not yet known; an error when `uname` failed. */
  function GetSystemInfo(uname: Option<Uname>): (r: Option<SystemInfo>)
    ensures r.Some? <==> uname.Some?
    ensures r.Some? ==>
      && r.value.architecture == uname.value.machine
      && r.value.kernelVersion == uname.value.release
      && !r.value.ioUringSupport
      && (r.value.minKernelVersionMet <==> KernelMinimumMet(uname.value.release))
  {
    match uname
    case None => None
    case Some(u) => Some(SystemInfo(u.machine, u.release, false, KernelMinimumMet(u.release)))
  }

  // ---------------------------------------------------------------------------
  // main

  /** What one run of `main` produced: the system information it holds at the end
      (absent when `uname` failed), whether the kernel warning was printed, the probe
      result, the feature listing, the scan, and how `main` returned. */
  datatype DetectorRun = DetectorRun(
    system: Option<SystemInfo>,
    kernelWarning: bool,
    probe: Option<Probe>,
    features: Option<FeatureReport>,
    scan: Option<ScanResult>,
    exit: Exit)

  /** `main` of `io_uring_detector`. When `uname` fails the error is printed and `main`
      returns `Ok` without probing. Otherwise the kernel warning is printed below 5.1,
      the probe runs, a probe error ends `main` with that error, "unsupported" ends it
      normally without a scan, and "supported" marks the system as supporting io_uring,
      lists the features and scans `/proc`, whose failure to list is the only scan
      error that ends `main` with an error. */
  method DetectorMain(uname: Option<Uname>, call: SetupCall, snap: Snapshot) returns (run: DetectorRun)
    ensures uname.None? ==> run == DetectorRun(None, false, None, None, None, Ok)
    ensures uname.Some? ==>
      var u, p := uname.value, DetectIoUringSupport(call);
      && run.system.Some?
      && run.system.value.architecture == u.machine
      && run.system.value.kernelVersion == u.release
      && (run.system.value.minKernelVersionMet <==> KernelMinimumMet(u.release))
      && (run.kernelWarning <==> !KernelMinimumMet(u.release))
      && run.probe == Some(p)
      && (run.system.value.ioUringSupport <==> p.outcome.Supported?)
      && run.features == (if p.outcome.Supported?
        then Some(FeatureReport(FeatureNames(call.features), FeatureNames(call.features) == []))
        else None)
      && (run.scan.Some? <==> p.outcome.Supported?)
      && (run.scan.Some? ==> run.scan.value == ScanOf(snap))
      && (p.outcome.ProbeError? ==> run.exit == Err(ProbeFailed(call.errno)))
      && (p.outcome.Unsupported? ==> run.exit == Ok)
      && (p.outcome.Supported? ==> run.exit == if snap.entries.None? then Err(ProcUnlistable) else Ok)
  {
    var info := GetSystemInfo(uname);
    if info.None? {
      return DetectorRun(None, false, None, None, None, Ok);
    }
    var sys := info.value;
    var warning := !sys.minKernelVersionMet;
    var probe := DetectIoUringSupport(call);
    match probe.outcome {
      case ProbeError(errno) =>
        run := DetectorRun(Some(sys), warning, Some(probe), None, None, Err(ProbeFailed(errno)));
      case Unsupported =>
        run := DetectorRun(Some(sys), warning, Some(probe), None, None, Ok);
      case Supported(features) =>
        sys := sys.(ioUringSupport := true);
        var report := ReportFeatures(features);
        var scan := CheckIoUringUsage(snap);
        var exit := if scan.ProcListFailed? then Err(ProcUnlistable) else Ok;
        run := DetectorRun(Some(sys), warning, Some(probe), Some(report), Some(scan), exit);
    }
  }
}
