/**
 * The repository's top-level binary (`src/main.rs`): `main` prints what `uname`
 * reports, probes for io_uring, lists the feature flags when it is supported and
 * returns early when it is not; only then does it scan `/proc`. Unlike
 * `io_uring_detector`, it propagates a `uname` failure and has no kernel-release
 * check. `uname` is an input: whether it succeeded.
 */
module RootDetector {
  import opened Wrappers
  import opened Probe
  import opened Scan
  import opened ExitStatus

  /** What one run of `main` produced: the probe result, the feature listing, the scan
      and how `main` returned. */
  datatype RootRun = RootRun(
    probe: Option<Probe>,
    features: Option<FeatureReport>,
    scan: Option<ScanResult>,
    exit: Exit)

  /** `main`: a `uname` failure ends it with an error before the probe; a probe error
      ends it with that error; "unsupported" returns `Ok` early without scanning;
      "supported" lists the features and then scans, and the scan's only error (an
      unlistable `/proc`) ends it with an error. */
  method RootMain(unameOk: bool, call: SetupCall, snap: Snapshot) returns (run: RootRun)
    ensures !unameOk ==> run == RootRun(None, None, None, Err(UnameFailed))
    ensures unameOk ==>
      var p := DetectIoUringSupport(call);
      && run.probe == Some(p)
      && run.features == (if p.outcome.Supported?
        then Some(FeatureReport(FeatureNames(call.features), FeatureNames(call.features) == []))
        else None)
      && (run.scan.Some? <==> p.outcome.Supported?)
      && (run.scan.Some? ==> run.scan.value == ScanOf(snap))
      && (p.outcome.ProbeError? ==> run.exit == Err(ProbeFailed(call.errno)))
      && (p.outcome.Unsupported? ==> run.exit == Ok)
      && (p.outcome.Supported? ==> run.exit == if snap.entries.None? then Err(ProcUnlistable) else Ok)
  {
    if !unameOk {
      return RootRun(None, None, None, Err(UnameFailed));
    }
    var probe := DetectIoUringSupport(call);
    var report: FeatureReport;
    match probe.outcome {
      case ProbeError(errno) =>
        return RootRun(Some(probe), None, None, Err(ProbeFailed(errno)));
      case Unsupported =>
        return RootRun(Some(probe), None, None, Ok);
      case Supported(features) =>
        report := ReportFeatures(features);
    }
    var scan := CheckIoUringUsage(snap);
    if scan.ProcListFailed? {
      return RootRun(Some(probe), Some(report), Some(scan), Err(ProcUnlistable));
    }
    run := RootRun(Some(probe), Some(report), Some(scan), Ok);
  }
}
