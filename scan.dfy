/**
 * `check_io_uring_usage`: the walk over `/proc` that reports each process holding
 * an io_uring descriptor. `/proc` is a snapshot: the listing of `/proc` itself
 * (absent when `read_dir("/proc")` fails), and for each pid what the reads under
 * `/proc/<pid>/` return. A pid missing from the snapshot has vanished: every read fails.
 */
module Scan {
  import opened Wrappers
  import opened Text
  import opened ProcInfo

  /** The link target of a descriptor that refers to an io_uring instance. */
  const IO_URING_LINK: string := "anon_inode:[io_uring]"

  /** `entries`: the names in `/proc`, `None` for an entry the iterator reports as an error. */
  datatype Snapshot = Snapshot(entries: Option<seq<Option<string>>>, procs: map<nat, ProcDir>)

  const VANISHED: ProcDir := ProcDir(None, None, None, None, None, None)

  function ProcOf(snap: Snapshot, pid: nat): ProcDir
  {
    if pid in snap.procs then snap.procs[pid] else VANISHED
  }

  /** One "Process using io_uring" block: the pid, its metadata and the name of the descriptor. */
  datatype Report = Report(pid: nat, info: ProcessInfo, fd: string)

  /** `Err` when `/proc` cannot be listed; otherwise the reports, and whether the
      "no process found" line was printed. */
  datatype ScanResult = ProcListFailed | Scanned(reports: seq<Report>, noneFound: bool)

  /** A readable descriptor link whose target names an io_uring. */
  predicate IsIoUringFd(entry: Option<FdEntry>)
  {
    entry.Some? && entry.value.target.Some? && Contains(entry.value.target.value, IO_URING_LINK)
  }

  /** The position of the first io_uring descriptor in listing order. */
  function FirstIoUringFd(fds: seq<Option<FdEntry>>): (r: Option<nat>)
    ensures r.Some? ==> r.value < |fds| && IsIoUringFd(fds[r.value])
    ensures r.Some? ==> forall j :: 0 <= j < r.value ==> !IsIoUringFd(fds[j])
    ensures r.None? ==> forall j :: 0 <= j < |fds| ==> !IsIoUringFd(fds[j])
    decreases |fds|
  {
    if fds == [] then None
    else if IsIoUringFd(fds[0]) then Some(0)
    else match FirstIoUringFd(fds[1..])
      case None => None
      case Some(k) => Some(k + 1)
  }

  /** The process behind `pid` lists its descriptors and one of them is an io_uring. */
  predicate HoldsIoUring(snap: Snapshot, pid: nat)
  {
    var dir := ProcOf(snap, pid);
    dir.fds.Some? && FirstIoUringFd(dir.fds.value).Some?
  }

  /** The directory entry is a name that parses as the `u32` pid. */
  predicate NamesPid(entry: Option<string>, pid: nat)
  {
    entry.Some? && ParseU32(entry.value) == Some(pid)
  }

  /** What the loop reports for one entry of `/proc`: nothing for an unreadable or
      non-numeric entry, for an unlistable `fd` directory or for a process without an
      io_uring descriptor; otherwise one report for the first io_uring descriptor. */
  function EntryReports(snap: Snapshot, entry: Option<string>): (r: seq<Report>)
    ensures |r| <= 1
  {
    if entry.None? then []
    else match ParseU32(entry.value)
      case None => []
      case Some(pid) =>
        var dir := ProcOf(snap, pid);
        if dir.fds.None? then []
        else match FirstIoUringFd(dir.fds.value)
          case None => []
          case Some(k) => [Report(pid, InfoOf(dir), dir.fds.value[k].value.name)]
  }

  /** The reports for a run of entries, in listing order. */
  function ReportsOf(snap: Snapshot, entries: seq<Option<string>>): seq<Report>
    decreases |entries|
  {
    if entries == [] then []
    else ReportsOf(snap, entries[..|entries| - 1]) + EntryReports(snap, entries[|entries| - 1])
  }

  function ScanOf(snap: Snapshot): (r: ScanResult)
    ensures r.ProcListFailed? <==> snap.entries.None?
    ensures r.Scanned? ==> (r.noneFound <==> r.reports == [])
  {
    match snap.entries
    case None => ProcListFailed
    case Some(entries) =>
      var reports := ReportsOf(snap, entries);
      Scanned(reports, reports == [])
  }

  /** `check_io_uring_usage`, with the reports returned instead of printed. */
  method CheckIoUringUsage(snap: Snapshot) returns (r: ScanResult)
    ensures r == ScanOf(snap)
  {
    var found := false;
    if snap.entries.None? {
      return ProcListFailed;
    }
    var entries := snap.entries.value;
    var reports: seq<Report> := [];

    for i := 0 to |entries|
      invariant reports == ReportsOf(snap, entries[..i])
      invariant found <==> reports != []
    {
      var added := ScanEntry(snap, entries[i]);
      if added != [] {
        found := true;
      }
      ReportsSnoc(snap, entries, i);
      reports := reports + added;
    }
    assert entries[..|entries|] == entries;
    r := Scanned(reports, !found);
  }

  /** The body of the loop over `/proc` for one entry: parse the pid, list its `fd`
      directory and stop at the first descriptor whose link is an io_uring. */
  method ScanEntry(snap: Snapshot, entry: Option<string>) returns (added: seq<Report>)
    ensures added == EntryReports(snap, entry)
  {
    added := [];
    if entry.None? {
      return;
    }
    var pid := ParseU32(entry.value);
    if pid.None? {
      return;
    }
    var dir := ProcOf(snap, pid.value);
    if dir.fds.None? {
      return;
    }
    var fds := dir.fds.value;
    var j := 0;
    while j < |fds|
      invariant 0 <= j <= |fds|
      invariant forall k :: 0 <= k < j ==> !IsIoUringFd(fds[k])
    {
      var fd := fds[j];
      if fd.Some? && fd.value.target.Some? {
        if Contains(fd.value.target.value, IO_URING_LINK) {
          var info := GetProcessInfo(dir);
          added := [Report(pid.value, info, fd.value.name)];
          EntryReportsFound(snap, entry, pid.value, j);
          return;
        }
      }
      j := j + 1;
    }
    FirstIsNone(fds);
  }

  /** The reports of one more entry. */
  lemma ReportsSnoc(snap: Snapshot, entries: seq<Option<string>>, i: nat)
    requires i < |entries|
    ensures ReportsOf(snap, entries[..i + 1]) == ReportsOf(snap, entries[..i]) + EntryReports(snap, entries[i])
  {
    assert entries[..i + 1][..i] == entries[..i];
  }

  /** The report for an entry whose process's first io_uring descriptor is at `j`. */
  lemma EntryReportsFound(snap: Snapshot, entry: Option<string>, pid: nat, j: nat)
    requires NamesPid(entry, pid)
    requires var dir := ProcOf(snap, pid);
      dir.fds.Some? && j < |dir.fds.value| && IsIoUringFd(dir.fds.value[j]) &&
      forall k :: 0 <= k < j ==> !IsIoUringFd(dir.fds.value[k])
    ensures var dir := ProcOf(snap, pid);
      EntryReports(snap, entry) == [Report(pid, InfoOf(dir), dir.fds.value[j].value.name)]
  {
    FirstIsFirst(ProcOf(snap, pid).fds.value, j);
  }

  lemma FirstIsFirst(fds: seq<Option<FdEntry>>, j: int)
    requires 0 <= j < |fds| && IsIoUringFd(fds[j])
    requires forall k :: 0 <= k < j ==> !IsIoUringFd(fds[k])
    ensures FirstIoUringFd(fds) == Some(j)
  {
    var r := FirstIoUringFd(fds);
    assert r.Some?;
  }

  lemma FirstIsNone(fds: seq<Option<FdEntry>>)
    requires forall k :: 0 <= k < |fds| ==> !IsIoUringFd(fds[k])
    ensures FirstIoUringFd(fds) == None
  {
  }

  // ---------------------------------------------------------------------------
  // Properties of the scan

  /** The reports of two runs of entries are those of each, in order. */
  lemma {:induction false} ReportsAppend(snap: Snapshot, a: seq<Option<string>>, b: seq<Option<string>>)
    ensures ReportsOf(snap, a + b) == ReportsOf(snap, a) + ReportsOf(snap, b)
    decreases |b|
  {
    if b == [] {
      assert a + b == a;
    } else {
      var b0 := b[..|b| - 1];
      assert (a + b)[..|a + b| - 1] == a + b0;
      assert (a + b)[|a + b| - 1] == b[|b| - 1];
      ReportsAppend(snap, a, b0);
    }
  }

  /** An entry that names a pid yields a report exactly when that process holds an
      io_uring descriptor, and the report is for that pid. */
  lemma EntryReportsPid(snap: Snapshot, entry: Option<string>, pid: nat)
    requires NamesPid(entry, pid)
    ensures EntryReports(snap, entry) != [] <==> HoldsIoUring(snap, pid)
    ensures EntryReports(snap, entry) != [] ==> EntryReports(snap, entry)[0].pid == pid
  {
  }

  /** A report always comes from an entry that names its pid. */
  lemma EntryReportsNamed(snap: Snapshot, entry: Option<string>)
    requires EntryReports(snap, entry) != []
    ensures NamesPid(entry, EntryReports(snap, entry)[0].pid)
    ensures HoldsIoUring(snap, EntryReports(snap, entry)[0].pid)
  {
  }

  /** An entry that yields no report leaves the reports of all other entries as they are:
      non-numeric names, unreadable entries, vanished processes and processes without an
      io_uring descriptor are skipped without affecting the rest of the scan. */
  lemma SkippedEntry(snap: Snapshot, a: seq<Option<string>>, entry: Option<string>, b: seq<Option<string>>)
    requires entry.None? || ParseU32(entry.value).None? || !HoldsIoUring(snap, ParseU32(entry.value).value)
    ensures ReportsOf(snap, a + [entry] + b) == ReportsOf(snap, a) + ReportsOf(snap, b)
  {
    if entry.Some? && ParseU32(entry.value).Some? {
      EntryReportsPid(snap, entry, ParseU32(entry.value).value);
    }
    var none := EntryReports(snap, entry);
    assert none == [];
    ReportsAppend(snap, a + [entry], b);
    assert (a + [entry])[..|a + [entry]| - 1] == a;
    assert (a + [entry])[|a + [entry]| - 1] == entry;
    assert ReportsOf(snap, a + [entry]) == ReportsOf(snap, a) + none;
  }

  /** The properties one report has: a `u32` pid, the first io_uring descriptor of that
      process, and the metadata read from that process's own files. */
  predicate Faithful(snap: Snapshot, r: Report)
  {
    var dir := ProcOf(snap, r.pid);
    && r.pid < U32_LIMIT
    && dir.fds.Some?
    && var first := FirstIoUringFd(dir.fds.value);
    && first.Some?
    && r.fd == dir.fds.value[first.value].value.name
    && r.info == InfoOf(dir)
  }

  lemma {:induction false} ReportsFaithful(snap: Snapshot, entries: seq<Option<string>>)
    ensures var rs := ReportsOf(snap, entries);
      |rs| <= |entries| && forall k :: 0 <= k < |rs| ==> Faithful(snap, rs[k])
    decreases |entries|
  {
    if entries != [] {
      ReportsFaithful(snap, entries[..|entries| - 1]);
      var rs0 := ReportsOf(snap, entries[..|entries| - 1]);
      var last := EntryReports(snap, entries[|entries| - 1]);
      var rs := rs0 + last;
      forall k | 0 <= k < |rs| ensures Faithful(snap, rs[k]) {
        if k >= |rs0| {
          assert rs[k] == last[0];
        }
      }
    }
  }

  /** Some report is for `pid`. */
  predicate Reported(rs: seq<Report>, pid: nat)
  {
    exists k :: 0 <= k < |rs| && rs[k].pid == pid
  }

  /** Some entry of the listing names `pid`. */
  predicate Named(entries: seq<Option<string>>, pid: nat)
  {
    exists i :: 0 <= i < |entries| && NamesPid(entries[i], pid)
  }

  lemma ReportedConcat(rs: seq<Report>, more: seq<Report>, pid: nat)
    ensures Reported(rs + more, pid) <==> Reported(rs, pid) || Reported(more, pid)
  {
    if Reported(rs + more, pid) {
      var k :| 0 <= k < |rs + more| && (rs + more)[k].pid == pid;
      if k >= |rs| {
        assert more[k - |rs|].pid == pid;
      }
    }
    if Reported(rs, pid) {
      var k :| 0 <= k < |rs| && rs[k].pid == pid;
      assert (rs + more)[k].pid == pid;
    }
    if Reported(more, pid) {
      var k :| 0 <= k < |more| && more[k].pid == pid;
      assert (rs + more)[|rs| + k].pid == pid;
    }
  }

  lemma NamedSnoc(entries: seq<Option<string>>, e: Option<string>, pid: nat)
    ensures Named(entries + [e], pid) <==> Named(entries, pid) || NamesPid(e, pid)
  {
    if Named(entries + [e], pid) {
      var i :| 0 <= i < |entries + [e]| && NamesPid((entries + [e])[i], pid);
      if i < |entries| {
        assert NamesPid(entries[i], pid);
      }
    }
    if Named(entries, pid) {
      var i :| 0 <= i < |entries| && NamesPid(entries[i], pid);
      assert NamesPid((entries + [e])[i], pid);
    }
    if NamesPid(e, pid) {
      assert NamesPid((entries + [e])[|entries|], pid);
    }
  }

  lemma EntryReported(snap: Snapshot, e: Option<string>, pid: nat)
    ensures Reported(EntryReports(snap, e), pid) <==> NamesPid(e, pid) && HoldsIoUring(snap, pid)
  {
    var rs := EntryReports(snap, e);
    if rs != [] {
      EntryReportsNamed(snap, e);
      assert ParseU32(e.value) == Some(rs[0].pid);
    }
    if NamesPid(e, pid) {
      EntryReportsPid(snap, e, pid);
      if HoldsIoUring(snap, pid) {
        assert rs[0].pid == pid;
      }
    }
  }

  /** A pid is reported exactly when some entry of `/proc` names it and that process
      holds an io_uring descriptor. */
  lemma {:induction false} ReportedExactly(snap: Snapshot, entries: seq<Option<string>>, pid: nat)
    ensures Reported(ReportsOf(snap, entries), pid) <==>
      (HoldsIoUring(snap, pid) && Named(entries, pid))
    decreases |entries|
  {
    if entries != [] {
      var init := entries[..|entries| - 1];
      var e := entries[|entries| - 1];
      ReportedExactly(snap, init, pid);
      assert ReportsOf(snap, entries) == ReportsOf(snap, init) + EntryReports(snap, e);
      ReportedConcat(ReportsOf(snap, init), EntryReports(snap, e), pid);
      EntryReported(snap, e, pid);
      assert init + [e] == entries;
      NamedSnoc(init, e, pid);
    }
  }

  /** No two entries of the listing parse to the same pid. */
  predicate DistinctPids(entries: seq<Option<string>>)
  {
    forall i, j :: 0 <= i < j < |entries| && entries[i].Some? && entries[j].Some? ==>
      ParseU32(entries[i].value).None? || ParseU32(entries[i].value) != ParseU32(entries[j].value)
  }

  /** No two reports are for the same pid. */
  predicate OncePerPid(rs: seq<Report>)
  {
    forall a, b :: 0 <= a < b < |rs| ==> rs[a].pid != rs[b].pid
  }

  /** When the names in `/proc` denote different pids (as the kernel's do), each pid is
      reported at most once. */
  lemma {:induction false} ReportedAtMostOnce(snap: Snapshot, entries: seq<Option<string>>)
    requires DistinctPids(entries)
    ensures OncePerPid(ReportsOf(snap, entries))
    decreases |entries|
  {
    if entries != [] {
      var init := entries[..|entries| - 1];
      var e := entries[|entries| - 1];
      assert forall i :: 0 <= i < |init| ==> init[i] == entries[i];
      ReportedAtMostOnce(snap, init);
      var rs0 := ReportsOf(snap, init);
      var last := EntryReports(snap, e);
      var rs := rs0 + last;
      assert ReportsOf(snap, entries) == rs;
      if last == [] {
        assert forall a, b :: 0 <= a < b < |rs0| ==> rs0[a].pid != rs0[b].pid;
        assert rs == rs0;
      } else {
        var pid := last[0].pid;
        EntryReportsNamed(snap, e);
        forall i | 0 <= i < |init| ensures !NamesPid(init[i], pid) {
          assert entries[i] == init[i];
        }
        ReportedExactly(snap, init, pid);
        assert forall a :: 0 <= a < |rs0| ==> rs0[a].pid != pid;
        forall a, b | 0 <= a < b < |rs| ensures rs[a].pid != rs[b].pid {
          if b < |rs0| {
            assert rs[a] == rs0[a] && rs[b] == rs0[b];
          } else {
            assert rs[a] == rs0[a] && rs[b] == last[0];
          }
        }
      }
    }
  }
}
