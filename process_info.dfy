/**
 * `get_process_name`, `get_process_info`, `ProcessInfo` and `MemoryInfo`: the
 * metadata gathered for a process found holding an io_uring. Every file under
 * `/proc/<pid>/` is an input that is either readable (its contents) or not.
 */
module ProcInfo {
  import opened Wrappers
  import opened Text

  /** One entry of `/proc/<pid>/fd`: its file name and, when `read_link` succeeds, its target. */
  datatype FdEntry = FdEntry(name: string, target: Option<string>)

  /** What the reads under `/proc/<pid>/` return: `fds` is the listing of the `fd`
      directory (an entry that the iterator reports as an error is `None`), `exe` the
      target of the `exe` link, the others the contents of the files of those names. */
  datatype ProcDir = ProcDir(
    fds: Option<seq<Option<FdEntry>>>,
    comm: Option<string>,
    exe: Option<string>,
    cmdline: Option<string>,
    maps: Option<string>,
    status: Option<string>)

  /** `MemoryInfo`: sizes in kilobytes, each absent when not found or not a `u64`. */
  datatype MemoryInfo = MemoryInfo(virtualMemory: Option<nat>, residentMemory: Option<nat>)

  /** `ProcessInfo`. */
  datatype ProcessInfo = ProcessInfo(
    name: string,
    exePath: Option<string>,
    cmdline: Option<seq<string>>,
    memoryStatus: Option<MemoryInfo>,
    isInMemory: bool)

  const UNKNOWN: string := "<unknown>"
  const VM_SIZE: string := "VmSize:"
  const VM_RSS: string := "VmRSS:"
  const MEMFD: string := "memfd:"
  const ANON_INODE: string := "anon_inode:"
  const DELETED: string := "(deleted)"

  // ---------------------------------------------------------------------------
  // Name

  /** `get_process_name`: the trimmed contents of `comm`, when it can be read. */
  function ProcessName(comm: Option<string>): (r: Option<string>)
    ensures r.Some? <==> comm.Some?
    ensures r.Some? ==> r.value == Trim(comm.value)
  {
    match comm
    case None => None
    case Some(c) => Some(Trim(c))
  }

  /** The name a report shows: the trimmed `comm`, or `"<unknown>"` when it cannot be read. */
  function DisplayName(comm: Option<string>): string
  {
    match ProcessName(comm)
    case Some(n) => n
    case None => UNKNOWN
  }

  /** A readable `comm` is shown without surrounding whitespace (a `comm` that trims to
      nothing shows as the empty name, not as the fallback). */
  lemma DisplayNameOfComm(c: string)
    ensures var n := DisplayName(Some(c));
      n == Trim(c) && (n == [] || (!IsWhitespace(n[0]) && !IsWhitespace(n[|n| - 1])))
  {
  }

  /** `comm` ends with a newline, which the trim removes. */
  lemma DisplayNameDropsNewline(w: string)
    requires w != [] && NoWhitespace(w)
    ensures DisplayName(Some(w + "\n")) == w
  {
    var s := w + "\n";
    assert !IsWhitespace(s[0]);
    assert LeadingSpace(s) == 0;
    assert s[..|s| - 1] == w;
    assert TrailingSpace(w) == 0 by {
      assert !IsWhitespace(w[|w| - 1]);
    }
    assert TrailingSpace(s) == 1;
  }

  // ---------------------------------------------------------------------------
  // Command line

  /** `cmdline.split('\0').filter(|s| !s.is_empty())`. */
  function CmdlineFragments(blob: string): seq<string>
  {
    DropEmpty(Split(blob, NUL))
  }

  /** The `cmdline` field: the non-empty fragments, absent when the file cannot be read
      or has no non-empty fragment. */
  function CmdlineField(blob: Option<string>): Option<seq<string>>
  {
    if blob.Some? && CmdlineFragments(blob.value) != [] then Some(CmdlineFragments(blob.value)) else None
  }

  /** The fragments are non-empty, hold no NUL, and together spell the blob with its NULs removed. */
  lemma CmdlineContents(blob: string)
    ensures var args := CmdlineFragments(blob);
      && (forall k :: 0 <= k < |args| ==> args[k] != [] && NUL !in args[k])
      && Flatten(args) == Without(blob, NUL)
  {
    var pieces := Split(blob, NUL);
    var args := DropEmpty(pieces);
    FlattenSplit(blob, NUL);
    FlattenDropEmpty(pieces);
    forall k | 0 <= k < |args| ensures NUL !in args[k] {
      DropEmptyFrom(pieces, k);
    }
  }

  /** Every element that `DropEmpty` keeps is one of its input pieces. */
  lemma {:induction false} DropEmptyFrom(pieces: seq<string>, k: int)
    requires 0 <= k < |DropEmpty(pieces)|
    ensures DropEmpty(pieces)[k] in pieces
    decreases |pieces|
  {
    var rest := DropEmpty(pieces[1..]);
    if pieces[0] == "" {
      DropEmptyFrom(pieces[1..], k);
    } else if k > 0 {
      assert DropEmpty(pieces)[k] == rest[k - 1];
      DropEmptyFrom(pieces[1..], k - 1);
    }
  }

  /** The field is absent exactly when the file is unreadable or holds nothing but NULs. */
  lemma CmdlineAbsent(blob: Option<string>)
    ensures CmdlineField(blob) == None <==>
      blob.None? || forall k :: 0 <= k < |blob.value| ==> blob.value[k] == NUL
  {
    if blob.Some? {
      var b := blob.value;
      CmdlineContents(b);
      FlattenNonEmpty(CmdlineFragments(b));
      WithoutEmpty(b, NUL);
    }
  }

  /** Arguments written NUL-terminated, as the kernel lays out `cmdline`, are read back. */
  lemma CmdlineRoundTrip(args: seq<string>)
    requires args != []
    requires forall k :: 0 <= k < |args| ==> args[k] != [] && NUL !in args[k]
    ensures CmdlineField(Some(Join(args, NUL) + [NUL])) == Some(args)
  {
    var joined := Join(args, NUL);
    var blob := joined + [NUL];
    assert blob == joined + [NUL] + [];
    SplitAround(joined, NUL, []);
    SplitJoin(args, NUL);
    assert Split(blob, NUL) == args + [""];
    DropEmptyAppend(args, [""]);
    DropEmptyKeeps(args);
    assert DropEmpty([""]) == [];
    assert CmdlineFragments(blob) == args;
  }

  /** `"foo\0bar\0"` reads as `["foo", "bar"]`, without a trailing empty argument. */
  lemma CmdlineFooBar()
    ensures CmdlineField(Some("foo\0bar\0")) == Some(["foo", "bar"])
  {
    var args := ["foo", "bar"];
    assert Join(args, NUL) == "foo\0bar" by {
      assert args[1..] == ["bar"];
    }
    assert "foo\0bar\0" == Join(args, NUL) + [NUL];
    CmdlineRoundTrip(args);
  }

  // ---------------------------------------------------------------------------
  // Memory-backed heuristic

  predicate IsMarkerLine(line: string)
  {
    Contains(line, MEMFD) || Contains(line, ANON_INODE) || Contains(line, DELETED)
  }

  /** `maps.lines().any(...)`: some line mentions a memfd, an anonymous inode or a deleted file. */
  predicate HasMemoryMarker(maps: string)
  {
    var lines := Lines(maps);
    exists k :: 0 <= k < |lines| && IsMarkerLine(lines[k])
  }

  /** Splitting into lines makes no difference: the heuristic holds exactly when one of
      the markers occurs anywhere in the text. */
  lemma MemoryMarkerAnywhere(maps: string)
    ensures HasMemoryMarker(maps) <==>
      Contains(maps, MEMFD) || Contains(maps, ANON_INODE) || Contains(maps, DELETED)
  {
    var lines := Lines(maps);
    ContainsLines(maps, MEMFD);
    ContainsLines(maps, ANON_INODE);
    ContainsLines(maps, DELETED);
    if HasMemoryMarker(maps) {
      var k :| 0 <= k < |lines| && IsMarkerLine(lines[k]);
      assert SomeContains(lines, MEMFD) || SomeContains(lines, ANON_INODE) || SomeContains(lines, DELETED);
    }
    if SomeContains(lines, MEMFD) {
      var k :| 0 <= k < |lines| && Contains(lines[k], MEMFD);
      assert IsMarkerLine(lines[k]);
    }
    if SomeContains(lines, ANON_INODE) {
      var k :| 0 <= k < |lines| && Contains(lines[k], ANON_INODE);
      assert IsMarkerLine(lines[k]);
    }
    if SomeContains(lines, DELETED) {
      var k :| 0 <= k < |lines| && Contains(lines[k], DELETED);
      assert IsMarkerLine(lines[k]);
    }
  }

  // ---------------------------------------------------------------------------
  // Memory status

  /** A status line that sets the field of `key`: it starts with the key and has a
      second whitespace-separated token (a line without one leaves the field as it was). */
  predicate SetsField(line: string, key: string)
  {
    key <= line && |Tokens(line)| >= 2
  }

  /** The field of `key` after the lines: the second token of the last line that sets it,
      parsed as a `u64`, and absent when that token is not one or when no line sets it. */
  function StatusField(lines: seq<string>, key: string): Option<nat>
    decreases |lines|
  {
    if lines == [] then None
    else
      var line := lines[|lines| - 1];
      if SetsField(line, key) then ParseU64(Tokens(line)[1])
      else StatusField(lines[..|lines| - 1], key)
  }

  function MemoryInfoOf(status: string): MemoryInfo
  {
    var lines := Lines(status);
    MemoryInfo(StatusField(lines, VM_SIZE), StatusField(lines, VM_RSS))
  }

  /** The `for line in status.lines()` loop of `get_process_info`. */
  method ParseMemoryInfo(status: string) returns (m: MemoryInfo)
    ensures m == MemoryInfoOf(status)
  {
    m := MemoryInfo(None, None);
    var lines := Lines(status);
    for i := 0 to |lines|
      invariant m == MemoryInfo(StatusField(lines[..i], VM_SIZE), StatusField(lines[..i], VM_RSS))
    {
      var line := lines[i];
      assert lines[..i + 1][..i] == lines[..i];
      if VM_SIZE <= line {
        assert !(VM_RSS <= line) by { assert line[2] == 'S'; }
        var tokens := Tokens(line);
        if |tokens| >= 2 {
          m := m.(virtualMemory := ParseU64(tokens[1]));
        }
      } else if VM_RSS <= line {
        var tokens := Tokens(line);
        if |tokens| >= 2 {
          m := m.(residentMemory := ParseU64(tokens[1]));
        }
      }
    }
    assert lines[..|lines|] == lines;
  }

  /** The last line that sets a field decides it. */
  lemma {:induction false} StatusLastLineWins(lines: seq<string>, key: string, k: int)
    requires 0 <= k < |lines| && SetsField(lines[k], key)
    requires forall j :: k < j < |lines| ==> !SetsField(lines[j], key)
    ensures StatusField(lines, key) == ParseU64(Tokens(lines[k])[1])
    decreases |lines|
  {
    if k < |lines| - 1 {
      var init := lines[..|lines| - 1];
      assert forall j :: k < j < |init| ==> init[j] == lines[j];
      StatusLastLineWins(init, key, k);
    }
  }

  /** Without a line that sets it, a field is absent (never zero). */
  lemma {:induction false} StatusFieldMissing(lines: seq<string>, key: string)
    requires forall j :: 0 <= j < |lines| ==> !SetsField(lines[j], key)
    ensures StatusField(lines, key) == None
    decreases |lines|
  {
    if lines != [] {
      var init := lines[..|lines| - 1];
      assert forall j :: 0 <= j < |init| ==> init[j] == lines[j];
      StatusFieldMissing(init, key);
    }
  }

  /** A status text with no `VmRSS:` line at all has no resident size. */
  lemma ResidentAbsentWithoutLine(status: string)
    requires forall j :: 0 <= j < |Lines(status)| ==> !(VM_RSS <= Lines(status)[j])
    ensures MemoryInfoOf(status).residentMemory == None
  {
    StatusFieldMissing(Lines(status), VM_RSS);
  }

  /** `"VmRSS:    1234 kB"` gives a resident size of 1234 kB. */
  lemma ResidentExample()
    ensures MemoryInfoOf("VmRSS:    1234 kB").residentMemory == Some(1234)
  {
    var s := "VmRSS:    1234 kB";
    SplitWithout(s, '\n');
    assert Lines(s) == [s];
    ExampleTokens();
    ExampleDigits();
    StatusLastLineWins([s], VM_RSS, 0);
  }

  lemma ExampleTokens()
    ensures Tokens("VmRSS:    1234 kB") == ["VmRSS:", "1234", "kB"]
  {
    var w1, gap1, w2, gap2, w3 := "VmRSS:", "    ", "1234", " ", "kB";
    assert NoWhitespace(w1) by { forall k | 0 <= k < |w1| ensures !IsWhitespace(w1[k]) { } }
    assert NoWhitespace(w2) by { forall k | 0 <= k < |w2| ensures !IsWhitespace(w2[k]) { } }
    assert NoWhitespace(w3) by { forall k | 0 <= k < |w3| ensures !IsWhitespace(w3[k]) { } }
    assert AllWhitespace(gap1) && AllWhitespace(gap2);
    TokensThree(w1, gap1, w2, gap2, w3);
    assert w1 + gap1 + w2 + gap2 + w3 == "VmRSS:    1234 kB";
  }

  lemma ExampleDigits()
    ensures ParseU64("1234") == Some(1234)
  {
    assert "1234"[..3] == "123" && "123"[..2] == "12" && "12"[..1] == "1" && "1"[..0] == "";
    assert DigitsValue("1") == 1;
    assert DigitsValue("12") == 12;
    assert DigitsValue("123") == 123;
    assert DigitsValue("1234") == 1234;
  }

  // ---------------------------------------------------------------------------
  // The whole record

  /** The record `get_process_info` builds from the files of one process. */
  function InfoOf(dir: ProcDir): ProcessInfo
  {
    ProcessInfo(
      DisplayName(dir.comm),
      dir.exe,
      CmdlineField(dir.cmdline),
      if dir.maps.Some? && dir.status.Some? then Some(MemoryInfoOf(dir.status.value)) else None,
      dir.maps.Some? && HasMemoryMarker(dir.maps.value))
  }

  /** `get_process_info`: starts from the name and empty fields and fills in each field
      whose file can be read; the memory status is read only when `maps` was readable. */
  method GetProcessInfo(dir: ProcDir) returns (info: ProcessInfo)
    ensures info == InfoOf(dir)
    ensures info.name == (if dir.comm.Some? then Trim(dir.comm.value) else UNKNOWN)
    ensures info.exePath.None? <==> dir.exe.None?
    ensures info.cmdline.Some? ==> dir.cmdline.Some? && info.cmdline.value != []
    ensures info.memoryStatus.Some? <==> dir.maps.Some? && dir.status.Some?
    ensures info.isInMemory ==> dir.maps.Some?
  {
    var name := ProcessName(dir.comm);
    info := ProcessInfo(if name.Some? then name.value else UNKNOWN, None, None, None, false);

    if dir.exe.Some? {
      info := info.(exePath := Some(dir.exe.value));
    }

    if dir.cmdline.Some? {
      var args := CmdlineFragments(dir.cmdline.value);
      if args != [] {
        info := info.(cmdline := Some(args));
      }
    }

    if dir.maps.Some? {
      info := info.(isInMemory := HasMemoryMarker(dir.maps.value));
      if dir.status.Some? {
        var memory := ParseMemoryInfo(dir.status.value);
        info := info.(memoryStatus := Some(memory));
      }
    }
  }
}
