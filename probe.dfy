/**
 * The io_uring capability probe: classification of the `io_uring_setup(2)`
 * outcome and decoding of the `features` word the kernel writes into the
 * parameter block. The system call itself is an input: its return value, the
 * thread's last error code and the `features` field of the block it filled in.
 */
module Probe {
  import opened Wrappers

  /** The Linux error number for "function not implemented". */
  const ENOSYS: int := 38

  /** What one `io_uring_setup(1, &params)` call left behind. */
  datatype SetupCall = SetupCall(ret: int, errno: int, features: bv32)

  /** `io::Result<Option<IoUringParams>>`, keeping only the `features` field of the parameters. */
  datatype Outcome = Supported(features: bv32) | Unsupported | ProbeError(errno: int)

  /** The outcome, and the descriptor the probe closed before returning (if it obtained one). */
  datatype Probe = Probe(outcome: Outcome, closed: Option<int>)

  /** `detect_io_uring_support`: a non-negative return is a ring descriptor, closed at once,
      and means supported; a negative return is "unsupported" when the error is `ENOSYS`,
      and an error carrying that code otherwise. */
  function DetectIoUringSupport(call: SetupCall): (p: Probe)
    ensures p.outcome.Supported? <==> call.ret >= 0
    ensures p.outcome.Unsupported? <==> call.ret < 0 && call.errno == ENOSYS
    ensures p.outcome.ProbeError? <==> call.ret < 0 && call.errno != ENOSYS
    ensures p.outcome.Supported? ==> p.outcome.features == call.features
    ensures p.outcome.ProbeError? ==> p.outcome.errno == call.errno
    ensures p.closed == if call.ret >= 0 then Some(call.ret) else None
  {
    if call.ret >= 0 then Probe(Supported(call.features), Some(call.ret))
    else if call.errno == ENOSYS then Probe(Unsupported, None)
    else Probe(ProbeError(call.errno), None)
  }

  /** "Not implemented" is never reported as an error and never carries a feature word. */
  lemma EnosysIsUnsupported(call: SetupCall)
    requires call.ret < 0 && call.errno == ENOSYS
    ensures DetectIoUringSupport(call) == Probe(Unsupported, None)
  {
  }

  // ---------------------------------------------------------------------------
  // Feature table and decoding

  datatype Feature = Feature(mask: bv32, name: string)

  /** `IO_URING_FEATURES`, as the detectors define it: entry `k` has mask `1 << k`.
      The names from bit 8 on (the kernel calls bit 8 `IORING_FEAT_EXT_ARG`) do not follow the kernel's own `IORING_FEAT_*` names;
      the table is copied as written, not checked against the kernel. */
  const FEATURES: seq<Feature> := [
    Feature(0x1, SINGLE_MMAP),
    Feature(0x2, NODROP),
    Feature(0x4, SUBMIT_STABLE),
    Feature(0x8, RW_CUR_POS),
    Feature(0x10, CUR_PERSONALITY),
    Feature(0x20, FAST_POLL),
    Feature(0x40, POLL_32BITS),
    Feature(0x80, SQPOLL_NONFIXED),
    Feature(0x100, ENTER_EXT_ARG),
    Feature(0x200, REG_RW),
    Feature(0x400, SAFE_LINK),
    Feature(0x800, FAST_POLL_FULL),
    Feature(0x1000, CQE_SKIP)
  ]

  // The names printed for the table entries.
  const SINGLE_MMAP: string := "IORING_FEAT_SINGLE_MMAP"
  const NODROP: string := "IORING_FEAT_NODROP"
  const SUBMIT_STABLE: string := "IORING_FEAT_SUBMIT_STABLE"
  const RW_CUR_POS: string := "IORING_FEAT_RW_CUR_POS"
  const CUR_PERSONALITY: string := "IORING_FEAT_CUR_PERSONALITY"
  const FAST_POLL: string := "IORING_FEAT_FAST_POLL"
  const POLL_32BITS: string := "IORING_FEAT_POLL_32BITS"
  const SQPOLL_NONFIXED: string := "IORING_FEAT_SQPOLL_NONFIXED"
  const ENTER_EXT_ARG: string := "IORING_FEAT_ENTER_EXT_ARG"
  const REG_RW: string := "IORING_FEAT_REG_RW"
  const SAFE_LINK: string := "IORING_FEAT_SAFE_LINK"
  const FAST_POLL_FULL: string := "IORING_FEAT_FAST_POLL_FULL"
  const CQE_SKIP: string := "IORING_FEAT_CQE_SKIP"

  /** The union of the masks in the table: bits 0 to 12. */
  const KNOWN_FEATURES: bv32 := 0x1FFF

  /** `(features & mask) != 0`. */
  predicate Meets(features: bv32, mask: bv32)
  {
    features & mask != 0
  }

  /** The names of the table entries whose mask meets `features`, in table order. */
  function NamesIn(table: seq<Feature>, features: bv32): seq<string>
    decreases |table|
  {
    if table == [] then []
    else
      var last := table[|table| - 1];
      NamesIn(table[..|table| - 1], features) + (if Meets(features, last.mask) then [last.name] else [])
  }

  function FeatureNames(features: bv32): seq<string>
  {
    NamesIn(FEATURES, features)
  }

  /** What `print_io_uring_features` reports: the names it lists, and whether it
      printed the "(no features reported)" line instead. */
  datatype FeatureReport = FeatureReport(names: seq<string>, noneReported: bool)

  /** `print_io_uring_features`, with the lines it prints returned instead. */
  method ReportFeatures(features: bv32) returns (report: FeatureReport)
    ensures report.names == FeatureNames(features)
    ensures report.noneReported <==> report.names == []
  {
    var names: seq<string> := [];
    var found := false;
    for i := 0 to |FEATURES|
      invariant names == NamesIn(FEATURES[..i], features)
      invariant found <==> names != []
    {
      var entry := FEATURES[i];
      NamesInSnoc(FEATURES, features, i);
      if features & entry.mask != 0 {
        names := names + [entry.name];
        found := true;
      }
    }
    assert FEATURES[..|FEATURES|] == FEATURES;
    report := FeatureReport(names, !found);
  }

  // ---------------------------------------------------------------------------
  // Properties of the decoding

  predicate Selected(table: seq<Feature>, features: bv32, k: int)
  {
    0 <= k < |table| && Meets(features, table[k].mask)
  }

  lemma NamesInSnoc(table: seq<Feature>, features: bv32, k: int)
    requires 0 <= k < |table|
    ensures NamesIn(table[..k + 1], features) ==
      NamesIn(table[..k], features) + (if Meets(features, table[k].mask) then [table[k].name] else [])
  {
    assert table[..k + 1][..k] == table[..k];
  }

  /** A name is listed exactly when some table entry with that name has its bit set. */
  lemma {:induction false} NamesInMember(table: seq<Feature>, features: bv32, n: string)
    ensures n in NamesIn(table, features) <==>
      exists k :: Selected(table, features, k) && table[k].name == n
    decreases |table|
  {
    if table != [] {
      var init := table[..|table| - 1];
      var last := table[|table| - 1];
      NamesInMember(init, features, n);
      assert forall k :: 0 <= k < |init| ==> init[k] == table[k];
      if exists k :: Selected(init, features, k) && init[k].name == n {
        var k :| Selected(init, features, k) && init[k].name == n;
        assert Selected(table, features, k) && table[k].name == n;
      }
      if exists k :: Selected(table, features, k) && table[k].name == n {
        var k :| Selected(table, features, k) && table[k].name == n;
        if k < |init| {
          assert Selected(init, features, k) && init[k].name == n;
        } else {
          assert k == |init| && Meets(features, last.mask) && last.name == n;
        }
      }
    }
  }

  /** Nothing is listed exactly when no entry has its bit set. */
  lemma {:induction false} NamesInEmpty(table: seq<Feature>, features: bv32)
    ensures NamesIn(table, features) == [] <==> forall k :: 0 <= k < |table| ==> !Meets(features, table[k].mask)
    decreases |table|
  {
    if table != [] {
      var init := table[..|table| - 1];
      NamesInEmpty(init, features);
      assert forall k :: 0 <= k < |init| ==> init[k] == table[k];
    }
  }

  /** `a` occurs in `names` at some position before an occurrence of `b`. */
  predicate ListedBefore(names: seq<string>, a: string, b: string)
  {
    exists p, q :: 0 <= p < q < |names| && names[p] == a && names[q] == b
  }

  /** One step of `NamesIn`: the listing of a table is that of all but its last entry, then the last's name if selected. */
  lemma NamesInUnfold(table: seq<Feature>, features: bv32)
    requires table != []
    ensures NamesIn(table, features) ==
      NamesIn(table[..|table| - 1], features) +
      (if Meets(features, table[|table| - 1].mask) then [table[|table| - 1].name] else [])
  {
  }

  /** Listing more names after a run keeps the order of what was already listed. */
  lemma ListedBeforeExtend(r0: seq<string>, tail: seq<string>, a: string, b: string)
    requires ListedBefore(r0, a, b)
    ensures ListedBefore(r0 + tail, a, b)
  {
    var p, q :| 0 <= p < q < |r0| && r0[p] == a && r0[q] == b;
    var r := r0 + tail;
    assert r[p] == a && r[q] == b;
  }

  /** A name already listed comes before one appended after it. */
  lemma ListedBeforeLast(r0: seq<string>, a: string, b: string)
    requires a in r0
    ensures ListedBefore(r0 + [b], a, b)
  {
    var p :| 0 <= p < |r0| && r0[p] == a;
    var r := r0 + [b];
    assert r[p] == a && r[|r0|] == b;
  }

  /** Two listed names appear in the order of their table entries. */
  lemma {:induction false} NamesInOrder(table: seq<Feature>, features: bv32, i: int, j: int)
    requires i < j && Selected(table, features, i) && Selected(table, features, j)
    ensures ListedBefore(NamesIn(table, features), table[i].name, table[j].name)
    decreases |table|
  {
    var init := table[..|table| - 1];
    var last := table[|table| - 1];
    var r0 := NamesIn(init, features);
    NamesInUnfold(table, features);
    assert init[i] == table[i];
    if j < |table| - 1 {
      assert init[j] == table[j];
      assert Selected(init, features, i) && Selected(init, features, j);
      NamesInOrder(init, features, i, j);
      ListedBeforeExtend(r0, if Meets(features, last.mask) then [last.name] else [], table[i].name, table[j].name);
    } else {
      assert Selected(init, features, i) && init[i].name == table[i].name;
      NamesInMember(init, features, table[i].name);
      ListedBeforeLast(r0, table[i].name, last.name);
    }
  }

  predicate Distinct(names: seq<string>)
  {
    forall p, q :: 0 <= p < q < |names| ==> names[p] != names[q]
  }

  predicate DistinctNames(table: seq<Feature>)
  {
    forall p, q :: 0 <= p < q < |table| ==> table[p].name != table[q].name
  }

  /** A table with distinct names lists each name at most once. */
  lemma {:induction false} NamesInDistinct(table: seq<Feature>, features: bv32)
    requires DistinctNames(table)
    ensures Distinct(NamesIn(table, features))
    decreases |table|
  {
    if table != [] {
      var init := table[..|table| - 1];
      var last := table[|table| - 1];
      assert forall k :: 0 <= k < |init| ==> init[k] == table[k];
      NamesInDistinct(init, features);
      if Meets(features, last.mask) {
        forall k | Selected(init, features, k) ensures init[k].name != last.name {
          assert table[k].name != table[|init|].name;
        }
        NamesInMember(init, features, last.name);
      }
    }
  }

  /** Entries past position `n` that are not selected add nothing. */
  lemma {:induction false} NamesInUnselectedTail(table: seq<Feature>, features: bv32, n: int)
    requires 0 <= n <= |table|
    requires forall k :: n <= k < |table| ==> !Meets(features, table[k].mask)
    ensures NamesIn(table, features) == NamesIn(table[..n], features)
    decreases |table| - n
  {
    if n < |table| {
      NamesInUnselectedTail(table, features, n + 1);
      NamesInSnoc(table, features, n);
    } else {
      assert table[..n] == table;
    }
  }

  lemma FeatureMasks()
    ensures |FEATURES| == 13
    ensures forall k :: 0 <= k < 13 ==> FEATURES[k].mask == 1 << k
  {
  }

  lemma FeatureNamesDiffer()
    ensures DistinctNames(FEATURES)
  {
  }

  /** A table name is listed exactly when its bit is set in the feature word. */
  lemma FeatureListed(features: bv32, k: int)
    requires 0 <= k < 13
    ensures FEATURES[k].name in FeatureNames(features) <==> features & (1 << k) != 0
  {
    FeatureMasks();
    FeatureNamesDiffer();
    var n := FEATURES[k].name;
    NamesInMember(FEATURES, features, n);
    forall j | 0 <= j < |FEATURES| ensures FEATURES[j].name == n ==> j == k {
    }
    assert Meets(features, FEATURES[k].mask) <==> features & (1 << k) != 0;
  }

  /** Every listed name is a table name whose bit is set; the list has no repeats. */
  lemma FeatureNamesSound(features: bv32)
    ensures Distinct(FeatureNames(features))
    ensures forall n :: n in FeatureNames(features) ==>
      exists k :: 0 <= k < 13 && FEATURES[k].name == n && features & (1 << k) != 0
  {
    FeatureMasks();
    FeatureNamesDiffer();
    NamesInDistinct(FEATURES, features);
    forall n | n in FeatureNames(features)
      ensures exists k :: 0 <= k < 13 && FEATURES[k].name == n && features & (1 << k) != 0
    {
      NamesInMember(FEATURES, features, n);
    }
  }

  /** Listed names come out in table order. */
  lemma FeatureNamesOrdered(features: bv32, i: int, j: int)
    requires 0 <= i < j < 13
    requires features & (1 << i) != 0 && features & (1 << j) != 0
    ensures ListedBefore(FeatureNames(features), FEATURES[i].name, FEATURES[j].name)
  {
    FeatureMasks();
    assert Selected(FEATURES, features, i) && Selected(FEATURES, features, j);
    NamesInOrder(FEATURES, features, i, j);
  }

  /** Every mask of the table lies within `KNOWN_FEATURES`. */
  lemma MasksWithinKnown()
    ensures forall k :: 0 <= k < |FEATURES| ==> Within(FEATURES[k].mask, KNOWN_FEATURES)
  {
    assert FEATURES[0].mask == 0x1 && FEATURES[1].mask == 0x2 && FEATURES[2].mask == 0x4;
    assert FEATURES[3].mask == 0x8 && FEATURES[4].mask == 0x10 && FEATURES[5].mask == 0x20;
    assert FEATURES[6].mask == 0x40 && FEATURES[7].mask == 0x80 && FEATURES[8].mask == 0x100;
    assert FEATURES[9].mask == 0x200 && FEATURES[10].mask == 0x400 && FEATURES[11].mask == 0x800;
    assert FEATURES[12].mask == 0x1000;
  }

  /** The bits of the table, one at a time. */
  lemma KnownBits(f: bv32)
    ensures f & KNOWN_FEATURES == 0 <==>
      (f & 0x1 == 0 && f & 0x2 == 0 && f & 0x4 == 0 && f & 0x8 == 0 && f & 0x10 == 0 &&
       f & 0x20 == 0 && f & 0x40 == 0 && f & 0x80 == 0 && f & 0x100 == 0 && f & 0x200 == 0 &&
       f & 0x400 == 0 && f & 0x800 == 0 && f & 0x1000 == 0)
  {
  }

  /** Clearing bits outside `known` does not change how a word meets a mask inside it. */
  lemma MeetsMasked(features: bv32, known: bv32, mask: bv32)
    requires Within(mask, known)
    ensures Meets(features, mask) <==> Meets(features & known, mask)
  {
    assert (features & known) & mask == features & mask;
  }

  /** Every bit of `mask` lies in `known`. */
  predicate Within(mask: bv32, known: bv32)
  {
    mask & known == mask
  }

  /** Clearing bits outside `known` does not change the listing of a table whose masks lie within `known`. */
  lemma {:induction false} NamesInMasked(table: seq<Feature>, features: bv32, known: bv32)
    requires forall k :: 0 <= k < |table| ==> Within(table[k].mask, known)
    ensures NamesIn(table, features) == NamesIn(table, features & known)
    decreases |table|
  {
    if table != [] {
      var init := table[..|table| - 1];
      var last := table[|table| - 1];
      assert forall k :: 0 <= k < |init| ==> init[k] == table[k];
      NamesInMasked(init, features, known);
      MeetsMasked(features, known, last.mask);
      NamesInUnfold(table, features);
      NamesInUnfold(table, features & known);
    }
  }

  /** Bits outside the table never change what is listed. */
  lemma UnknownBitsIgnored(features: bv32)
    ensures FeatureNames(features) == FeatureNames(features & KNOWN_FEATURES)
  {
    MasksWithinKnown();
    NamesInMasked(FEATURES, features, KNOWN_FEATURES);
  }

  /** "(no features reported)" is printed exactly when no table bit is set. */
  lemma NoFeaturesExactly(features: bv32)
    ensures FeatureNames(features) == [] <==> features & KNOWN_FEATURES == 0
  {
    FeatureMasks();
    NamesInEmpty(FEATURES, features);
    KnownBits(features);
    assert FEATURES[0].mask == 0x1 && FEATURES[1].mask == 0x2 && FEATURES[2].mask == 0x4;
    assert FEATURES[3].mask == 0x8 && FEATURES[4].mask == 0x10 && FEATURES[5].mask == 0x20;
    assert FEATURES[6].mask == 0x40 && FEATURES[7].mask == 0x80 && FEATURES[8].mask == 0x100;
    assert FEATURES[9].mask == 0x200 && FEATURES[10].mask == 0x400 && FEATURES[11].mask == 0x800;
    assert FEATURES[12].mask == 0x1000;
  }

  /** A zero feature word lists nothing. */
  lemma NoFeaturesForZero()
    ensures FeatureNames(0) == []
  {
    NoFeaturesExactly(0);
  }

  /** The word 0b101 lists the names of bits 0 and 2, in that order. */
  lemma FeaturesOfFive()
    ensures FeatureNames(0x5) == [SINGLE_MMAP, SUBMIT_STABLE]
  {
    var f: bv32 := 0x5;
    FeatureMasks();
    forall k | 3 <= k < |FEATURES| ensures !Meets(f, FEATURES[k].mask) {
      assert FEATURES[k].mask == 1 << k;
    }
    NamesInUnselectedTail(FEATURES, f, 3);
    NamesInSnoc(FEATURES, f, 0);
    NamesInSnoc(FEATURES, f, 1);
    NamesInSnoc(FEATURES, f, 2);
    assert FEATURES[..0] == [];
    assert Meets(f, FEATURES[0].mask) && !Meets(f, FEATURES[1].mask) && Meets(f, FEATURES[2].mask);
  }
}
