/**
  The process-replay test driver: it splits segment names into route and
  number, runs one process's comparison against its reference log, works out
  which cars and processes a run tests, stores each process's outcome per
  segment, and formats the two reports with the run's verdict.
*/
module TestProcesses {
  import opened Common
  import Text
  import C = CompareLogs

  // ---------------------------------------------------------------------
  // Segment names

  /** The last index below `i` at which `p` occurs in `s`. */
  function RFindBelow(s: string, p: string, i: nat): (r: Option<nat>)
    ensures r.Some? ==> r.value < i && Text.OccursAt(s, p, r.value)
    ensures r.Some? ==> forall k :: r.value < k < i ==> !Text.OccursAt(s, p, k)
    ensures r.None? ==> forall k :: 0 <= k < i ==> !Text.OccursAt(s, p, k)
  {
    if i == 0 then None
    else if Text.OccursAt(s, p, i - 1) then Some(i - 1)
    else RFindBelow(s, p, i - 1)
  }

  /**
    `segment.rsplit("--", 1)` unpacked into route and segment number: the
    parts around the last "--". A name without "--" splits into one part only,
    and unpacking it into two fails.
  */
  function SplitSegmentName(segment: string): (r: Result<(string, string)>)
    ensures r.Ok? <==> Text.HasSubstring(segment, "--")
    ensures r.Ok? ==> r.value.0 + "--" + r.value.1 == segment
    ensures r.Ok? ==> forall k :: |r.value.0| < k ==> !Text.OccursAt(segment, "--", k)
  {
    match RFindBelow(segment, "--", |segment| + 1)
    case None => Err("not enough values to unpack")
    case Some(i) =>
      assert segment == segment[..i] + segment[i..i + 2] + segment[i + 2..];
      Ok((segment[..i], segment[i + 2..]))
  }

  /** A name built from a route, "--" and a number holding no '-' splits back into the two. */
  lemma SplitJoinName(route: string, num: string)
    requires '-' !in num
    ensures SplitSegmentName(route + "--" + num) == Ok((route, num))
  {
    var s := route + "--" + num;
    assert s[|route|..|route| + 2] == "--";
    assert Text.OccursAt(s, "--", |route|);
    var r := SplitSegmentName(s);
    var i := |r.value.0|;
    assert s[i..i + 2] == "--" by {
      assert s == r.value.0 + "--" + r.value.1;
    }
    NoDashesAfterRoute(route, num, i);
    assert r.value.0 == s[..i];
  }

  /** In a route, "--" and a number without '-', no "--" starts beyond the route. */
  lemma NoDashesAfterRoute(route: string, num: string, i: nat)
    requires '-' !in num
    ensures Text.OccursAt(route + "--" + num, "--", i) ==> i <= |route|
  {
    var s := route + "--" + num;
    if i > |route| && i + 2 <= |s| {
      assert s[i + 1] == num[i - 1 - |route|];
      assert s[i..i + 2][1] != '-';
    }
  }

  // ---------------------------------------------------------------------
  // One process's test

  /** A process's replay configuration: its name and the fields it always ignores. */
  datatype Config = Config(procName: string, ignore: seq<string>)

  /** The segment named by a log path: its last '/'-separated part, up to its first '_'. */
  function SegmentOfLogPath(path: string): (r: string)
    ensures '/' !in r && '_' !in r
  {
    var parts := Text.Split(path, '/');
    var base := parts[|parts| - 1];
    Text.SplitJoin(path, '/');
    Text.SplitJoin(base, '_');
    Text.Split(base, '_')[0]
  }

  /**
    `test_process`: the replayed log of a `controlsd` run that never engaged
    raises; otherwise the comparison with the reference log, where an
    exception becomes its text. Missing ignore lists count as empty, and the
    process's own ignored fields are added to the given ones. Whether the
    route engaged and the replayed log itself are inputs, as is the
    tolerance-aware deep comparison.
  */
  function TestProcess(cfg: Config, refLog: seq<C.Msg>, logMsgs: seq<C.Msg>, enabled: bool, refLogPath: string,
                       ignoreFields: Option<seq<string>>, ignoreMsgs: Option<seq<string>>,
                       deepDiff: (seq<C.Value>, seq<C.Value>) -> seq<C.DiffItem>): (r: Result<C.ProcResult>)
    ensures r.Err? <==> cfg.procName == "controlsd" && !enabled
    ensures r.Err? ==> r.reason == "Route never enabled: " + SegmentOfLogPath(refLogPath)
    ensures r.Ok? ==>
      var compared := C.Compared(refLog, logMsgs, ignoreFields.GetOr([]) + cfg.ignore, ignoreMsgs.GetOr([]), deepDiff);
      (r.value.Raised? <==> compared.Err?) &&
      (compared.Err? ==> r.value.message == compared.reason) &&
      (compared.Ok? ==> r.value.items == compared.value)
  {
    if cfg.procName == "controlsd" && !enabled then
      Err("Route never enabled: " + SegmentOfLogPath(refLogPath))
    else
      var fields := (if ignoreFields.None? then [] else ignoreFields.value) + cfg.ignore;
      var msgs := if ignoreMsgs.None? then [] else ignoreMsgs.value;
      match C.Compared(refLog, logMsgs, fields, msgs, deepDiff)
      case Err(e) => Ok(C.Raised(e))
      case Ok(diff) => Ok(C.Diffs(diff))
  }

  /** A process whose replay reproduces its reference log exactly passes, with no difference at all. */
  lemma SameLogPasses(cfg: Config, log: seq<C.Msg>, enabled: bool, refLogPath: string,
                      ignoreFields: Option<seq<string>>, ignoreMsgs: Option<seq<string>>,
                      deepDiff: (seq<C.Value>, seq<C.Value>) -> seq<C.DiffItem>)
    requires cfg.procName != "controlsd" || enabled
    ensures TestProcess(cfg, log, log, enabled, refLogPath, ignoreFields, ignoreMsgs, deepDiff) == Ok(C.Diffs([]))
  {
    var fields := ignoreFields.GetOr([]) + cfg.ignore;
    var kept := C.Keep(log, ignoreMsgs.GetOr([]));
    C.EqualCountsNoDiff(C.Order(kept), kept, kept, fields, deepDiff);
  }

  // ---------------------------------------------------------------------
  // What a run tests

  /** The processes a run tests: those whitelisted and not blacklisted. */
  function TestedProcs(white: set<string>, black: set<string>): set<string> {
    white - black
  }

  lemma UpperIdempotent(s: string)
    ensures Text.Upper(Text.Upper(s)) == Text.Upper(s)
  {
    assert forall i :: 0 <= i < |s| ==> Text.UpperChar(Text.UpperChar(s[i])) == Text.UpperChar(s[i]);
  }

  /**
    The cars a run tests: the whitelisted cars that are not blacklisted,
    upper-cased. The blacklist is applied before upper-casing, so it only
    removes a car written exactly as in the whitelist.
  */
  function TestedCars(white: set<string>, black: set<string>): (r: set<string>)
    ensures forall c :: c in r ==> Text.Upper(c) == c
    ensures forall c :: c in white && c !in black ==> Text.Upper(c) in r
    ensures forall c :: c in r ==> exists w :: w in white && w !in black && Text.Upper(w) == c
  {
    forall c | c in white - black ensures Text.Upper(Text.Upper(c)) == Text.Upper(c) {
      UpperIdempotent(c);
    }
    set c | c in white - black :: Text.Upper(c)
  }

  /** A full test covers every process and every car with no extra ignore list. */
  predicate FullTest(procs: set<string>, cars: set<string>, allProcs: set<string>, allCars: set<string>,
                     ignoreFields: seq<string>, ignoreMsgs: seq<string>) {
    procs == allProcs && cars == allCars && |ignoreFields| == 0 && |ignoreMsgs| == 0
  }

  /** With the default arguments (everything whitelisted, nothing blacklisted or ignored) a run is a full test. */
  lemma DefaultsRunFullTest(allProcs: set<string>, allCars: set<string>)
    requires forall c :: c in allCars ==> Text.Upper(c) == c
    ensures FullTest(TestedProcs(allProcs, {}), TestedCars(allCars, {}), allProcs, allCars, [], [])
  {
    var cars := TestedCars(allCars, {});
    forall c | c in allCars ensures c in cars {
      assert Text.Upper(c) in cars;
    }
    forall c | c in cars ensures c in allCars {
      var w :| w in allCars && Text.Upper(w) == c;
    }
    assert cars == allCars;
  }

  /** A blacklisted process that the full list holds rules out a full test. */
  lemma BlacklistRulesOutFullTest(allProcs: set<string>, black: set<string>, cars: set<string>, allCars: set<string>,
                                  ignoreFields: seq<string>, ignoreMsgs: seq<string>, p: string)
    requires p in allProcs && p in black
    ensures !FullTest(TestedProcs(allProcs, black), cars, allProcs, allCars, ignoreFields, ignoreMsgs)
  {
    assert p !in TestedProcs(allProcs, black);
  }

  /**
    Updating or uploading reference logs is only allowed after a full test:
    otherwise the assertion fails. The result says whether the run uploads.
  */
  function CheckUpload(updateRefs: bool, uploadOnly: bool, fullTest: bool): (r: Result<bool>)
    ensures r.Err? <==> (updateRefs || uploadOnly) && !fullTest
    ensures r.Ok? ==> (r.value <==> updateRefs || uploadOnly)
  {
    var upload := updateRefs || uploadOnly;
    if upload && !fullTest then Err("Need to run full test when updating refs") else Ok(upload)
  }

  /** The car interfaces a full test leaves without a route: not excluded and matching no tested car in lower case. */
  function Untested(interfaces: set<string>, excluded: set<string>, cars: set<string>): (r: set<string>)
    ensures forall b :: b in r <==> b in interfaces && b !in excluded && forall c :: c in cars ==> Text.Lower(c) != b
  {
    (interfaces - excluded) - set c | c in cars :: Text.Lower(c)
  }

  // ---------------------------------------------------------------------
  // Storing outcomes

  /** What a worker returns for one segment and process: no result in an upload-only run, else the test's result. */
  datatype Outcome = Outcome(segment: string, proc: string, result: Option<C.ProcResult>)

  /** `results` holds an entry for `proc` under `seg`. */
  predicate Has(results: C.Results, seg: string, proc: string) {
    exists i, j :: 0 <= i < |results| && 0 <= j < |results[i].1| && results[i].0 == seg && results[i].1[j].0 == proc
  }

  /** `procs[proc] = r` on an insertion-ordered dictionary: overwrite in place, or append. */
  function PutProc(procs: seq<(string, C.ProcResult)>, proc: string, r: C.ProcResult): (out: seq<(string, C.ProcResult)>)
    ensures (exists j :: 0 <= j < |procs| && procs[j].0 == proc) ==> |out| == |procs|
    ensures (forall j :: 0 <= j < |procs| ==> procs[j].0 != proc) ==> out == procs + [(proc, r)]
    ensures forall j :: 0 <= j < |out| ==> out[j].0 == proc || (j < |procs| && out[j] == procs[j])
  {
    if procs == [] then [(proc, r)]
    else if procs[0].0 == proc then procs[0 := (proc, r)]
    else [procs[0]] + PutProc(procs[1..], proc, r)
  }

  /** The index of the entry for `seg`, if there is one. */
  function SegIndex(results: C.Results, seg: string): (r: Option<nat>)
    ensures r.Some? ==> r.value < |results| && results[r.value].0 == seg
    ensures r.None? ==> forall i :: 0 <= i < |results| ==> results[i].0 != seg
  {
    if results == [] then None
    else if results[0].0 == seg then Some(0)
    else match SegIndex(results[1..], seg)
      case None => None
      case Some(i) => Some(i + 1)
  }

  /** `results[seg][proc] = r` on a dictionary of dictionaries that opens missing segments. */
  function Put(results: C.Results, seg: string, proc: string, r: C.ProcResult): C.Results {
    match SegIndex(results, seg)
    case None => results + [(seg, [(proc, r)])]
    case Some(i) => results[i := (seg, PutProc(results[i].1, proc, r))]
  }

  /** Storing one result adds its entry and no other. */
  lemma PutHas(results: C.Results, seg: string, proc: string, r: C.ProcResult, s: string, p: string)
    ensures Has(Put(results, seg, proc, r), s, p) ==> Has(results, s, p) || (s == seg && p == proc)
  {
    var out := Put(results, seg, proc, r);
    if Has(out, s, p) && !(s == seg && p == proc) {
      var i, j :| 0 <= i < |out| && 0 <= j < |out[i].1| && out[i].0 == s && out[i].1[j].0 == p;
      match SegIndex(results, seg)
      case None =>
        assert i < |results| && results[i] == out[i];
      case Some(x) =>
        if i == x {
          assert j < |results[i].1| && results[i].1[j] == out[i].1[j];
        } else {
          assert results[i] == out[i];
        }
    }
  }

  /** A new entry fails the run exactly when it or an earlier one does. */
  lemma PutFails(results: C.Results, seg: string, proc: string, r: C.ProcResult)
    requires !Has(results, seg, proc)
    ensures C.AnyFails(Put(results, seg, proc, r)) <==> C.AnyFails(results) || C.Fails(r)
  {
    match SegIndex(results, seg)
    case None =>
      C.AnyFailsSnoc(results, (seg, [(proc, r)]));
      assert (exists k :: 0 <= k < 1 && C.Fails([(proc, r)][k].1)) <==> C.Fails(r) by {
        assert [(proc, r)][0].1 == r;
      }
    case Some(x) =>
      var procs := results[x].1;
      assert forall j :: 0 <= j < |procs| ==> procs[j].0 != proc;
      var out := Put(results, seg, proc, r);
      assert out[x].1 == procs + [(proc, r)];
      if C.AnyFails(out) {
        var i, j :| 0 <= i < |out| && 0 <= j < |out[i].1| && C.Fails(out[i].1[j].1);
        if i != x {
          assert out[i] == results[i];
        } else if j < |procs| {
          assert out[i].1[j] == procs[j];
        }
      }
      if C.AnyFails(results) {
        var i, j :| 0 <= i < |results| && 0 <= j < |results[i].1| && C.Fails(results[i].1[j].1);
        if i != x {
          assert out[i] == results[i];
        } else {
          assert out[i].1[j] == procs[j];
        }
      }
      if C.Fails(r) {
        assert out[x].1[|procs|] == (proc, r);
      }
  }

  /** No two outcomes are for the same segment and process (segments and process names are distinct). */
  predicate DistinctPairs(outcomes: seq<Outcome>) {
    forall i, j :: 0 <= i < j < |outcomes| ==>
      outcomes[i].segment != outcomes[j].segment || outcomes[i].proc != outcomes[j].proc
  }

  /** An outcome whose result fails the run. */
  predicate FailingOutcome(o: Outcome) {
    o.result.Some? && C.Fails(o.result.value)
  }

  /** The results as the driver stores them: only list results, so raised comparisons are dropped. */
  function StoredListsOnly(outcomes: seq<Outcome>): C.Results {
    if outcomes == [] then []
    else
      var n := |outcomes| - 1;
      var o := outcomes[n];
      var prev := StoredListsOnly(outcomes[..n]);
      if o.result.Some? && o.result.value.Diffs? then Put(prev, o.segment, o.proc, o.result.value) else prev
  }

  /** A comparison that raised leaves nothing behind, so the run it should fail passes. */
  lemma RaisedOutcomeLost()
    ensures var o := Outcome("seg", "controlsd", Some(C.Raised("log service keys don't match")));
      FailingOutcome(o) && StoredListsOnly([o]) == [] && !C.AnyFails(StoredListsOnly([o]))
  {
    var o := Outcome("seg", "controlsd", Some(C.Raised("log service keys don't match")));
    assert [o][..0] == [];
  }

  /** The results stored as intended: every result there is, the texts of raised comparisons included. */
  function Stored(outcomes: seq<Outcome>): C.Results {
    if outcomes == [] then []
    else
      var n := |outcomes| - 1;
      var o := outcomes[n];
      var prev := Stored(outcomes[..n]);
      if o.result.Some? then Put(prev, o.segment, o.proc, o.result.value) else prev
  }

  /** Every stored entry comes from an outcome for the same segment and process. */
  lemma {:induction false} StoredFrom(outcomes: seq<Outcome>, s: string, p: string)
    ensures Has(Stored(outcomes), s, p) ==>
      exists k :: 0 <= k < |outcomes| && outcomes[k].segment == s && outcomes[k].proc == p
  {
    if outcomes != [] {
      var n := |outcomes| - 1;
      var o := outcomes[n];
      StoredFrom(outcomes[..n], s, p);
      if o.result.Some? {
        PutHas(Stored(outcomes[..n]), o.segment, o.proc, o.result.value, s, p);
      }
      if Has(Stored(outcomes), s, p) && !(o.segment == s && o.proc == p) {
        var k :| 0 <= k < n && outcomes[..n][k].segment == s && outcomes[..n][k].proc == p;
        assert outcomes[k] == outcomes[..n][k];
      }
    }
  }

  /** Stored as intended, the results fail the run exactly when some outcome fails. */
  lemma {:induction false} StoredFails(outcomes: seq<Outcome>)
    requires DistinctPairs(outcomes)
    ensures C.AnyFails(Stored(outcomes)) <==> exists k :: 0 <= k < |outcomes| && FailingOutcome(outcomes[k])
  {
    if outcomes != [] {
      var n := |outcomes| - 1;
      var o := outcomes[n];
      var prefix := outcomes[..n];
      assert DistinctPairs(prefix);
      StoredFails(prefix);
      if o.result.Some? {
        StoredFrom(prefix, o.segment, o.proc);
        if Has(Stored(prefix), o.segment, o.proc) {
          assert false;
        }
        PutFails(Stored(prefix), o.segment, o.proc, o.result.value);
      }
      if exists k :: 0 <= k < |outcomes| && FailingOutcome(outcomes[k]) {
        var k :| 0 <= k < |outcomes| && FailingOutcome(outcomes[k]);
        if k < n {
          assert prefix[k] == outcomes[k];
        }
      }
      if exists k :: 0 <= k < n && FailingOutcome(prefix[k]) {
        var k :| 0 <= k < n && FailingOutcome(prefix[k]);
        assert outcomes[k] == prefix[k];
      }
    }
  }

  /** The storing loop: each worker's result in turn, as intended. */
  method StoreResults(outcomes: seq<Outcome>) returns (results: C.Results)
    ensures results == Stored(outcomes)
  {
    results := [];
    var k := 0;
    while k < |outcomes|
      invariant 0 <= k <= |outcomes|
      invariant results == Stored(outcomes[..k])
    {
      var o := outcomes[k];
      assert outcomes[..k + 1][..k] == outcomes[..k];
      if o.result.Some? {
        results := Put(results, o.segment, o.proc, o.result.value);
      }
      k := k + 1;
    }
    assert outcomes[..k] == outcomes;
  }

  // ---------------------------------------------------------------------
  // The reports

  /** The short lines of one process: its name, then the exception's text or the per-path counts. */
  function ProcShort(proc: string, result: C.ProcResult): string {
    var head := "\t" + proc + "\n";
    match result
    case Raised(msg) => head + ("\t\t" + msg + "\n")
    case Diffs(items) =>
      if |items| == 0 then head else head + C.CountLines("\t\t", C.CountKeys(items), items)
  }

  /** The long lines of one process: its header, then one line per difference. */
  function ProcLong(proc: string, result: C.ProcResult): string {
    var head := "*** process: " + proc + " ***\n";
    if result.Diffs? && |result.items| > 0 then head + C.ItemLines(result.items) else head
  }

  /** A process with differences lists each path once, in ascending order, with counts adding up to the differences. */
  lemma ProcShortCounts(proc: string, items: seq<C.DiffItem>)
    requires |items| > 0
    ensures var keys := C.CountKeys(items);
      ProcShort(proc, C.Diffs(items)) == "\t" + proc + "\n" + C.CountLines("\t\t", keys, items) &&
      Text.StrictlySorted(keys) && C.SumCounts(keys, items) == |items|
  {
    C.CountKeysSum(items);
  }

  function SegmentShort(seg: string, procs: seq<(string, C.ProcResult)>): string {
    if procs == [] then "***** results for segment " + seg + " *****\n"
    else
      var n := |procs| - 1;
      SegmentShort(seg, procs[..n]) + ProcShort(procs[n].0, procs[n].1)
  }

  function SegmentLong(seg: string, procs: seq<(string, C.ProcResult)>): string {
    if procs == [] then "***** differences for segment " + seg + " *****\n"
    else
      var n := |procs| - 1;
      SegmentLong(seg, procs[..n]) + ProcLong(procs[n].0, procs[n].1)
  }

  /** The short report: per segment a header, then per process its lines. */
  function ShortReport(results: C.Results): string {
    if results == [] then ""
    else ShortReport(results[..|results| - 1]) + SegmentShort(results[|results| - 1].0, results[|results| - 1].1)
  }

  /** The long report: the reference commit, then per segment a header and per process its lines. */
  function LongReport(results: C.Results, refCommit: string): string {
    if results == [] then "***** tested against commit " + refCommit + " *****\n"
    else LongReport(results[..|results| - 1], refCommit) + SegmentLong(results[|results| - 1].0, results[|results| - 1].1)
  }

  /** The lines one process adds to the two reports, and whether it fails the run. */
  method ProcReport(proc: string, result: C.ProcResult) returns (short: string, long: string, fails: bool)
    ensures short == ProcShort(proc, result)
    ensures long == ProcLong(proc, result)
    ensures fails == C.Fails(result)
  {
    short := "\t" + proc + "\n";
    long := "*** process: " + proc + " ***\n";
    fails := false;
    if result.Raised? {
      short := short + ("\t\t" + result.message + "\n");
      fails := true;
    } else if |result.items| > 0 {
      var itemLines, cnt := C.TallyDiff(result.items);
      var counts := C.CountReport("\t\t", cnt, result.items);
      long := long + itemLines;
      short := short + counts;
      fails := true;
    }
  }

  /** One more process extends a segment's lines by that process's lines. */
  lemma SegmentStep(seg: string, procs: seq<(string, C.ProcResult)>, j: nat)
    requires j < |procs|
    ensures SegmentShort(seg, procs[..j + 1]) == SegmentShort(seg, procs[..j]) + ProcShort(procs[j].0, procs[j].1)
    ensures SegmentLong(seg, procs[..j + 1]) == SegmentLong(seg, procs[..j]) + ProcLong(procs[j].0, procs[j].1)
    ensures (exists k :: 0 <= k < j + 1 && C.Fails(procs[k].1)) <==>
      (exists k :: 0 <= k < j && C.Fails(procs[k].1)) || C.Fails(procs[j].1)
  {
    assert procs[..j + 1][..j] == procs[..j] && procs[..j + 1][j] == procs[j];
  }

  /** The lines of one segment: its two headers, then each process's lines in order. */
  method SegmentReport(seg: string, procs: seq<(string, C.ProcResult)>) returns (short: string, long: string, fails: bool)
    ensures short == SegmentShort(seg, procs)
    ensures long == SegmentLong(seg, procs)
    ensures fails <==> exists k :: 0 <= k < |procs| && C.Fails(procs[k].1)
  {
    short := "***** results for segment " + seg + " *****\n";
    long := "***** differences for segment " + seg + " *****\n";
    fails := false;
    var j := 0;
    while j < |procs|
      invariant 0 <= j <= |procs|
      invariant short == SegmentShort(seg, procs[..j])
      invariant long == SegmentLong(seg, procs[..j])
      invariant fails <==> exists k :: 0 <= k < j && C.Fails(procs[k].1)
    {
      SegmentStep(seg, procs, j);
      var s, l, f := ProcReport(procs[j].0, procs[j].1);
      short, long, fails := short + s, long + l, fails || f;
      j := j + 1;
    }
    assert procs[..j] == procs;
  }

  /** One more segment extends both reports by that segment's lines. */
  lemma ReportStep(results: C.Results, refCommit: string, i: nat)
    requires i < |results|
    ensures ShortReport(results[..i + 1]) == ShortReport(results[..i]) + SegmentShort(results[i].0, results[i].1)
    ensures LongReport(results[..i + 1], refCommit) == LongReport(results[..i], refCommit) + SegmentLong(results[i].0, results[i].1)
    ensures C.AnyFails(results[..i + 1]) <==>
      C.AnyFails(results[..i]) || exists k :: 0 <= k < |results[i].1| && C.Fails(results[i].1[k].1)
  {
    assert results[..i + 1][..i] == results[..i] && results[..i + 1][i] == results[i];
    C.AnyFailsSnoc(results[..i], results[i]);
    assert results[..i] + [results[i]] == results[..i + 1];
  }

  /**
    `format_diff`: the short and the long report, and whether the run
    failed, which it does exactly when some stored process raised or differed.
  */
  method FormatDiff(results: C.Results, refCommit: string) returns (diff1: string, diff2: string, failed: bool)
    ensures failed <==> C.AnyFails(results)
    ensures diff1 == ShortReport(results)
    ensures diff2 == LongReport(results, refCommit)
  {
    diff1, diff2 := "", "";
    diff2 := diff2 + "***** tested against commit " + refCommit + " *****\n";
    failed := false;
    var i := 0;
    while i < |results|
      invariant 0 <= i <= |results|
      invariant diff1 == ShortReport(results[..i])
      invariant diff2 == LongReport(results[..i], refCommit)
      invariant failed <==> C.AnyFails(results[..i])
    {
      ReportStep(results, refCommit, i);
      var s, l, f := SegmentReport(results[i].0, results[i].1);
      diff1, diff2, failed := diff1 + s, diff2 + l, failed || f;
      i := i + 1;
    }
    assert results[..i] == results;
  }

  /**
    Storing every worker's result and formatting them: the run fails exactly
    when some process raised or differed.
  */
  method StoreAndReport(outcomes: seq<Outcome>, refCommit: string) returns (diff1: string, diff2: string, failed: bool)
    requires DistinctPairs(outcomes)
    ensures failed <==> exists k :: 0 <= k < |outcomes| && FailingOutcome(outcomes[k])
    ensures diff1 == ShortReport(Stored(outcomes)) && diff2 == LongReport(Stored(outcomes), refCommit)
  {
    var results := StoreResults(outcomes);
    diff1, diff2, failed := FormatDiff(results, refCommit);
    StoredFails(outcomes);
  }
}
