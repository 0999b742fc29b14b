/**
 The single verdict over all shards (`workspace_test_aggregate.py`): which reports count, what is wrong with them, and
 the totals.
 */
module ShardVerdict {
  import opened ShardRun

  // ---------------------------------------------------------------------------------------------
  // Finding the reports
  // ---------------------------------------------------------------------------------------------

  /** A report file: not JSON, JSON without a shard number, or a report. */
  datatype File = Garbled | Unnumbered | Whole(report: Report)

  /** The reports by shard number, one each, in order. */
  predicate Ordered(found: seq<Report>) {
    forall i, j :: 0 <= i < j < |found| ==> found[i].shard < found[j].shard
  }

  function Put(found: seq<Report>, r: Report): seq<Report> {
    if found == [] || r.shard < found[0].shard then [r] + found
    else if r.shard == found[0].shard then [r] + found[1..]
    else [found[0]] + Put(found[1..], r)
  }

  lemma {:induction false} PutMember(found: seq<Report>, r: Report, x: Report)
    requires Ordered(found)
    ensures x in Put(found, r) <==> x == r || (x in found && x.shard != r.shard)
  {
    if found != [] {
      assert found == [found[0]] + found[1..];
      if r.shard > found[0].shard {
        PutMember(found[1..], r, x);
      }
    }
  }

  lemma {:induction false} PutOrdered(found: seq<Report>, r: Report)
    requires Ordered(found)
    ensures Ordered(Put(found, r))
  {
    if found != [] && r.shard > found[0].shard {
      PutOrdered(found[1..], r);
      var rest := Put(found[1..], r);
      forall x | x in rest ensures found[0].shard < x.shard {
        PutMember(found[1..], r, x);
      }
    }
  }

  function Found(files: seq<File>): (found: seq<Report>)
    ensures Ordered(found)
  {
    if files == [] then []
    else
      var before := Found(files[..|files| - 1]);
      match files[|files| - 1]
      case Whole(r) => PutOrdered(before, r); Put(before, r)
      case _ => before
  }

  /** `find_reports`: a later file takes the place of an earlier one for the same shard. */
  method FindReports(files: seq<File>, shardCount: nat) returns (found: seq<Report>, missing: seq<nat>)
    ensures found == Found(files)
    ensures missing == Missing(found, 1, shardCount)
  {
    found := [];
    var i := 0;
    while i < |files|
      invariant 0 <= i <= |files| && found == Found(files[..i])
    {
      assert files[..i + 1][..i] == files[..i];
      match files[i] {
        case Whole(r) => found := Put(found, r);
        case _ =>
      }
      i := i + 1;
    }
    assert files[..|files|] == files;
    missing := FindMissing(found, shardCount);
  }

  method FindMissing(found: seq<Report>, shardCount: nat) returns (missing: seq<nat>)
    ensures missing == Missing(found, 1, shardCount)
  {
    hide Reported;
    missing := [];
    var k := 1;
    while k <= shardCount
      invariant 1 <= k <= shardCount + 1
      invariant missing + Missing(found, k, shardCount) == Missing(found, 1, shardCount)
    {
      if !Reported(found, k) {
        missing := missing + [k];
      }
      k := k + 1;
    }
  }

  predicate Reported(found: seq<Report>, k: int) {
    exists r :: r in found && r.shard == k
  }

  function Missing(found: seq<Report>, k: nat, shardCount: nat): seq<nat>
    decreases shardCount + 1 - k
  {
    if k > shardCount then []
    else (if Reported(found, k) then [] else [k]) + Missing(found, k + 1, shardCount)
  }

  /** The last file that reports for its shard. */
  ghost predicate LastWord(files: seq<File>, r: Report) {
    exists i :: 0 <= i < |files| && files[i] == Whole(r)
                && forall j :: i < j < |files| && files[j].Whole? ==> files[j].report.shard != r.shard
  }

  lemma {:induction false} FoundIsLastWord(files: seq<File>, r: Report)
    ensures r in Found(files) <==> LastWord(files, r)
    decreases |files|
  {
    if files != [] {
      var before, last := files[..|files| - 1], files[|files| - 1];
      FoundIsLastWord(before, r);
      LastWordStep(files, r);
      if last.Whole? { PutMember(Found(before), last.report, r); }
      hide Put, LastWord;
    }
  }

  lemma LastWordStep(files: seq<File>, r: Report)
    requires files != []
    ensures LastWord(files, r) <==>
            (files[|files| - 1] == Whole(r)
             || (LastWord(files[..|files| - 1], r)
                 && (files[|files| - 1].Whole? ==> files[|files| - 1].report.shard != r.shard)))
  {
    var before, last := files[..|files| - 1], files[|files| - 1];
    if LastWord(before, r) && (last.Whole? ==> last.report.shard != r.shard) {
      var i :| 0 <= i < |before| && before[i] == Whole(r)
               && forall j :: i < j < |before| && before[j].Whole? ==> before[j].report.shard != r.shard;
      assert files[i] == Whole(r);
      forall j | i < j < |files| && files[j].Whole? ensures files[j].report.shard != r.shard {
        assert j < |before| ==> files[j] == before[j];
      }
    }
    if LastWord(files, r) && last != Whole(r) {
      var i :| 0 <= i < |files| && files[i] == Whole(r)
               && forall j :: i < j < |files| && files[j].Whole? ==> files[j].report.shard != r.shard;
      assert before[i] == Whole(r);
      forall j | i < j < |before| && before[j].Whole? ensures before[j].report.shard != r.shard {
        assert files[j] == before[j];
      }
    }
  }

  // ---------------------------------------------------------------------------------------------
  // Adding up
  // ---------------------------------------------------------------------------------------------

  datatype Failure =
    | HardError(shard: int, hard: Hard)
    | NewFailure(shard: int, test: Triple)
    | NoReport(missing: nat)
    | Stale(entry: Triple)
    | NeverRan(entry: Triple)

  datatype Totals = Totals(
    targets: nat, passed: nat, failed: nat, ignored: nat, skips: nat, empty: nat, releaseOnly: nat)

  const NOTHING := Totals(0, 0, 0, 0, 0, 0, 0)

  function Tally(t: Totals, r: Outcome): Totals {
    Totals(t.targets + 1, t.passed + r.passed, t.failed + r.failed, t.ignored + r.ignored, t.skips + r.skips,
           t.empty + if r.status == Empty then 1 else 0, t.releaseOnly + if r.status == ReleaseOnly then 1 else 0)
  }

  const WHOLE_TARGET := "*"

  function HardFailures(shard: int, hard: seq<Hard>): seq<Failure> {
    if hard == [] then [] else [HardError(shard, hard[0])] + HardFailures(shard, hard[1..])
  }

  function RedFailures(shard: int, red: seq<Triple>): seq<Failure> {
    if red == [] then [] else [NewFailure(shard, red[0])] + RedFailures(shard, red[1..])
  }

  function FailuresIn(found: seq<Report>): seq<Failure> {
    if found == [] then []
    else HardFailures(found[0].shard, found[0].hardErrors) + RedFailures(found[0].shard, found[0].newRed)
         + FailuresIn(found[1..])
  }

  function NoReports(missing: seq<nat>): seq<Failure> {
    if missing == [] then [] else [NoReport(missing[0])] + NoReports(missing[1..])
  }

  /** All results in all reports, in order. */
  function AllOutcomes(found: seq<Report>): seq<Outcome> {
    if found == [] then [] else found[0].targets + AllOutcomes(found[1..])
  }

  /** The table of what was seen: true for a test that failed, false under `*` for a target that passed. */
  function MarkFailed(seen: map<Triple, bool>, r: Outcome, tests: seq<string>): map<Triple, bool>
    decreases |tests|
  {
    if tests == [] then seen
    else MarkFailed(seen[Triple(r.package, r.target, tests[0]) := true], r, tests[1..])
  }

  function MarkOutcome(seen: map<Triple, bool>, r: Outcome): map<Triple, bool> {
    MarkFailed(if r.status == Pass then seen[Triple(r.package, r.target, WHOLE_TARGET) := false] else seen,
               r, r.failedTests)
  }

  function MarkAll(seen: map<Triple, bool>, results: seq<Outcome>): map<Triple, bool>
    decreases |results|
  {
    if results == [] then seen else MarkAll(MarkOutcome(seen, results[0]), results[1..])
  }

  predicate Ran(results: seq<Outcome>, p: Place) {
    exists r :: r in results && Place(r.package, r.target) == p
  }

  predicate SeenFailing(seen: map<Triple, bool>, e: Triple) {
    e in seen && seen[e]
  }

  /** What is wrong with one known-red entry. */
  function Account(e: Triple, seen: map<Triple, bool>, results: seq<Outcome>): seq<Failure> {
    if SeenFailing(seen, e) then []
    else if Ran(results, PlaceOfTest(e)) then [Stale(e)]
    else [NeverRan(e)]
  }

  function Accounts(known: seq<Triple>, seen: map<Triple, bool>, results: seq<Outcome>): seq<Failure> {
    if known == [] then []
    else Account(known[0], seen, results) + Accounts(known[1..], seen, results)
  }

  function AddTotals(t: Totals, results: seq<Outcome>): Totals
    decreases |results|
  {
    if results == [] then t
    else AddTotals(Tally(t, results[0]), results[1..])
  }

  /** Everything `aggregate` finds wrong. */
  function Failures(files: seq<File>, cfg: Config): seq<Failure> {
    var found := Found(files);
    var results := AllOutcomes(found);
    FailuresIn(found) + NoReports(Missing(found, 1, cfg.shardCount))
    + Accounts(cfg.knownRed, MarkAll(map[], results), results)
  }

  // ---------------------------------------------------------------------------------------------
  // The code
  // ---------------------------------------------------------------------------------------------

  /** The loop over the targets of one report. */
  method TallyReport(report: Report, seen: map<Triple, bool>, totals: Totals)
    returns (seen': map<Triple, bool>, totals': Totals)
    ensures seen' == MarkAll(seen, report.targets)
    ensures totals' == AddTotals(totals, report.targets)
  {
    hide MarkOutcome;
    seen', totals' := seen, totals;
    var i := 0;
    assert report.targets[0..] == report.targets;
    while i < |report.targets|
      invariant 0 <= i <= |report.targets|
      invariant MarkAll(seen', report.targets[i..]) == MarkAll(seen, report.targets)
      invariant AddTotals(totals', report.targets[i..]) == AddTotals(totals, report.targets)
    {
      assert report.targets[i..][1..] == report.targets[i + 1..];
      var t := report.targets[i];
      totals' := totals'.(targets := totals'.targets + 1, passed := totals'.passed + t.passed,
                          failed := totals'.failed + t.failed, ignored := totals'.ignored + t.ignored,
                          skips := totals'.skips + t.skips);
      if t.status == Empty {
        totals' := totals'.(empty := totals'.empty + 1);
      }
      if t.status == ReleaseOnly {
        totals' := totals'.(releaseOnly := totals'.releaseOnly + 1);
      }
      seen' := Mark(seen', t);
      i := i + 1;
    }
  }

  method Mark(seen: map<Triple, bool>, t: Outcome) returns (seen': map<Triple, bool>)
    ensures seen' == MarkOutcome(seen, t)
  {
    seen' := seen;
    if t.status == Pass {
      seen' := seen'[Triple(t.package, t.target, WHOLE_TARGET) := false];
    }
    ghost var start := seen';
    var i := 0;
    assert t.failedTests[0..] == t.failedTests;
    while i < |t.failedTests|
      invariant 0 <= i <= |t.failedTests|
      invariant MarkFailed(seen', t, t.failedTests[i..]) == MarkFailed(start, t, t.failedTests)
    {
      assert t.failedTests[i..][1..] == t.failedTests[i + 1..];
      seen' := seen'[Triple(t.package, t.target, t.failedTests[i]) := true];
      i := i + 1;
    }
  }

  /** The loop over the known-red entries. */
  method AccountForKnown(known: seq<Triple>, seen: map<Triple, bool>, results: seq<Outcome>)
    returns (failures: seq<Failure>)
    ensures failures == Accounts(known, seen, results)
  {
    hide Account;
    failures := [];
    var i := 0;
    assert known[0..] == known;
    while i < |known|
      invariant 0 <= i <= |known|
      invariant failures + Accounts(known[i..], seen, results) == Accounts(known, seen, results)
    {
      assert known[i..][1..] == known[i + 1..];
      failures := failures + Account(known[i], seen, results);
      i := i + 1;
    }
  }

  /** `aggregate`. */
  method Aggregate(files: seq<File>, cfg: Config) returns (failures: seq<Failure>, totals: Totals)
    ensures failures == Failures(files, cfg)
    ensures totals == AddTotals(NOTHING, AllOutcomes(Found(files)))
  {
    hide Missing, Found, HardFailures, RedFailures, MarkAll, AddTotals, Accounts;
    var found, missing := FindReports(files, cfg.shardCount);
    failures, totals := [], NOTHING;
    var seen, results := map[], [];
    var i := 0;
    assert found[0..] == found;
    NothingTallied(map[], totals);
    while i < |found|
      invariant 0 <= i <= |found|
      invariant failures + FailuresIn(found[i..]) == FailuresIn(found)
      invariant results + AllOutcomes(found[i..]) == AllOutcomes(found)
      invariant seen == MarkAll(map[], results) && totals == AddTotals(NOTHING, results)
    {
      assert found[i..][1..] == found[i + 1..];
      var r := found[i];
      failures := failures + (HardFailures(r.shard, r.hardErrors) + RedFailures(r.shard, r.newRed));
      TalliesJoin(map[], NOTHING, results, r.targets);
      seen, totals := TallyReport(r, seen, totals);
      results := results + r.targets;
      i := i + 1;
    }
    assert found[i..] == [] && failures + [] == failures && results + [] == results;
    failures := failures + NoReports(missing);
    var accounts := AccountForKnown(cfg.knownRed, seen, results);
    failures := failures + accounts;
  }

  lemma NothingTallied(seen: map<Triple, bool>, totals: Totals)
    ensures MarkAll(seen, []) == seen && AddTotals(totals, []) == totals
  {
  }

  lemma {:induction false} TalliesJoin(seen: map<Triple, bool>, totals: Totals, a: seq<Outcome>, b: seq<Outcome>)
    ensures MarkAll(seen, a + b) == MarkAll(MarkAll(seen, a), b)
    ensures AddTotals(totals, a + b) == AddTotals(AddTotals(totals, a), b)
    decreases |a|
  {
    hide MarkOutcome;
    if a == [] {
      assert a + b == b;
    } else {
      assert (a + b)[1..] == a[1..] + b;
      TalliesJoin(MarkOutcome(seen, a[0]), Tally(totals, a[0]), a[1..], b);
    }
  }
}
