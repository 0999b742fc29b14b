/**
 What a green aggregate says about the tests themselves, and when the number of shards makes no difference to it.
 */
module WorkspaceVerdict {
  import opened Prelude
  import opened ShardRun
  import opened ShardVerdict

  // ---------------------------------------------------------------------------------------------
  // The verdict over a set of reports
  // ---------------------------------------------------------------------------------------------

  /** The test is among the failing ones of some result. */
  ghost predicate Failing(results: seq<Outcome>, e: Triple) {
    exists r :: r in results && FailsIn(r, e)
  }

  predicate FailsIn(r: Outcome, e: Triple) {
    r.package == e.package && r.target == e.target && e.test in r.failedTests
  }

  lemma {:induction false} MarkFailedIs(seen: map<Triple, bool>, r: Outcome, tests: seq<string>, e: Triple)
    ensures SeenFailing(MarkFailed(seen, r, tests), e) <==>
            (SeenFailing(seen, e) || (r.package == e.package && r.target == e.target && e.test in tests))
    decreases |tests|
  {
    if tests != [] {
      MarkFailedIs(seen[Triple(r.package, r.target, tests[0]) := true], r, tests[1..], e);
      assert tests == [tests[0]] + tests[1..];
    }
  }

  /** A target of the test's name passed as a whole, which resets the mark of a test named `*`. */
  predicate Resets(r: Outcome, e: Triple) {
    e.test == WHOLE_TARGET && r.status == Pass && r.package == e.package && r.target == e.target
  }

  lemma MarkOutcomeIs(seen: map<Triple, bool>, r: Outcome, e: Triple)
    ensures SeenFailing(MarkOutcome(seen, r), e) <==> FailsIn(r, e) || (SeenFailing(seen, e) && !Resets(r, e))
  {
    hide MarkFailed;
    var start := if r.status == Pass then seen[Triple(r.package, r.target, WHOLE_TARGET) := false] else seen;
    MarkFailedIs(start, r, r.failedTests, e);
  }

  /** The test fails in some result, and no result after it resets the mark. For any test not named `*` that is to fail
      at all. */
  ghost predicate StandsFailing(results: seq<Outcome>, e: Triple) {
    exists i :: 0 <= i < |results| && FailsIn(results[i], e) && NoResetAfter(results, i, e)
  }

  ghost predicate NoResetAfter(results: seq<Outcome>, i: int, e: Triple) {
    forall j :: i < j < |results| && 0 <= j ==> !Resets(results[j], e)
  }

  lemma StandsFirst(results: seq<Outcome>, e: Triple)
    requires results != []
    ensures NoResetAfter(results, -1, e) <==> !Resets(results[0], e) && NoResetAfter(results[1..], -1, e)
    ensures StandsFailing(results, e) <==>
            StandsFailing(results[1..], e) || (FailsIn(results[0], e) && NoResetAfter(results[1..], -1, e))
  {
    hide FailsIn, Resets;
    var rest := results[1..];
    assert forall j :: 0 <= j < |rest| ==> rest[j] == results[j + 1];
    ShiftedResets(results, -1, e);
    if StandsFailing(rest, e) {
      var i :| 0 <= i < |rest| && FailsIn(rest[i], e) && NoResetAfter(rest, i, e);
      ShiftedResets(results, i, e);
      assert FailsIn(results[i + 1], e) && NoResetAfter(results, i + 1, e);
    }
    if FailsIn(results[0], e) && NoResetAfter(rest, -1, e) {
      assert NoResetAfter(results, 0, e);
    }
    if StandsFailing(results, e) && !(FailsIn(results[0], e) && NoResetAfter(rest, -1, e)) {
      var i :| 0 <= i < |results| && FailsIn(results[i], e) && NoResetAfter(results, i, e);
      ShiftedResets(results, i - 1, e);
      assert i > 0;
      assert FailsIn(rest[i - 1], e) && NoResetAfter(rest, i - 1, e);
    }
  }

  lemma ShiftedResets(results: seq<Outcome>, i: int, e: Triple)
    requires results != [] && i >= -1
    ensures NoResetAfter(results, i + 1, e) <==> NoResetAfter(results[1..], i, e)
  {
    hide Resets;
    var rest := results[1..];
    assert forall j :: 0 <= j < |rest| ==> rest[j] == results[j + 1];
    if NoResetAfter(rest, i, e) {
      forall j | i + 1 < j < |results| && 0 <= j ensures !Resets(results[j], e) {
        assert results[j] == rest[j - 1];
      }
    }
  }

  /** What the table says of a test in the end. */
  lemma {:induction false} MarkAllIs(seen: map<Triple, bool>, results: seq<Outcome>, e: Triple)
    ensures SeenFailing(MarkAll(seen, results), e) <==>
            StandsFailing(results, e) || (SeenFailing(seen, e) && NoResetAfter(results, -1, e))
    decreases |results|
  {
    hide MarkOutcome, SeenFailing, FailsIn, Resets;
    if results != [] {
      StandsFirst(results, e);
      MarkOutcomeIs(seen, results[0], e);
      hide StandsFailing, NoResetAfter;
      MarkAllIs(MarkOutcome(seen, results[0]), results[1..], e);
    }
  }

  /** A test that stands failing fails; and if its name is not `*`, one that fails stands. */
  lemma StandingIsFailing(results: seq<Outcome>, e: Triple)
    ensures StandsFailing(results, e) ==> Failing(results, e)
    ensures e.test != WHOLE_TARGET ==> (StandsFailing(results, e) <==> Failing(results, e))
  {
    hide FailsIn;
    if e.test != WHOLE_TARGET && Failing(results, e) {
      var r :| r in results && FailsIn(r, e);
      var i :| 0 <= i < |results| && results[i] == r;
      assert NoResetAfter(results, i, e);
    }
  }

  lemma {:induction false} AccountsEmpty(known: seq<Triple>, seen: map<Triple, bool>, results: seq<Outcome>)
    ensures Accounts(known, seen, results) == [] <==> forall e :: e in known ==> SeenFailing(seen, e)
  {
    hide SeenFailing, Ran;
    if known != [] {
      AccountsEmpty(known[1..], seen, results);
      assert known == [known[0]] + known[1..];
    }
  }

  lemma {:induction false} FailuresInEmpty(found: seq<Report>)
    ensures FailuresIn(found) == [] <==> forall r :: r in found ==> r.hardErrors == [] && r.newRed == []
  {
    if found != [] {
      var r, rest := found[0], found[1..];
      FailuresInEmpty(rest);
      ReportEmpty(r);
      hide HardFailures, RedFailures;
      assert found == [r] + rest;
      assert forall x :: x in found <==> x == r || x in rest;
    }
  }

  lemma ReportEmpty(r: Report)
    ensures HardFailures(r.shard, r.hardErrors) == [] <==> r.hardErrors == []
    ensures RedFailures(r.shard, r.newRed) == [] <==> r.newRed == []
  {
  }

  lemma {:induction false} MissingEmpty(found: seq<Report>, k: nat, shardCount: nat)
    ensures Missing(found, k, shardCount) == [] <==> forall j :: k <= j <= shardCount ==> Reported(found, j)
    decreases shardCount + 1 - k
  {
    hide Reported;
    if k <= shardCount {
      MissingEmpty(found, k + 1, shardCount);
    }
  }

  /** Every shard has a report, no report that counts carries a hard error or new red, and every known-red test is seen
      to fail. A report counts if it is the last one for its shard. */
  ghost predicate Green(files: seq<File>, cfg: Config) {
    && (forall k :: 1 <= k <= cfg.shardCount ==> Reported(Found(files), k))
    && (forall r :: r in Found(files) ==> r.hardErrors == [] && r.newRed == [])
    && (forall e :: e in cfg.knownRed ==> Failing(AllOutcomes(Found(files)), e))
  }

  /** Every known-red test named `*` fails in some result that no passing binary of its name comes after. */
  ghost predicate StarsStand(results: seq<Outcome>, known: seq<Triple>) {
    forall e :: e in known && e.test == WHOLE_TARGET ==> StandsFailing(results, e)
  }

  /** The aggregate has nothing to report exactly when it is green and the tests named `*` stand. */
  lemma GreenExact(files: seq<File>, cfg: Config)
    ensures Failures(files, cfg) == [] <==> Green(files, cfg) && StarsStand(AllOutcomes(Found(files)), cfg.knownRed)
  {
    hide Found, AllOutcomes, MarkAll, Accounts, Missing, FailuresIn, SeenFailing, Failing, Reported, StandsFailing;
    var found := Found(files);
    var results := AllOutcomes(found);
    var seen := MarkAll(map[], results);
    FailuresInEmpty(found);
    MissingEmpty(found, 1, cfg.shardCount);
    AccountsEmpty(cfg.knownRed, seen, results);
    forall e | e in cfg.knownRed
      ensures SeenFailing(seen, e) <==> StandsFailing(results, e)
      ensures StandsFailing(results, e) ==> Failing(results, e)
      ensures e.test != WHOLE_TARGET && Failing(results, e) ==> StandsFailing(results, e)
    {
      MarkAllIs(map[], results, e);
      EmptyTable(e);
      StandingIsFailing(results, e);
    }
    assert NoReports(Missing(found, 1, cfg.shardCount)) == [] <==> Missing(found, 1, cfg.shardCount) == [];
  }

  lemma EmptyTable(e: Triple)
    ensures !SeenFailing(map[], e)
  {
  }

  // ---------------------------------------------------------------------------------------------
  // The verdict over the runs of all shards
  // ---------------------------------------------------------------------------------------------

  /** The conditions the shards ran under: the targets the workspace builds, for each shard whether its build succeeds
      and whether it lives to upload its report, and what is observed of each target. */
  datatype World = World(targets: seq<Target>, builds: nat -> bool, alive: nat -> bool, observe: Target -> Observation)

  function Upload(cfg: Config, w: World, k: nat): Option<Report>
    requires cfg.shardCount > 0
  {
    if !w.alive(k) then None
    else Written(cfg, k, if w.builds(k) then Some(w.targets) else None, w.observe)
  }

  function Uploads(cfg: Config, w: World, n: nat): seq<File>
    requires cfg.shardCount > 0
  {
    if n == 0 then []
    else Uploads(cfg, w, n - 1) + match Upload(cfg, w, n) { case Some(r) => [Whole(r)] case None => [] }
  }

  /** The reports that reach the aggregate. */
  function Arrived(cfg: Config, w: World, n: nat): seq<Report>
    requires cfg.shardCount > 0
  {
    if n == 0 then []
    else Arrived(cfg, w, n - 1) + match Upload(cfg, w, n) { case Some(r) => [r] case None => [] }
  }

  lemma WrittenShard(cfg: Config, w: World, k: nat)
    requires cfg.shardCount > 0
    ensures Upload(cfg, w, k).Some? ==> Upload(cfg, w, k).value.shard == k
  {
  }

  lemma {:induction false} PutLast(found: seq<Report>, r: Report)
    requires forall x :: x in found ==> x.shard < r.shard
    ensures Put(found, r) == found + [r]
  {
    if found != [] { PutLast(found[1..], r); }
  }

  lemma {:induction false} UploadsArrive(cfg: Config, w: World, n: nat)
    requires cfg.shardCount > 0
    ensures Found(Uploads(cfg, w, n)) == Arrived(cfg, w, n)
    ensures forall r :: r in Arrived(cfg, w, n) ==> 1 <= r.shard <= n
  {
    hide Upload, Found;
    if n == 0 {
      NothingFound();
    } else {
      UploadsArrive(cfg, w, n - 1);
      WrittenShard(cfg, w, n);
      var before := Uploads(cfg, w, n - 1);
      match Upload(cfg, w, n)
      case None =>
        assert before + [] == before && Arrived(cfg, w, n - 1) + [] == Arrived(cfg, w, n - 1);
      case Some(r) =>
        FoundMore(before, r);
    }
  }

  lemma NothingFound()
    ensures Found([]) == []
  {
  }

  lemma FoundMore(files: seq<File>, r: Report)
    requires forall x :: x in Found(files) ==> x.shard < r.shard
    ensures Found(files + [Whole(r)]) == Found(files) + [r]
  {
    assert (files + [Whole(r)])[..|files|] == files;
    PutLast(Found(files), r);
  }

  lemma {:induction false} ArrivedAre(cfg: Config, w: World, n: nat, r: Report)
    requires cfg.shardCount > 0
    ensures r in Arrived(cfg, w, n) <==> exists k :: 1 <= k <= n && Upload(cfg, w, k) == Some(r)
  {
    hide Upload;
    if n > 0 {
      ArrivedAre(cfg, w, n - 1, r);
      WrittenShard(cfg, w, n);
    }
  }

  /** The files that count are the shards' own reports, in whatever order and with whatever else among them. */
  ghost predicate Delivers(files: seq<File>, cfg: Config, w: World)
    requires cfg.shardCount > 0
  {
    forall r :: LastWord(files, r) <==> Uploaded(cfg, w, cfg.shardCount, r)
  }

  ghost predicate Uploaded(cfg: Config, w: World, n: nat, r: Report)
    requires cfg.shardCount > 0
  {
    exists k :: 1 <= k <= n && Upload(cfg, w, k) == Some(r)
  }

  lemma {:induction false} OrderedUnique(a: seq<Report>, b: seq<Report>)
    requires Ordered(a) && Ordered(b) && forall r :: r in a <==> r in b
    ensures a == b
    decreases |a|
  {
    if a == [] {
      assert forall i :: 0 <= i < |b| ==> b[i] in b;
    } else {
      assert a[0] in b && b[0] in a;
      var i :| 0 <= i < |b| && b[i] == a[0];
      var j :| 0 <= j < |a| && a[j] == b[0];
      assert a[0] == b[0];
      assert a == [a[0]] + a[1..] && b == [b[0]] + b[1..];
      forall r ensures r in a[1..] <==> r in b[1..] {
        RestOf(a, r);
        RestOf(b, r);
      }
      OrderedUnique(a[1..], b[1..]);
    }
  }

  lemma RestOf(a: seq<Report>, r: Report)
    requires Ordered(a) && a != []
    ensures r in a[1..] <==> r in a && r != a[0]
  {
    assert a == [a[0]] + a[1..];
    forall i | 0 < i < |a| ensures a[i] != a[0] {
      assert a[0].shard < a[i].shard;
    }
  }

  lemma DeliveredArrive(files: seq<File>, cfg: Config, w: World)
    requires cfg.shardCount > 0 && Delivers(files, cfg, w)
    ensures Found(files) == Arrived(cfg, w, cfg.shardCount)
  {
    hide Found, Uploads, Upload, Arrived, LastWord;
    UploadsArrive(cfg, w, cfg.shardCount);
    forall r ensures r in Found(files) <==> r in Arrived(cfg, w, cfg.shardCount) {
      FoundIsLastWord(files, r);
      ArrivedAre(cfg, w, cfg.shardCount, r);
    }
    OrderedUnique(Found(files), Arrived(cfg, w, cfg.shardCount));
  }

  /** One file for each report, in the order of the shards, is one such list of files. */
  lemma UploadsDeliver(cfg: Config, w: World)
    requires cfg.shardCount > 0
    ensures Delivers(Uploads(cfg, w, cfg.shardCount), cfg, w)
  {
    hide Found, Upload, Arrived, LastWord;
    UploadsArrive(cfg, w, cfg.shardCount);
    forall r ensures LastWord(Uploads(cfg, w, cfg.shardCount), r) <==> Uploaded(cfg, w, cfg.shardCount, r) {
      FoundIsLastWord(Uploads(cfg, w, cfg.shardCount), r);
      ArrivedAre(cfg, w, cfg.shardCount, r);
    }
  }

  /** The report of a shard that built, on a configuration without problems. */
  function Expected(cfg: Config, w: World, k: nat): Report
    requires cfg.shardCount > 0
  {
    ReportOf(k, Outcomes(Slice(Runnable(cfg, w.targets), k, cfg.shardCount, 0), w.observe), cfg.knownRed)
  }

  /** Everything around the tests went well. */
  ghost predicate Sound(cfg: Config, w: World) {
    Problems(cfg, w.targets) == {} && forall k :: 1 <= k <= cfg.shardCount ==> w.alive(k) && w.builds(k)
  }

  lemma UploadIs(cfg: Config, w: World, k: nat)
    requires cfg.shardCount > 0
    ensures Upload(cfg, w, k).Some? && Upload(cfg, w, k).value.hardErrors == [] ==>
              w.alive(k) && w.builds(k) && Problems(cfg, w.targets) == {}
    ensures w.alive(k) && w.builds(k) && Problems(cfg, w.targets) == {} ==>
              Upload(cfg, w, k) == Some(Expected(cfg, w, k))
  {
    hide Problems, Runnable, Slice, Outcomes;
  }

  lemma {:induction false} AllOutcomesAre(found: seq<Report>, x: Outcome)
    ensures x in AllOutcomes(found) <==> exists r :: r in found && x in r.targets
  {
    if found != [] {
      AllOutcomesAre(found[1..], x);
      assert found == [found[0]] + found[1..];
    }
  }

  /** A result of one of the runnable targets. */
  ghost predicate Observed(cfg: Config, w: World, x: Outcome) {
    exists t :: t in Runnable(cfg, w.targets) && x == OutcomeOf(t, w.observe(t))
  }

  /** The results in the reports are those of the runnable targets, neither more nor fewer. */
  lemma ResultsOfAll(cfg: Config, w: World, x: Outcome)
    requires cfg.shardCount > 0 && Sound(cfg, w)
    ensures x in AllOutcomes(Arrived(cfg, w, cfg.shardCount)) <==> Observed(cfg, w, x)
  {
    hide Problems, Runnable, Slice, OutcomeOf, Upload, Outcomes;
    var all := Arrived(cfg, w, cfg.shardCount);
    AllOutcomesAre(all, x);
    if x in AllOutcomes(all) {
      var r :| r in all && x in r.targets;
      ArrivedAre(cfg, w, cfg.shardCount, r);
      var k :| 1 <= k <= cfg.shardCount && Upload(cfg, w, k) == Some(r);
      UploadIs(cfg, w, k);
      FromHand(cfg, w, k, x);
    }
    if Observed(cfg, w, x) {
      var t :| t in Runnable(cfg, w.targets) && x == OutcomeOf(t, w.observe(t));
      SomeShardRuns(Runnable(cfg, w.targets), cfg.shardCount, t);
      var k :| 1 <= k <= cfg.shardCount && InHand(Runnable(cfg, w.targets), k, cfg.shardCount, t);
      UploadIs(cfg, w, k);
      IntoHand(cfg, w, k, t);
      ArrivedAre(cfg, w, cfg.shardCount, Expected(cfg, w, k));
    }
  }

  lemma FromHand(cfg: Config, w: World, k: nat, x: Outcome)
    requires 1 <= k <= cfg.shardCount
    ensures x in Expected(cfg, w, k).targets ==> Observed(cfg, w, x)
  {
    hide Runnable, OutcomeOf, Outcomes, Slice;
    var runnable := Runnable(cfg, w.targets);
    var hand := Slice(runnable, k, cfg.shardCount, 0);
    OutcomesAre(hand, w.observe, x);
    if x in Outcomes(hand, w.observe) {
      var t :| t in hand && x == OutcomeOf(t, w.observe(t));
      assert InHand(runnable, k, cfg.shardCount, t);
      SomeShardRuns(runnable, cfg.shardCount, t);
    }
  }

  lemma IntoHand(cfg: Config, w: World, k: nat, t: Target)
    requires cfg.shardCount > 0 && InHand(Runnable(cfg, w.targets), k, cfg.shardCount, t)
    ensures OutcomeOf(t, w.observe(t)) in Expected(cfg, w, k).targets
  {
    hide Runnable, OutcomeOf, Outcomes, Slice;
    OutcomesAre(Slice(Runnable(cfg, w.targets), k, cfg.shardCount, 0), w.observe, OutcomeOf(t, w.observe(t)));
  }

  ghost predicate FailsSomewhere(cfg: Config, w: World, e: Triple) {
    exists x :: Observed(cfg, w, x) && FailsIn(x, e)
  }

  /** The tests that failed, over all runnable targets. */
  ghost function FailingTests(cfg: Config, w: World): iset<Triple> {
    iset e: Triple | FailsSomewhere(cfg, w, e)
  }

  /** No target is broken or fails without naming a test, and the failing tests are the known-red ones. */
  ghost predicate AllowListExact(cfg: Config, w: World) {
    && (forall x :: Observed(cfg, w, x) ==> !IsHard(x) && (x.status == Fail ==> x.failedTests != []))
    && FailingTests(cfg, w) == iset e | e in cfg.knownRed
  }

  lemma AllowListSettled(cfg: Config, w: World)
    ensures AllowListExact(cfg, w) <==>
            ((forall x :: Observed(cfg, w, x) ==> Settled(x, cfg.knownRed))
             && (forall e :: e in cfg.knownRed ==> e in FailingTests(cfg, w)))
  {
    hide Observed, IsHard;
    if forall x :: Observed(cfg, w, x) ==> Settled(x, cfg.knownRed) {
      forall e | e in FailingTests(cfg, w) ensures e in cfg.knownRed {
        var x :| Observed(cfg, w, x) && FailsIn(x, e);
        assert e == Triple(x.package, x.target, e.test);
      }
    }
    if AllowListExact(cfg, w) {
      forall x | Observed(cfg, w, x) ensures Settled(x, cfg.knownRed) {
        forall n | n in x.failedTests ensures Triple(x.package, x.target, n) in cfg.knownRed {
          assert FailsIn(x, Triple(x.package, x.target, n));
          assert Triple(x.package, x.target, n) in FailingTests(cfg, w);
        }
      }
    }
  }

  lemma SoundReports(cfg: Config, w: World)
    requires cfg.shardCount > 0 && Sound(cfg, w)
    ensures forall k :: 1 <= k <= cfg.shardCount ==> Reported(Arrived(cfg, w, cfg.shardCount), k)
    ensures (forall r :: r in Arrived(cfg, w, cfg.shardCount) ==> r.hardErrors == [] && r.newRed == []) <==>
            (forall x :: Observed(cfg, w, x) ==> Settled(x, cfg.knownRed))
  {
    hide Problems, Runnable, Slice, OutcomeOf, Upload, Outcomes, Settled, HardErrors, NewRed, Observed, Arrived;
    var all := Arrived(cfg, w, cfg.shardCount);
    forall k | 1 <= k <= cfg.shardCount ensures Expected(cfg, w, k) in all && Reported(all, k) {
      UploadIs(cfg, w, k);
      ArrivedAre(cfg, w, cfg.shardCount, Expected(cfg, w, k));
    }
    forall r | r in all
      ensures r.hardErrors == [] && r.newRed == [] <==> forall x :: x in r.targets ==> Settled(x, cfg.knownRed)
    {
      ArrivedAre(cfg, w, cfg.shardCount, r);
      var k :| 1 <= k <= cfg.shardCount && Upload(cfg, w, k) == Some(r);
      UploadIs(cfg, w, k);
      ReportClean(r.targets, cfg.knownRed);
    }
    forall x ensures Observed(cfg, w, x) <==> exists r :: r in all && x in r.targets {
      ResultsOfAll(cfg, w, x);
      AllOutcomesAre(all, x);
    }
  }

  lemma UnsoundFails(cfg: Config, w: World)
    requires cfg.shardCount > 0
    requires forall k :: 1 <= k <= cfg.shardCount ==> Reported(Arrived(cfg, w, cfg.shardCount), k)
    requires forall r :: r in Arrived(cfg, w, cfg.shardCount) ==> r.hardErrors == []
    ensures Sound(cfg, w)
  {
    hide Problems, Upload, Arrived;
    var all := Arrived(cfg, w, cfg.shardCount);
    forall k | 1 <= k <= cfg.shardCount ensures w.alive(k) && w.builds(k) && Problems(cfg, w.targets) == {} {
      assert Reported(all, k);
      var r :| r in all && r.shard == k;
      ArrivedAre(cfg, w, cfg.shardCount, r);
      var j :| 1 <= j <= cfg.shardCount && Upload(cfg, w, j) == Some(r);
      WrittenShard(cfg, w, j);
      UploadIs(cfg, w, k);
    }
    assert w.alive(1) && Problems(cfg, w.targets) == {};
  }

  lemma KnownSeen(cfg: Config, w: World, e: Triple)
    requires cfg.shardCount > 0 && Sound(cfg, w)
    ensures Failing(AllOutcomes(Arrived(cfg, w, cfg.shardCount)), e) <==> e in FailingTests(cfg, w)
  {
    hide Observed, AllOutcomes, Arrived, FailsIn, Sound;
    forall x ensures x in AllOutcomes(Arrived(cfg, w, cfg.shardCount)) <==> Observed(cfg, w, x) {
      ResultsOfAll(cfg, w, x);
    }
  }

  /** The aggregate over the shards' own reports has nothing to report exactly when every shard built and delivered its
      report, the configuration names only targets that exist, no target is broken, the set of failing tests is the set
      of known-red tests, and those of them that are named `*` stand. The number of shards appears in the condition that
      all of them delivered, and in the order of the results, on which it depends whether a test named `*` stands. */
  lemma VerdictByOutcomes(files: seq<File>, cfg: Config, w: World)
    requires cfg.shardCount > 0 && Delivers(files, cfg, w)
    ensures Failures(files, cfg) == [] <==>
            Sound(cfg, w) && AllowListExact(cfg, w)
            && StarsStand(AllOutcomes(Arrived(cfg, w, cfg.shardCount)), cfg.knownRed)
  {
    hide Failures, Found, Arrived, AllOutcomes, Failing, Reported, AllowListExact, FailingTests, Settled, Sound, Delivers,
         StarsStand;
    GreenExact(files, cfg);
    DeliveredArrive(files, cfg, w);
    AllowListSettled(cfg, w);
    if Green(files, cfg) {
      UnsoundFails(cfg, w);
    }
    if Sound(cfg, w) {
      SoundReports(cfg, w);
      forall e | e in cfg.knownRed
        ensures Failing(AllOutcomes(Arrived(cfg, w, cfg.shardCount)), e) <==> e in FailingTests(cfg, w)
      {
        KnownSeen(cfg, w, e);
      }
    }
  }

  // ---------------------------------------------------------------------------------------------
  // The verdict by what was observed
  // ---------------------------------------------------------------------------------------------

  /** A target that some shard is to run. */
  ghost predicate Runs(cfg: Config, w: World, t: Target) {
    && t in w.targets && !t.gated
    && Place(t.package, t.name) !in cfg.crossBuildExcluded + cfg.nightlyOnlyExcluded + cfg.costExcluded
  }

  /** The test is among those that the run named as failing. */
  predicate FailsAt(t: Target, o: Observation, e: Triple) {
    o.listed > 0 && t.package == e.package && t.name == e.target && e.test in o.failedTests
  }

  /** The target as a whole passed. */
  predicate PassesAt(t: Target, o: Observation, e: Triple) {
    t.package == e.package && t.name == e.target && RanTests(o) && o.failed == 0 && o.exitCode == 0
  }

  /** The test fails in a run after which no target of its name passes as a whole. */
  ghost predicate StandsIn(order: seq<Target>, observe: Target -> Observation, e: Triple) {
    exists i :: 0 <= i < |order| && FailsAt(order[i], observe(order[i]), e) && NoPassAfter(order, observe, i, e)
  }

  ghost predicate NoPassAfter(order: seq<Target>, observe: Target -> Observation, i: int, e: Triple) {
    forall j :: i < j < |order| && 0 <= j ==> !PassesAt(order[j], observe(order[j]), e)
  }

  /** A shard that reports results: it lives, its build succeeds and the configuration has no problems. */
  ghost predicate Healthy(cfg: Config, w: World, k: nat) {
    w.alive(k) && w.builds(k) && AllNamed(cfg, w.targets)
  }

  /** The targets whose results the first `n` shards report, in the order of the reports. */
  ghost function RunOrder(cfg: Config, w: World, n: nat): seq<Target>
    requires cfg.shardCount > 0
  {
    if n == 0 then []
    else RunOrder(cfg, w, n - 1)
         + if Healthy(cfg, w, n) then Slice(Runnable(cfg, w.targets), n, cfg.shardCount, 0) else []
  }

  lemma RunsMeans(cfg: Config, w: World, t: Target)
    ensures t in Runnable(cfg, w.targets) <==> Runs(cfg, w, t)
  {
    RunnableIs(cfg, w.targets, t);
  }

  lemma {:induction false} OutcomesConcat(a: seq<Target>, b: seq<Target>, observe: Target -> Observation)
    ensures Outcomes(a + b, observe) == Outcomes(a, observe) + Outcomes(b, observe)
  {
    hide OutcomeOf;
    if a == [] {
      assert a + b == b;
    } else {
      assert (a + b)[1..] == a[1..] + b;
      OutcomesConcat(a[1..], b, observe);
    }
  }

  lemma UploadResults(cfg: Config, w: World, k: nat)
    requires cfg.shardCount > 0
    ensures Healthy(cfg, w, k) ==> Upload(cfg, w, k) == Some(Expected(cfg, w, k))
    ensures Upload(cfg, w, k).Some? && !Healthy(cfg, w, k) ==>
              w.alive(k) && !w.builds(k) && Upload(cfg, w, k) == Some(BuildFailed(k))
    ensures Upload(cfg, w, k).None? <==> !w.alive(k) || (w.builds(k) && !AllNamed(cfg, w.targets))
  {
    NoProblemsMeans(cfg, w.targets);
    hide Problems, AllNamed, Runnable, Slice, Outcomes;
  }

  lemma {:induction false} OutcomesInOrder(cfg: Config, w: World, n: nat)
    requires cfg.shardCount > 0
    ensures AllOutcomes(Arrived(cfg, w, n)) == Outcomes(RunOrder(cfg, w, n), w.observe)
  {
    hide Upload, Healthy, Runnable, Slice, OutcomeOf;
    if n > 0 {
      OutcomesInOrder(cfg, w, n - 1);
      UploadResults(cfg, w, n);
      var before, more := Arrived(cfg, w, n - 1), RunOrder(cfg, w, n - 1);
      match Upload(cfg, w, n)
      case None =>
        assert before + [] == before && more + [] == more;
      case Some(r) =>
        AllOutcomesLast(before, r);
        if Healthy(cfg, w, n) {
          OutcomesConcat(more, Slice(Runnable(cfg, w.targets), n, cfg.shardCount, 0), w.observe);
        } else {
          assert more + [] == more && AllOutcomes(before) + [] == AllOutcomes(before);
        }
    }
  }

  lemma OutcomesAt(order: seq<Target>, observe: Target -> Observation, i: nat)
    requires i < |order|
    ensures |Outcomes(order, observe)| == |order| && Outcomes(order, observe)[i] == OutcomeOf(order[i], observe(order[i]))
    decreases |order|
  {
    hide OutcomeOf;
    if i > 0 { OutcomesAt(order[1..], observe, i - 1); } else { OutcomesLength(order, observe); }
  }

  lemma {:induction false} OutcomesLength(order: seq<Target>, observe: Target -> Observation)
    ensures |Outcomes(order, observe)| == |order|
  {
    if order != [] { OutcomesLength(order[1..], observe); }
  }

  lemma FailsMeans(t: Target, o: Observation, e: Triple)
    ensures FailsIn(OutcomeOf(t, o), e) <==> FailsAt(t, o, e)
    ensures e.test == "*" ==> (Resets(OutcomeOf(t, o), e) <==> PassesAt(t, o, e))
    ensures e.test != "*" ==> !Resets(OutcomeOf(t, o), e)
  {
  }

  lemma StandsMeans(order: seq<Target>, observe: Target -> Observation, e: Triple)
    requires e.test == "*"
    ensures StandsFailing(Outcomes(order, observe), e) <==> StandsIn(order, observe, e)
  {
    var results := Outcomes(order, observe);
    OutcomesLength(order, observe);
    forall i | 0 <= i < |order|
      ensures FailsIn(results[i], e) <==> FailsAt(order[i], observe(order[i]), e)
      ensures Resets(results[i], e) <==> PassesAt(order[i], observe(order[i]), e)
    {
      OutcomesAt(order, observe, i);
      FailsMeans(order[i], observe(order[i]), e);
    }
    hide FailsIn, FailsAt, Resets, PassesAt, Outcomes;
    forall i | 0 <= i < |order| ensures NoResetAfter(results, i, e) <==> NoPassAfter(order, observe, i, e) {
    }
    hide NoResetAfter, NoPassAfter;
    if StandsFailing(results, e) {
      var i :| 0 <= i < |results| && FailsIn(results[i], e) && NoResetAfter(results, i, e);
      assert FailsAt(order[i], observe(order[i]), e) && NoPassAfter(order, observe, i, e);
    }
    if StandsIn(order, observe, e) {
      var i :| 0 <= i < |order| && FailsAt(order[i], observe(order[i]), e) && NoPassAfter(order, observe, i, e);
      assert FailsIn(results[i], e) && NoResetAfter(results, i, e);
    }
  }

  /** Every known-red test fails in some run that counts. */
  ghost predicate FailsSomewhereIn(cfg: Config, w: World, e: Triple) {
    exists t :: Runs(cfg, w, t) && FailsAt(t, w.observe(t), e)
  }

  lemma FailingMeans(cfg: Config, w: World, e: Triple)
    ensures e in FailingTests(cfg, w) <==> FailsSomewhereIn(cfg, w, e)
  {
    hide OutcomeOf, FailsIn, FailsAt, Runs;
    if FailsSomewhere(cfg, w, e) {
      var x :| Observed(cfg, w, x) && FailsIn(x, e);
      var t :| t in Runnable(cfg, w.targets) && x == OutcomeOf(t, w.observe(t));
      RunsMeans(cfg, w, t);
      FailsMeans(t, w.observe(t), e);
    }
    if FailsSomewhereIn(cfg, w, e) {
      var t :| Runs(cfg, w, t) && FailsAt(t, w.observe(t), e);
      RunsMeans(cfg, w, t);
      FailsMeans(t, w.observe(t), e);
      assert Observed(cfg, w, OutcomeOf(t, w.observe(t)));
    }
  }

  /** Every run that counts needs no attention beyond the list. */
  ghost predicate AllFine(cfg: Config, w: World) {
    forall t :: Runs(cfg, w, t) ==> RunFine(t, w.observe(t), cfg.knownRed)
  }

  lemma AllFineMeans(cfg: Config, w: World)
    ensures AllFine(cfg, w) <==> forall x :: Observed(cfg, w, x) ==> Settled(x, cfg.knownRed)
  {
    hide OutcomeOf, Settled, RunFine, Runs;
    if AllFine(cfg, w) {
      forall x | Observed(cfg, w, x) ensures Settled(x, cfg.knownRed) {
        var t :| t in Runnable(cfg, w.targets) && x == OutcomeOf(t, w.observe(t));
        RunsMeans(cfg, w, t);
        SettledExact(t, w.observe(t), cfg.knownRed);
      }
    }
    if forall x :: Observed(cfg, w, x) ==> Settled(x, cfg.knownRed) {
      forall t | Runs(cfg, w, t) ensures RunFine(t, w.observe(t), cfg.knownRed) {
        RunsMeans(cfg, w, t);
        SettledExact(t, w.observe(t), cfg.knownRed);
        assert Observed(cfg, w, OutcomeOf(t, w.observe(t)));
      }
    }
  }

  /** The aggregate over the shards' own reports has nothing to report exactly when every shard lives and builds, the
      configuration names only integration tests that were built, every run needs no attention beyond the known-red list,
      every known-red test fails in some run, and those of them that are named `*` in one after which, in the order of
      the reports, no target of that name passes. All of it is said of targets and of what was observed of them. */
  lemma VerdictExact(files: seq<File>, cfg: Config, w: World)
    requires cfg.shardCount > 0 && Delivers(files, cfg, w)
    ensures Failures(files, cfg) == [] <==>
            && (forall k :: 1 <= k <= cfg.shardCount ==> w.alive(k) && w.builds(k))
            && AllNamed(cfg, w.targets)
            && AllFine(cfg, w)
            && (forall e :: e in cfg.knownRed ==> FailsSomewhereIn(cfg, w, e))
            && (forall e :: e in cfg.knownRed && e.test == "*" ==>
                  StandsIn(RunOrder(cfg, w, cfg.shardCount), w.observe, e))
  {
    hide Failures, Delivers, AllNamed, AllFine, FailsSomewhereIn, StandsIn, RunOrder, Problems, FailingTests, StandsFailing,
         AllOutcomes, Arrived, Outcomes, AllowListExact, Settled, Observed;
    VerdictByOutcomes(files, cfg, w);
    NoProblemsMeans(cfg, w.targets);
    AllFineMeans(cfg, w);
    AllowListSettled(cfg, w);
    OutcomesInOrder(cfg, w, cfg.shardCount);
    forall e ensures e in FailingTests(cfg, w) <==> FailsSomewhereIn(cfg, w, e) { FailingMeans(cfg, w, e); }
    forall e: Triple | e.test == "*"
      ensures StandsFailing(AllOutcomes(Arrived(cfg, w, cfg.shardCount)), e) <==>
              StandsIn(RunOrder(cfg, w, cfg.shardCount), w.observe, e)
    {
      StandsMeans(RunOrder(cfg, w, cfg.shardCount), w.observe, e);
    }
  }

  // ---------------------------------------------------------------------------------------------
  // What is reported
  // ---------------------------------------------------------------------------------------------

  /** Why each thing that the aggregate can report is reported. */
  ghost predicate Justified(f: Failure, cfg: Config, w: World)
    requires cfg.shardCount > 0
  {
    var order := RunOrder(cfg, w, cfg.shardCount);
    match f
    case HardError(k, h) =>
      1 <= k <= cfg.shardCount && w.alive(k) &&
      (if w.builds(k) then AllNamed(cfg, w.targets) && HardInHand(cfg, w, k, h)
       else h == Hard("<workspace>", "<build>", Error))
    case NewFailure(k, e) => 1 <= k <= cfg.shardCount && Healthy(cfg, w, k) && RedInHand(cfg, w, k, e)
    case NoReport(k) => 1 <= k <= cfg.shardCount && (!w.alive(k) || (w.builds(k) && !AllNamed(cfg, w.targets)))
    case Stale(e) => e in cfg.knownRed && !SeenIn(order, w.observe, e) && RanIn(order, e)
    case NeverRan(e) => e in cfg.knownRed && !RanIn(order, e)
  }

  ghost predicate HardInHand(cfg: Config, w: World, k: nat, h: Hard)
    requires cfg.shardCount > 0
  {
    exists t :: t in Slice(Runnable(cfg, w.targets), k, cfg.shardCount, 0) && HardAt(t, w.observe(t), h.status)
                && h.package == t.package && h.target == t.name
  }

  ghost predicate RedInHand(cfg: Config, w: World, k: nat, e: Triple)
    requires cfg.shardCount > 0
  {
    exists t :: t in Slice(Runnable(cfg, w.targets), k, cfg.shardCount, 0) && RedAt(t, w.observe(t), e, cfg.knownRed)
  }

  /** The test fails in a reported run and, if it is named `*`, stands. */
  ghost predicate SeenIn(order: seq<Target>, observe: Target -> Observation, e: Triple) {
    if e.test == "*" then StandsIn(order, observe, e)
    else exists i :: 0 <= i < |order| && FailsAt(order[i], observe(order[i]), e)
  }

  ghost predicate RanIn(order: seq<Target>, e: Triple) {
    exists i :: 0 <= i < |order| && order[i].package == e.package && order[i].name == e.target
  }

  lemma {:induction false} HardFailuresAre(shard: int, hard: seq<Hard>, f: Failure)
    ensures f in HardFailures(shard, hard) <==> f.HardError? && f.shard == shard && f.hard in hard
  {
    if hard != [] {
      HardFailuresAre(shard, hard[1..], f);
      assert hard == [hard[0]] + hard[1..];
    }
  }

  lemma {:induction false} RedFailuresAre(shard: int, red: seq<Triple>, f: Failure)
    ensures f in RedFailures(shard, red) <==> f.NewFailure? && f.shard == shard && f.test in red
  {
    if red != [] {
      RedFailuresAre(shard, red[1..], f);
      assert red == [red[0]] + red[1..];
    }
  }

  ghost predicate Says(r: Report, f: Failure) {
    || (f.HardError? && f.shard == r.shard && f.hard in r.hardErrors)
    || (f.NewFailure? && f.shard == r.shard && f.test in r.newRed)
  }

  lemma {:induction false} FailuresInAre(found: seq<Report>, f: Failure)
    ensures f in FailuresIn(found) <==> exists r :: r in found && Says(r, f)
  {
    if found != [] {
      var r := found[0];
      FailuresInAre(found[1..], f);
      HardFailuresAre(r.shard, r.hardErrors, f);
      RedFailuresAre(r.shard, r.newRed, f);
      hide HardFailures, RedFailures;
      assert f in FailuresIn(found) <==> Says(r, f) || f in FailuresIn(found[1..]);
      hide Says, FailuresIn;
      assert found == [r] + found[1..];
      if Says(r, f) { assert r in found; }
    }
  }

  lemma {:induction false} NoReportsAre(missing: seq<nat>, f: Failure)
    ensures f in NoReports(missing) <==> f.NoReport? && f.missing in missing
  {
    if missing != [] {
      NoReportsAre(missing[1..], f);
      assert missing == [missing[0]] + missing[1..];
    }
  }

  lemma {:induction false} MissingAre(found: seq<Report>, k: nat, shardCount: nat, m: nat)
    ensures m in Missing(found, k, shardCount) <==> k <= m <= shardCount && !Reported(found, m)
    decreases shardCount + 1 - k
  {
    hide Reported;
    if k <= shardCount { MissingAre(found, k + 1, shardCount, m); }
  }

  lemma {:induction false} AccountsAre(known: seq<Triple>, seen: map<Triple, bool>, results: seq<Outcome>, f: Failure)
    ensures f in Accounts(known, seen, results) <==>
            exists e :: e in known && !SeenFailing(seen, e)
                        && f == if Ran(results, PlaceOfTest(e)) then Stale(e) else NeverRan(e)
  {
    hide Ran, SeenFailing;
    if known != [] {
      AccountsAre(known[1..], seen, results, f);
      assert known == [known[0]] + known[1..];
    }
  }

  lemma RanMeans(order: seq<Target>, observe: Target -> Observation, e: Triple)
    ensures Ran(Outcomes(order, observe), PlaceOfTest(e)) <==> RanIn(order, e)
  {
    var results := Outcomes(order, observe);
    OutcomesLength(order, observe);
    forall i | 0 <= i < |order| ensures results[i].package == order[i].package && results[i].target == order[i].name {
      OutcomesAt(order, observe, i);
      IsHardAre(order[i], observe(order[i]));
      hide OutcomeOf;
    }
    hide Outcomes;
    if Ran(results, PlaceOfTest(e)) {
      var r :| r in results && Place(r.package, r.target) == PlaceOfTest(e);
      var i :| 0 <= i < |results| && results[i] == r;
    }
    if RanIn(order, e) {
      var i :| 0 <= i < |order| && order[i].package == e.package && order[i].name == e.target;
      assert results[i] in results;
    }
  }

  lemma SeenMeans(order: seq<Target>, observe: Target -> Observation, e: Triple)
    ensures SeenFailing(MarkAll(map[], Outcomes(order, observe)), e) <==> SeenIn(order, observe, e)
  {
    var results := Outcomes(order, observe);
    EmptyTable(e);
    MarkAllIs(map[], results, e);
    StandingIsFailing(results, e);
    if e.test == "*" {
      StandsMeans(order, observe, e);
    } else {
      FailingIn(order, observe, e);
    }
    hide Outcomes, MarkAll, SeenFailing, StandsFailing, StandsIn, FailsAt, Failing;
  }

  lemma FailingIn(order: seq<Target>, observe: Target -> Observation, e: Triple)
    ensures Failing(Outcomes(order, observe), e) <==> exists i :: 0 <= i < |order| && FailsAt(order[i], observe(order[i]), e)
  {
    hide FailsIn, FailsAt, Outcomes, OutcomeOf;
    var results := Outcomes(order, observe);
    OutcomesLength(order, observe);
    forall i | 0 <= i < |order| ensures FailsIn(results[i], e) <==> FailsAt(order[i], observe(order[i]), e) {
      OutcomesAt(order, observe, i);
      FailsMeans(order[i], observe(order[i]), e);
    }
    if Failing(results, e) {
      var r :| r in results && FailsIn(r, e);
      var i :| 0 <= i < |results| && results[i] == r;
      assert FailsAt(order[i], observe(order[i]), e);
    }
    if exists i :: 0 <= i < |order| && FailsAt(order[i], observe(order[i]), e) {
      var i :| 0 <= i < |order| && FailsAt(order[i], observe(order[i]), e);
      assert results[i] in results;
    }
  }

  /** What the report of a shard says. */
  lemma ReportSays(cfg: Config, w: World, k: nat, f: Failure)
    requires 1 <= k <= cfg.shardCount && (f.HardError? || f.NewFailure?) && f.shard == k
    ensures Upload(cfg, w, k).Some? && Says(Upload(cfg, w, k).value, f) <==> Justified(f, cfg, w)
  {
    UploadResults(cfg, w, k);
    var hand := Slice(Runnable(cfg, w.targets), k, cfg.shardCount, 0);
    match f
    case HardError(_, h) =>
      HardErrorsAre(hand, w.observe, h);
      hide HardErrors, NewRed, Outcomes, Slice, Runnable, Upload, RunOrder, HardAt, AllNamed;
    case NewFailure(_, e) =>
      NewRedAre(hand, w.observe, cfg.knownRed, e);
      hide HardErrors, NewRed, Outcomes, Slice, Runnable, Upload, RunOrder, RedAt, AllNamed;
  }

  lemma ReportedMeans(cfg: Config, w: World, k: nat)
    requires 1 <= k <= cfg.shardCount
    ensures Reported(Arrived(cfg, w, cfg.shardCount), k) <==> Upload(cfg, w, k).Some?
  {
    hide Upload, Arrived;
    var all := Arrived(cfg, w, cfg.shardCount);
    WrittenShard(cfg, w, k);
    if Upload(cfg, w, k).Some? {
      ArrivedAre(cfg, w, cfg.shardCount, Upload(cfg, w, k).value);
    }
    if Reported(all, k) {
      var r :| r in all && r.shard == k;
      ArrivedAre(cfg, w, cfg.shardCount, r);
      var j :| 1 <= j <= cfg.shardCount && Upload(cfg, w, j) == Some(r);
      WrittenShard(cfg, w, j);
    }
  }

  lemma SaidByShards(cfg: Config, w: World, f: Failure)
    requires cfg.shardCount > 0 && (f.HardError? || f.NewFailure?)
    ensures f in FailuresIn(Arrived(cfg, w, cfg.shardCount)) <==> Justified(f, cfg, w)
  {
    hide Upload, Arrived, Justified, Says, FailuresIn;
    var all := Arrived(cfg, w, cfg.shardCount);
    FailuresInAre(all, f);
    ShardOf(f, cfg, w);
    if 1 <= f.shard <= cfg.shardCount { ReportSays(cfg, w, f.shard, f); }
    if exists r :: r in all && Says(r, f) {
      var r :| r in all && Says(r, f);
      ArrivedAre(cfg, w, cfg.shardCount, r);
      var k :| 1 <= k <= cfg.shardCount && Upload(cfg, w, k) == Some(r);
      WrittenShard(cfg, w, k);
      SaysShard(r, f);
    }
    if Justified(f, cfg, w) {
      ArrivedAre(cfg, w, cfg.shardCount, Upload(cfg, w, f.shard).value);
    }
  }

  lemma ShardOf(f: Failure, cfg: Config, w: World)
    requires cfg.shardCount > 0 && (f.HardError? || f.NewFailure?)
    ensures Justified(f, cfg, w) ==> 1 <= f.shard <= cfg.shardCount
  {
    hide RunOrder, HardInHand, RedInHand, AllNamed;
  }

  lemma SaysShard(r: Report, f: Failure)
    requires Says(r, f) && (f.HardError? || f.NewFailure?)
    ensures f.shard == r.shard
  {
  }

  /** Over the shards' own reports, whatever became of the shards, the aggregate reports exactly what is justified. */
  lemma ReportsExact(files: seq<File>, cfg: Config, w: World, f: Failure)
    requires cfg.shardCount > 0 && Delivers(files, cfg, w)
    ensures f in Failures(files, cfg) <==> Justified(f, cfg, w)
  {
    DeliveredArrive(files, cfg, w);
    var found, order := Arrived(cfg, w, cfg.shardCount), RunOrder(cfg, w, cfg.shardCount);
    var results := AllOutcomes(found);
    var seen := MarkAll(map[], results);
    OutcomesInOrder(cfg, w, cfg.shardCount);
    hide Delivers, Found, Arrived, AllOutcomes, MarkAll, RunOrder, FailuresIn, NoReports, Missing, Accounts, Outcomes;
    FailuresInAre(found, f);
    NoReportsAre(Missing(found, 1, cfg.shardCount), f);
    AccountsAre(cfg.knownRed, seen, results, f);
    hide Says, SeenFailing, Ran, Reported, SeenIn, RanIn, Healthy, HardInHand, RedInHand, AllNamed;
    match f
    case HardError(_, _) => NotAnAccount(found, f); SaidByShards(cfg, w, f);
    case NewFailure(_, _) => NotAnAccount(found, f); SaidByShards(cfg, w, f);
    case NoReport(k) =>
      NotAnAccount(found, f);
      assert f in Failures(files, cfg) <==> k in Missing(found, 1, cfg.shardCount);
      MissingAre(found, 1, cfg.shardCount, k);
      if 1 <= k <= cfg.shardCount {
        ReportedMeans(cfg, w, k);
        UploadResults(cfg, w, k);
      }
    case Stale(e) =>
      NotAnAccount(found, f);
      SeenMeans(order, w.observe, e);
      RanMeans(order, w.observe, e);
    case NeverRan(e) =>
      NotAnAccount(found, f);
      SeenMeans(order, w.observe, e);
      RanMeans(order, w.observe, e);
      SeenThenRan(order, w.observe, e);
  }

  lemma NotAnAccount(found: seq<Report>, f: Failure)
    ensures (exists r :: r in found && Says(r, f)) ==> f.HardError? || f.NewFailure?
  {
  }

  lemma SeenThenRan(order: seq<Target>, observe: Target -> Observation, e: Triple)
    ensures SeenIn(order, observe, e) ==> RanIn(order, e)
  {
    if SeenIn(order, observe, e) {
      var i :| 0 <= i < |order| && FailsAt(order[i], observe(order[i]), e);
    }
  }

  // ---------------------------------------------------------------------------------------------
  // The number of shards
  // ---------------------------------------------------------------------------------------------

  /** No known-red test is named `*` while a binary of its name passes. */
  ghost predicate Uncontested(cfg: Config, w: World) {
    forall e, x :: e in cfg.knownRed && Observed(cfg, w, x) ==> !Resets(x, e)
  }

  lemma UncontestedStands(results: seq<Outcome>, e: Triple)
    requires Failing(results, e) && forall x :: x in results ==> !Resets(x, e)
    ensures StandsFailing(results, e)
  {
    hide FailsIn, Resets;
    var r :| r in results && FailsIn(r, e);
    var i :| 0 <= i < |results| && results[i] == r;
    assert NoResetAfter(results, i, e);
  }

  /** Then the order of the results does not matter. */
  lemma UncontestedVerdict(files: seq<File>, cfg: Config, w: World)
    requires cfg.shardCount > 0 && Delivers(files, cfg, w) && Uncontested(cfg, w)
    ensures Failures(files, cfg) == [] <==> Sound(cfg, w) && AllowListExact(cfg, w)
  {
    hide Failures, Arrived, AllOutcomes, Failing, FailingTests, Settled, Sound, Delivers, Observed, Resets, StandsFailing,
         IsHard;
    VerdictByOutcomes(files, cfg, w);
    if Sound(cfg, w) && AllowListExact(cfg, w) {
      var results := AllOutcomes(Arrived(cfg, w, cfg.shardCount));
      forall e | e in cfg.knownRed ensures StandsFailing(results, e) {
        KnownSeen(cfg, w, e);
        forall x | x in results ensures !Resets(x, e) { ResultsOfAll(cfg, w, x); }
        UncontestedStands(results, e);
      }
    }
  }

  lemma {:induction false} RunnableAnyCount(cfg: Config, other: Config, targets: seq<Target>)
    requires other == cfg.(shardCount := other.shardCount)
    ensures Runnable(other, targets) == Runnable(cfg, targets)
  {
    if targets != [] { RunnableAnyCount(cfg, other, targets[1..]); }
  }

  lemma SameTests(cfg: Config, other: Config, w: World)
    requires other == cfg.(shardCount := other.shardCount)
    ensures forall x :: Observed(other, w, x) <==> Observed(cfg, w, x)
    ensures AllowListExact(other, w) <==> AllowListExact(cfg, w)
    ensures Problems(other, w.targets) == Problems(cfg, w.targets)
  {
    RunnableAnyCount(cfg, other, w.targets);
    hide Runnable, OutcomeOf, IsHard, FailsIn;
    assert forall x :: Observed(other, w, x) <==> Observed(cfg, w, x);
    hide Observed;
    assert forall e :: FailsSomewhere(other, w, e) <==> FailsSomewhere(cfg, w, e);
    assert FailingTests(other, w) == FailingTests(cfg, w);
  }

  /** All of the first `n` shards build and deliver. */
  ghost predicate AllUp(w: World, n: nat) {
    forall k :: 1 <= k <= n ==> w.alive(k) && w.builds(k)
  }

  /** However many shards the tests are dealt to, the verdict is the same, unless a known-red test named `*` is contested
      or a shard is lost. */
  lemma ShardCountIrrelevant(files: seq<File>, cfg: Config, again: seq<File>, other: Config, w: World)
    requires cfg.shardCount > 0 && Delivers(files, cfg, w) && Uncontested(cfg, w)
    requires other.shardCount > 0 && Delivers(again, other, w) && other == cfg.(shardCount := other.shardCount)
    requires AllUp(w, cfg.shardCount) <==> AllUp(w, other.shardCount)
    ensures Failures(files, cfg) == [] <==> Failures(again, other) == []
  {
    hide Failures, Delivers, AllowListExact, Problems, Observed, Resets;
    SameTests(cfg, other, w);
    UncontestedVerdict(files, cfg, w);
    UncontestedVerdict(again, other, w);
  }

  // ---------------------------------------------------------------------------------------------
  // A known-red test named `*`
  // ---------------------------------------------------------------------------------------------

  const STAR_FAILS := Observation(1, false, 1, 0, 1, 0, 0, 101, 0, [WHOLE_TARGET])
  const ALL_PASS := Observation(1, false, 1, 1, 0, 0, 0, 0, 0, [])

  /** One known-red test named `*`, and two binaries of its name: unit tests in which it fails, and then an integration
      test that passes. Before them comes another test that passes. */
  ghost predicate StarredRun(cfg: Config, w: World, p: string, other: string, t: string) {
    && cfg == Config(cfg.shardCount, [], [], [], [Triple(p, t, WHOLE_TARGET)]) && other != t
    && w.targets == [Target(p, other, Test, false), Target(p, t, Lib, false), Target(p, t, Test, false)]
    && (forall k :: 1 <= k <= cfg.shardCount ==> w.alive(k) && w.builds(k))
    && w.observe(w.targets[0]) == ALL_PASS && w.observe(w.targets[1]) == STAR_FAILS
    && w.observe(w.targets[2]) == ALL_PASS
  }

  function StarFails(p: string, t: string): Outcome { Outcome(p, t, Fail, 0, 1, 0, 0, [WHOLE_TARGET]) }

  function TargetPasses(p: string, t: string): Outcome { Outcome(p, t, Pass, 1, 0, 0, 0, []) }

  lemma StarredRunnable(cfg: Config, w: World, p: string, other: string, t: string)
    requires StarredRun(cfg, w, p, other, t)
    ensures Runnable(cfg, w.targets) == w.targets && Problems(cfg, w.targets) == {}
  {
    var a, b, c := w.targets[0], w.targets[1], w.targets[2];
    assert w.targets[1..] == [b, c] && [b, c][1..] == [c] && [c][1..] == [];
    assert Runnable(cfg, [c]) == [c] + [];
    assert Runnable(cfg, [b, c]) == [b] + [c];
    assert Runnable(cfg, w.targets) == [a] + [b, c];
    assert c in w.targets && PlaceOf(c) in Built(w.targets);
  }

  /** How the three are dealt to one shard, and to two. */
  lemma ThreeDealt(a: Target, b: Target, c: Target)
    ensures Slice([a, b, c], 1, 1, 0) == [a, b, c]
    ensures Slice([a, b, c], 1, 2, 0) == [a, c] && Slice([a, b, c], 2, 2, 0) == [b]
  {
    assert [a, b, c][1..] == [b, c] && [b, c][1..] == [c] && [c][1..] == [];
    SliceThree(a, b, c, 1, 1);
    SliceThree(a, b, c, 1, 2);
    SliceThree(a, b, c, 2, 2);
  }

  lemma SliceThree(a: Target, b: Target, c: Target, shard: nat, count: nat)
    requires count == 1 || count == 2
    ensures Slice([a, b, c], shard, count, 0) ==
            (if 0 == shard - 1 then [a] else []) + (if 1 % count == shard - 1 then [b] else [])
            + (if 0 == shard - 1 then [c] else [])
  {
    assert [a, b, c][1..] == [b, c] && [b, c][1..] == [c] && [c][1..] == [];
    assert Slice([c], shard, count, 2) == (if 0 == shard - 1 then [c] else []) + [];
    assert Slice([b, c], shard, count, 1) ==
           (if 1 % count == shard - 1 then [b] else []) + Slice([c], shard, count, 2);
  }

  lemma ThreeOutcomes(w: World, p: string, other: string, t: string)
    requires w.targets == [Target(p, other, Test, false), Target(p, t, Lib, false), Target(p, t, Test, false)]
    requires w.observe(w.targets[0]) == ALL_PASS && w.observe(w.targets[1]) == STAR_FAILS
    requires w.observe(w.targets[2]) == ALL_PASS
    ensures OutcomeOf(w.targets[0], ALL_PASS) == TargetPasses(p, other)
    ensures OutcomeOf(w.targets[1], STAR_FAILS) == StarFails(p, t)
    ensures OutcomeOf(w.targets[2], ALL_PASS) == TargetPasses(p, t)
  {
  }

  lemma OutcomesOfTwo(a: Target, b: Target, observe: Target -> Observation)
    ensures Outcomes([a], observe) == [OutcomeOf(a, observe(a))]
    ensures Outcomes([a, b], observe) == [OutcomeOf(a, observe(a)), OutcomeOf(b, observe(b))]
  {
    hide OutcomeOf;
    assert [a, b][1..] == [b] && [b][1..] == [];
    assert Outcomes([b], observe) == [OutcomeOf(b, observe(b))] + [];
    assert Outcomes([a, b], observe) == [OutcomeOf(a, observe(a))] + Outcomes([b], observe);
    assert Outcomes([a], observe) == [OutcomeOf(a, observe(a))] + [];
  }

  lemma OutcomesOfThree(a: Target, b: Target, c: Target, observe: Target -> Observation)
    ensures Outcomes([a, b, c], observe) ==
            [OutcomeOf(a, observe(a)), OutcomeOf(b, observe(b)), OutcomeOf(c, observe(c))]
  {
    hide OutcomeOf;
    OutcomesOfTwo(b, c, observe);
    assert [a, b, c][1..] == [b, c];
    assert Outcomes([a, b, c], observe) == [OutcomeOf(a, observe(a))] + Outcomes([b, c], observe);
  }

  lemma StarredSound(cfg: Config, w: World, p: string, other: string, t: string)
    requires StarredRun(cfg, w, p, other, t) && cfg.shardCount > 0
    ensures Sound(cfg, w)
    ensures forall k :: 1 <= k <= cfg.shardCount ==> Upload(cfg, w, k) == Some(Expected(cfg, w, k))
  {
    StarredRunnable(cfg, w, p, other, t);
    hide Upload, Expected, Problems, Runnable;
    forall k | 1 <= k <= cfg.shardCount ensures Upload(cfg, w, k) == Some(Expected(cfg, w, k)) {
      UploadIs(cfg, w, k);
    }
  }

  /** What the shards report: one of them all three results in order, or the first of two both passes. */
  lemma StarredHands(cfg: Config, w: World, p: string, other: string, t: string)
    requires StarredRun(cfg, w, p, other, t) && 1 <= cfg.shardCount <= 2
    ensures cfg.shardCount == 1 ==>
              Expected(cfg, w, 1).targets == [TargetPasses(p, other), StarFails(p, t), TargetPasses(p, t)]
    ensures cfg.shardCount == 2 ==>
              && Expected(cfg, w, 1).targets == [TargetPasses(p, other), TargetPasses(p, t)]
              && Expected(cfg, w, 2).targets == [StarFails(p, t)]
  {
    StarredRunnable(cfg, w, p, other, t);
    var a, b, c := w.targets[0], w.targets[1], w.targets[2];
    ThreeOutcomes(w, p, other, t);
    hide Runnable, Slice, Problems, OutcomeOf, StarFails, TargetPasses, Outcomes, HardErrors, NewRed;
    ThreeDealt(a, b, c);
    OutcomesOfThree(a, b, c, w.observe);
    OutcomesOfTwo(a, c, w.observe);
    OutcomesOfTwo(b, c, w.observe);
  }

  /** The results as the aggregate has them: in the order they were run, or with the pass before the failure. */
  lemma StarredResults(cfg: Config, w: World, p: string, other: string, t: string)
    requires StarredRun(cfg, w, p, other, t) && 1 <= cfg.shardCount <= 2
    ensures AllOutcomes(Arrived(cfg, w, cfg.shardCount)) ==
            if cfg.shardCount == 1 then [TargetPasses(p, other), StarFails(p, t), TargetPasses(p, t)]
            else [TargetPasses(p, other), TargetPasses(p, t), StarFails(p, t)]
  {
    hide *;
    StarredSound(cfg, w, p, other, t);
    StarredHands(cfg, w, p, other, t);
    OneArrived(cfg, w, Expected(cfg, w, 1));
    if cfg.shardCount == 2 {
      TwoArrived(cfg, w, Expected(cfg, w, 1), Expected(cfg, w, 2));
    }
  }

  lemma OneArrived(cfg: Config, w: World, one: Report)
    requires cfg.shardCount > 0 && Upload(cfg, w, 1) == Some(one)
    ensures AllOutcomes(Arrived(cfg, w, 1)) == one.targets
  {
    hide Upload;
    assert Arrived(cfg, w, 0) == [];
    assert Arrived(cfg, w, 1) == [] + [one];
    AllOutcomesLast([], one);
    assert [] + [one] == [one] && AllOutcomes([]) + one.targets == one.targets;
  }

  lemma TwoArrived(cfg: Config, w: World, one: Report, two: Report)
    requires cfg.shardCount > 0 && Upload(cfg, w, 1) == Some(one) && Upload(cfg, w, 2) == Some(two)
    ensures AllOutcomes(Arrived(cfg, w, 2)) == one.targets + two.targets
  {
    hide Upload;
    OneArrived(cfg, w, one);
    assert Arrived(cfg, w, 2) == Arrived(cfg, w, 1) + [two];
    AllOutcomesLast(Arrived(cfg, w, 1), two);
  }

  lemma StarredObserved(cfg: Config, w: World, p: string, other: string, t: string, x: Outcome)
    requires StarredRun(cfg, w, p, other, t)
    ensures Observed(cfg, w, x) <==> x in {TargetPasses(p, other), StarFails(p, t), TargetPasses(p, t)}
  {
    StarredRunnable(cfg, w, p, other, t);
    ThreeOutcomes(w, p, other, t);
    ThreeObserved(cfg, w, w.targets[0], w.targets[1], w.targets[2], x);
    hide Observed, Runnable, Slice, Problems, OutcomeOf, StarFails, TargetPasses;
  }

  lemma ThreeObserved(cfg: Config, w: World, a: Target, b: Target, c: Target, x: Outcome)
    requires Runnable(cfg, w.targets) == [a, b, c]
    ensures Observed(cfg, w, x) <==>
            x in {OutcomeOf(a, w.observe(a)), OutcomeOf(b, w.observe(b)), OutcomeOf(c, w.observe(c))}
  {
    hide Runnable, OutcomeOf;
    assert a in [a, b, c] && b in [a, b, c] && c in [a, b, c];
  }

  lemma StarredAllowed(cfg: Config, w: World, p: string, other: string, t: string)
    requires StarredRun(cfg, w, p, other, t)
    ensures AllowListExact(cfg, w)
  {
    var e := Triple(p, t, WHOLE_TARGET);
    forall x ensures Observed(cfg, w, x) <==> x in {TargetPasses(p, other), StarFails(p, t), TargetPasses(p, t)} {
      StarredObserved(cfg, w, p, other, t, x);
    }
    hide Observed;
    assert FailsIn(StarFails(p, t), e);
    forall d ensures FailsSomewhere(cfg, w, d) <==> d == e {
      if FailsSomewhere(cfg, w, d) {
        var x :| Observed(cfg, w, x) && FailsIn(x, d);
      }
    }
  }

  lemma PassAfterFailure(p: string, other: string, t: string)
    requires other != t
    ensures var e := Triple(p, t, WHOLE_TARGET);
            && !StandsFailing([TargetPasses(p, other), StarFails(p, t), TargetPasses(p, t)], e)
            && StandsFailing([TargetPasses(p, other), TargetPasses(p, t), StarFails(p, t)], e)
  {
    var e := Triple(p, t, WHOLE_TARGET);
    var late, early := [TargetPasses(p, other), StarFails(p, t), TargetPasses(p, t)],
                       [TargetPasses(p, other), TargetPasses(p, t), StarFails(p, t)];
    assert Resets(late[2], e) && !FailsIn(late[0], e) && !FailsIn(late[2], e);
    assert !NoResetAfter(late, 1, e);
    assert FailsIn(early[2], e) && NoResetAfter(early, 2, e);
  }

  /** The reserved name does collide: here the known-red test named `*` is the one test that fails, as the configuration
      says. With one shard the aggregate over the reports is not clean all the same, because a binary of the same name
      passes after it; with two it is, because the pass is then reported first. */
  lemma StarredTestReportedStale(files: seq<File>, cfg: Config, w: World, p: string, other: string, t: string)
    requires StarredRun(cfg, w, p, other, t) && 1 <= cfg.shardCount <= 2 && Delivers(files, cfg, w)
    ensures Sound(cfg, w) && AllowListExact(cfg, w)
    ensures Failures(files, cfg) == [] <==> cfg.shardCount == 2
  {
    OneStar(cfg, w, p, other, t, AllOutcomes(Arrived(cfg, w, cfg.shardCount)));
    hide *;
    StarredSound(cfg, w, p, other, t);
    StarredResults(cfg, w, p, other, t);
    StarredAllowed(cfg, w, p, other, t);
    VerdictByOutcomes(files, cfg, w);
    PassAfterFailure(p, other, t);
  }

  lemma OneStar(cfg: Config, w: World, p: string, other: string, t: string, results: seq<Outcome>)
    requires StarredRun(cfg, w, p, other, t)
    ensures other != t
    ensures StarsStand(results, cfg.knownRed) <==> StandsFailing(results, Triple(p, t, WHOLE_TARGET))
  {
    hide StandsFailing;
    assert Triple(p, t, WHOLE_TARGET) in cfg.knownRed;
  }

  // ---------------------------------------------------------------------------------------------
  // The totals
  // ---------------------------------------------------------------------------------------------

  function Weigh(results: seq<Outcome>, weight: Outcome -> nat): nat {
    if results == [] then 0 else weight(results[0]) + Weigh(results[1..], weight)
  }

  lemma {:induction false} WeighConcat(a: seq<Outcome>, b: seq<Outcome>, weight: Outcome -> nat)
    ensures Weigh(a + b, weight) == Weigh(a, weight) + Weigh(b, weight)
  {
    if a == [] {
      assert a + b == b;
    } else {
      assert (a + b)[1..] == a[1..] + b;
      WeighConcat(a[1..], b, weight);
    }
  }

  /** The weight of the first `n` shards' results. */
  function HandsWeigh(runnable: seq<Target>, n: nat, count: nat, from: nat, observe: Target -> Observation,
                      weight: Outcome -> nat): nat
    requires count > 0
  {
    if n == 0 then 0
    else HandsWeigh(runnable, n - 1, count, from, observe, weight)
         + Weigh(Outcomes(Slice(runnable, n, count, from), observe), weight)
  }

  lemma {:induction false} HandsWeighStep(runnable: seq<Target>, n: nat, count: nat, from: nat,
                                          observe: Target -> Observation, weight: Outcome -> nat)
    requires count > 0 && runnable != []
    ensures HandsWeigh(runnable, n, count, from, observe, weight)
         == HandsWeigh(runnable[1..], n, count, from + 1, observe, weight)
            + if from % count + 1 <= n then weight(OutcomeOf(runnable[0], observe(runnable[0]))) else 0
    decreases n
  {
    hide OutcomeOf;
    if n > 0 {
      HandsWeighStep(runnable, n - 1, count, from, observe, weight);
      HandWeighStep(runnable, n, count, from, observe, weight);
      hide Slice, Weigh, Outcomes;
    }
  }

  lemma HandWeighStep(runnable: seq<Target>, shard: nat, count: nat, from: nat, observe: Target -> Observation,
                      weight: Outcome -> nat)
    requires count > 0 && runnable != []
    ensures Weigh(Outcomes(Slice(runnable, shard, count, from), observe), weight)
         == Weigh(Outcomes(Slice(runnable[1..], shard, count, from + 1), observe), weight)
            + if from % count == shard - 1 then weight(OutcomeOf(runnable[0], observe(runnable[0]))) else 0
  {
    hide OutcomeOf;
    var rest := Slice(runnable[1..], shard, count, from + 1);
    if from % count == shard - 1 {
      assert ([runnable[0]] + rest)[1..] == rest;
      var first := OutcomeOf(runnable[0], observe(runnable[0]));
      assert ([first] + Outcomes(rest, observe))[1..] == Outcomes(rest, observe);
    } else {
      assert [] + rest == rest;
    }
  }

  /** Whatever is counted of a result, the shards together count what the targets count. */
  lemma {:induction false} HandsWeighAll(runnable: seq<Target>, count: nat, from: nat, observe: Target -> Observation,
                                         weight: Outcome -> nat)
    requires count > 0
    ensures HandsWeigh(runnable, count, count, from, observe, weight) == Weigh(Outcomes(runnable, observe), weight)
    decreases |runnable|
  {
    hide OutcomeOf;
    if runnable == [] {
      NoWeight(count, count, from, observe, weight);
    } else {
      HandsWeighStep(runnable, count, count, from, observe, weight);
      TurnExists(from, count);
      HandsWeighAll(runnable[1..], count, from + 1, observe, weight);
      hide HandsWeigh;
      var first := OutcomeOf(runnable[0], observe(runnable[0]));
      assert ([first] + Outcomes(runnable[1..], observe))[1..] == Outcomes(runnable[1..], observe);
    }
  }

  lemma {:induction false} NoWeight(n: nat, count: nat, from: nat, observe: Target -> Observation,
                                    weight: Outcome -> nat)
    requires count > 0
    ensures HandsWeigh([], n, count, from, observe, weight) == 0
  {
    if n > 0 { NoWeight(n - 1, count, from, observe, weight); }
  }

  lemma {:induction false} ArrivedWeigh(cfg: Config, w: World, n: nat, weight: Outcome -> nat)
    requires cfg.shardCount > 0 && Sound(cfg, w) && n <= cfg.shardCount
    ensures Weigh(AllOutcomes(Arrived(cfg, w, n)), weight)
         == HandsWeigh(Runnable(cfg, w.targets), n, cfg.shardCount, 0, w.observe, weight)
    decreases n
  {
    hide Upload, Problems, Runnable, Slice, Outcomes;
    if n > 0 {
      ArrivedWeigh(cfg, w, n - 1, weight);
      UploadIs(cfg, w, n);
      var before, last := Arrived(cfg, w, n - 1), Expected(cfg, w, n);
      assert Arrived(cfg, w, n) == before + [last];
      AllOutcomesLast(before, last);
      WeighConcat(AllOutcomes(before), last.targets, weight);
    }
  }

  lemma {:induction false} AllOutcomesLast(before: seq<Report>, last: Report)
    ensures AllOutcomes(before + [last]) == AllOutcomes(before) + last.targets
  {
    if before == [] {
      assert [] + [last] == [last] && [last][1..] == [];
      assert last.targets + AllOutcomes([]) == last.targets;
    } else {
      assert (before + [last])[1..] == before[1..] + [last];
      AllOutcomesLast(before[1..], last);
    }
  }

  function One(x: Outcome): nat { 1 }

  function Passed(x: Outcome): nat { x.passed }

  function Failed(x: Outcome): nat { x.failed }

  function Ignored(x: Outcome): nat { x.ignored }

  function Skips(x: Outcome): nat { x.skips }

  function EmptyOne(x: Outcome): nat { if x.status == Empty then 1 else 0 }

  function ReleaseOne(x: Outcome): nat { if x.status == ReleaseOnly then 1 else 0 }

  lemma {:induction false} TotalsAre(t: Totals, results: seq<Outcome>)
    ensures AddTotals(t, results)
         == Totals(t.targets + Weigh(results, One), t.passed + Weigh(results, Passed),
                   t.failed + Weigh(results, Failed), t.ignored + Weigh(results, Ignored),
                   t.skips + Weigh(results, Skips), t.empty + Weigh(results, EmptyOne),
                   t.releaseOnly + Weigh(results, ReleaseOne))
    decreases |results|
  {
    if results != [] {
      TotalsAre(Tally(t, results[0]), results[1..]);
    }
  }

  /** What one target adds to the totals, by what was observed of it. */
  function Counted(t: Target, o: Observation): Totals {
    if o.listed > 0 then Totals(1, o.passed, o.failed, o.ignored, o.skips, 0, 0)
    else Totals(1, 0, 0, 0, 0, if t.kind == Test then 0 else 1, if t.kind == Test && o.releaseOnly then 1 else 0)
  }

  function Plus(a: Totals, b: Totals): Totals {
    Totals(a.targets + b.targets, a.passed + b.passed, a.failed + b.failed, a.ignored + b.ignored, a.skips + b.skips,
           a.empty + b.empty, a.releaseOnly + b.releaseOnly)
  }

  function CountedAll(targets: seq<Target>, observe: Target -> Observation): Totals {
    if targets == [] then Totals(0, 0, 0, 0, 0, 0, 0)
    else Plus(Counted(targets[0], observe(targets[0])), CountedAll(targets[1..], observe))
  }

  lemma {:induction false} TotalsByObservation(t: Totals, targets: seq<Target>, observe: Target -> Observation)
    ensures AddTotals(t, Outcomes(targets, observe)) == Plus(t, CountedAll(targets, observe))
    decreases |targets|
  {
    hide OutcomeOf, Tally, Counted, Plus;
    if targets == [] {
      PlusNothing(t);
    } else {
      var first, rest := targets[0], targets[1..];
      var x := OutcomeOf(first, observe(first));
      assert ([x] + Outcomes(rest, observe))[1..] == Outcomes(rest, observe);
      TallyMeans(t, first, observe(first));
      TotalsByObservation(Tally(t, x), rest, observe);
      PlusGroups(t, Counted(first, observe(first)), CountedAll(rest, observe));
    }
  }

  lemma TallyMeans(t: Totals, target: Target, o: Observation)
    ensures Tally(t, OutcomeOf(target, o)) == Plus(t, Counted(target, o))
  {
  }

  lemma PlusNothing(t: Totals)
    ensures Plus(t, Totals(0, 0, 0, 0, 0, 0, 0)) == t
  {
  }

  lemma PlusGroups(a: Totals, b: Totals, c: Totals)
    ensures Plus(Plus(a, b), c) == Plus(a, Plus(b, c))
  {
  }

  /** The totals the aggregate prints are the totals over the runnable targets, however they were dealt out. */
  lemma TotalsConserved(files: seq<File>, cfg: Config, w: World)
    requires cfg.shardCount > 0 && Sound(cfg, w) && Delivers(files, cfg, w)
    ensures AddTotals(NOTHING, AllOutcomes(Found(files))) == CountedAll(Runnable(cfg, w.targets), w.observe)
  {
    TotalsByObservation(NOTHING, Runnable(cfg, w.targets), w.observe);
    TotalsOfOutcomes(files, cfg, w);
    hide *;
    NothingPlus(CountedAll(Runnable(cfg, w.targets), w.observe));
  }

  lemma NothingPlus(t: Totals)
    ensures Plus(NOTHING, t) == t
  {
  }

  lemma TotalsOfOutcomes(files: seq<File>, cfg: Config, w: World)
    requires cfg.shardCount > 0 && Sound(cfg, w) && Delivers(files, cfg, w)
    ensures AddTotals(NOTHING, AllOutcomes(Found(files)))
         == AddTotals(NOTHING, Outcomes(Runnable(cfg, w.targets), w.observe))
  {
    hide Found, Arrived, AllOutcomes, Runnable, Outcomes, AddTotals, Delivers;
    DeliveredArrive(files, cfg, w);
    TotalsAre(NOTHING, AllOutcomes(Arrived(cfg, w, cfg.shardCount)));
    TotalsAre(NOTHING, Outcomes(Runnable(cfg, w.targets), w.observe));
    Conserved(cfg, w, One);
    Conserved(cfg, w, Passed);
    Conserved(cfg, w, Failed);
    Conserved(cfg, w, Ignored);
    Conserved(cfg, w, Skips);
    Conserved(cfg, w, EmptyOne);
    Conserved(cfg, w, ReleaseOne);
  }

  lemma Conserved(cfg: Config, w: World, weight: Outcome -> nat)
    requires cfg.shardCount > 0 && Sound(cfg, w)
    ensures Weigh(AllOutcomes(Arrived(cfg, w, cfg.shardCount)), weight)
         == Weigh(Outcomes(Runnable(cfg, w.targets), w.observe), weight)
  {
    hide Arrived, AllOutcomes, Runnable, Outcomes, HandsWeigh, Weigh;
    ArrivedWeigh(cfg, w, cfg.shardCount, weight);
    HandsWeighAll(Runnable(cfg, w.targets), cfg.shardCount, 0, w.observe, weight);
  }
}
