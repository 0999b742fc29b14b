/**
 One shard of the workspace tests (`workspace_test_shard.py`): which targets the configuration lets run, how they are
 dealt to the shards, how the run of one target is judged, and the report a shard writes.
 */
module ShardRun {
  import opened Prelude

  datatype Kind = Test | Lib | Bin

  datatype Target = Target(package: string, name: string, kind: Kind, gated: bool)

  /** A package and one of its targets, as the configuration names them. */
  datatype Place = Place(package: string, target: string)

  /** A single test. */
  datatype Triple = Triple(package: string, target: string, test: string)

  datatype Config = Config(
    shardCount: nat,
    crossBuildExcluded: seq<Place>,
    nightlyOnlyExcluded: seq<Place>,
    costExcluded: seq<Place>,
    knownRed: seq<Triple>)

  function PlaceOf(t: Target): Place { Place(t.package, t.name) }

  function PlaceOfTest(x: Triple): Place { Place(x.package, x.target) }

  // ---------------------------------------------------------------------------------------------
  // Which targets run
  // ---------------------------------------------------------------------------------------------

  predicate Excluded(cfg: Config, p: Place) {
    p in cfg.crossBuildExcluded || p in cfg.nightlyOnlyExcluded || p in cfg.costExcluded
  }

  /** The places of the integration tests that were built. */
  function Built(targets: seq<Target>): set<Place> {
    set t | t in targets && t.kind == Test :: PlaceOf(t)
  }

  /** The entries that name nothing that was built: an error for an exclusion and for a known-red test alike. */
  function Problems(cfg: Config, targets: seq<Target>): set<Place> {
    (set p | p in cfg.crossBuildExcluded + cfg.nightlyOnlyExcluded + cfg.costExcluded)
    + (set x | x in cfg.knownRed :: PlaceOfTest(x))
    - Built(targets)
  }

  function Runnable(cfg: Config, targets: seq<Target>): seq<Target> {
    if targets == [] then []
    else (if !targets[0].gated && !Excluded(cfg, PlaceOf(targets[0])) then [targets[0]] else [])
         + Runnable(cfg, targets[1..])
  }

  lemma {:induction false} RunnableIs(cfg: Config, targets: seq<Target>, t: Target)
    ensures t in Runnable(cfg, targets) <==> t in targets && !t.gated && !Excluded(cfg, PlaceOf(t))
  {
    if targets != [] {
      RunnableIs(cfg, targets[1..], t);
      assert targets == [targets[0]] + targets[1..];
    }
  }

  /** The configuration has no problems exactly when each exclusion and each known-red test names an integration test that
      was built. */
  lemma NoProblemsMeans(cfg: Config, targets: seq<Target>)
    ensures Problems(cfg, targets) == {} <==> AllNamed(cfg, targets)
  {
    forall p ensures p in Built(targets) <==> Names(p.package, p.target, targets) {
      if Names(p.package, p.target, targets) {
        var t :| t in targets && t.kind == Test && t.package == p.package && t.name == p.target;
        assert PlaceOf(t) == p;
      }
    }
    hide Built, Names;
    var lists := cfg.crossBuildExcluded + cfg.nightlyOnlyExcluded + cfg.costExcluded;
    if Problems(cfg, targets) == {} {
      forall p | Excluded(cfg, p) ensures p in Built(targets) {
        assert p in lists && p !in Problems(cfg, targets);
      }
      forall e | e in cfg.knownRed ensures PlaceOfTest(e) in Built(targets) {
        assert PlaceOfTest(e) in (set x | x in cfg.knownRed :: PlaceOfTest(x)) && PlaceOfTest(e) !in Problems(cfg, targets);
      }
    }
    if AllNamed(cfg, targets) {
      forall p | p in lists ensures p in Built(targets) { assert Excluded(cfg, p); }
    }
  }

  ghost predicate Names(package: string, target: string, targets: seq<Target>) {
    exists t :: t in targets && t.kind == Test && t.package == package && t.name == target
  }

  ghost predicate AllNamed(cfg: Config, targets: seq<Target>) {
    && (forall p :: p in cfg.crossBuildExcluded ==> Names(p.package, p.target, targets))
    && (forall p :: p in cfg.nightlyOnlyExcluded ==> Names(p.package, p.target, targets))
    && (forall p :: p in cfg.costExcluded ==> Names(p.package, p.target, targets))
    && (forall e :: e in cfg.knownRed ==> Names(e.package, e.target, targets))
  }

  // ---------------------------------------------------------------------------------------------
  // Dealing them to the shards
  // ---------------------------------------------------------------------------------------------

  /** The `shard`-th hand of a round-robin deal, the first of `runnable` going to the turn numbered `from`. */
  function Slice(runnable: seq<Target>, shard: int, count: nat, from: nat): seq<Target>
    requires count > 0
  {
    if runnable == [] then []
    else (if from % count == shard - 1 then [runnable[0]] else []) + Slice(runnable[1..], shard, count, from + 1)
  }

  /** The first `shards` hands together. */
  function Dealt(runnable: seq<Target>, shards: nat, count: nat, from: nat): multiset<Target>
    requires count > 0
  {
    if shards == 0 then multiset{}
    else Dealt(runnable, shards - 1, count, from) + multiset(Slice(runnable, shards, count, from))
  }

  lemma {:induction false} DealtStep(runnable: seq<Target>, shards: nat, count: nat, from: nat)
    requires count > 0 && runnable != []
    ensures Dealt(runnable, shards, count, from)
         == Dealt(runnable[1..], shards, count, from + 1)
            + if from % count + 1 <= shards then multiset{runnable[0]} else multiset{}
    decreases shards
  {
    hide Slice;
    if shards > 0 {
      DealtStep(runnable, shards - 1, count, from);
      SliceStep(runnable, shards, count, from);
      DealtLast(runnable, shards, count, from);
      DealtLast(runnable[1..], shards, count, from + 1);
      hide Dealt;
    }
  }

  lemma DealtLast(runnable: seq<Target>, shards: nat, count: nat, from: nat)
    requires count > 0 && shards > 0
    ensures Dealt(runnable, shards, count, from)
         == Dealt(runnable, shards - 1, count, from) + multiset(Slice(runnable, shards, count, from))
  {
    hide Slice;
  }

  lemma SliceStep(runnable: seq<Target>, shard: int, count: nat, from: nat)
    requires count > 0 && runnable != []
    ensures multiset(Slice(runnable, shard, count, from))
         == multiset(Slice(runnable[1..], shard, count, from + 1))
            + if from % count == shard - 1 then multiset{runnable[0]} else multiset{}
  {
    var rest := Slice(runnable[1..], shard, count, from + 1);
    assert multiset([runnable[0]] + rest) == multiset{runnable[0]} + multiset(rest);
    assert [] + rest == rest;
  }

  /** The hands together are exactly the targets dealt: nothing is lost and nothing is run twice. */
  lemma {:induction false} DealIsPartition(runnable: seq<Target>, count: nat, from: nat)
    requires count > 0
    ensures Dealt(runnable, count, count, from) == multiset(runnable)
    decreases |runnable|
  {
    if runnable == [] {
      NothingDealt(count, count, from);
    } else {
      hide Dealt;
      DealtStep(runnable, count, count, from);
      TurnExists(from, count);
      DealIsPartition(runnable[1..], count, from + 1);
      FirstOut(runnable);
    }
  }

  lemma FirstOut(runnable: seq<Target>)
    requires runnable != []
    ensures multiset(runnable) == multiset(runnable[1..]) + multiset{runnable[0]}
  {
    assert runnable == [runnable[0]] + runnable[1..];
  }

  lemma TurnExists(from: nat, count: nat)
    requires count > 0
    ensures from % count + 1 <= count
  {
  }

  lemma {:induction false} NothingDealt(shards: nat, count: nat, from: nat)
    requires count > 0
    ensures Dealt([], shards, count, from) == multiset{}
  {
    if shards > 0 { NothingDealt(shards - 1, count, from); }
  }

  lemma {:induction false} SliceSnoc(runnable: seq<Target>, last: Target, shard: int, count: nat, from: nat)
    requires count > 0
    ensures Slice(runnable + [last], shard, count, from)
         == Slice(runnable, shard, count, from) + if (from + |runnable|) % count == shard - 1 then [last] else []
    decreases |runnable|
  {
    if runnable == [] {
      assert ([] + [last])[1..] == [];
    } else {
      assert (runnable + [last])[1..] == runnable[1..] + [last] && (runnable + [last])[0] == runnable[0];
      SliceSnoc(runnable[1..], last, shard, count, from + 1);
      assert from + |runnable| == from + 1 + |runnable[1..]|;
    }
  }

  lemma Quotient(q: nat, r: nat, count: nat)
    requires r < count
    ensures (q * count + r) / count == q && (q * count + r) % count == r
  {
    var n := q * count + r;
    var d, m := n / count, n % count;
    assert n == d * count + m;
    assert (d - q) * count == r - m;
    Multiple(d - q, count);
  }

  lemma Multiple(k: int, count: nat)
    ensures k >= 1 ==> k * count >= count
    ensures k <= -1 ==> k * count + count <= 0
  {
    assert k * count == (k - 1) * count + count;
    assert k * count == (k + 1) * count - count;
    if k >= 1 { Product(k - 1, count); }
    if k <= -1 {
      Product(-k - 1, count);
      assert (k + 1) * count == -((-k - 1) * count);
    }
  }

  lemma Product(a: nat, b: nat)
    ensures a * b >= 0
  {
  }

  /** How many of the turns before turn `n` belong to a shard. */
  function Turns(n: nat, shard: nat, count: nat): nat
    requires 1 <= shard <= count
  {
    if n % count >= shard then n / count + 1 else n / count
  }

  lemma TurnsNext(n: nat, shard: nat, count: nat)
    requires 1 <= shard <= count
    ensures Turns(n + 1, shard, count) == Turns(n, shard, count) + if n % count == shard - 1 then 1 else 0
  {
    TurnOver(n, count);
  }

  lemma TurnOver(n: nat, count: nat)
    requires count > 0
    ensures n % count + 1 < count ==> (n + 1) / count == n / count && (n + 1) % count == n % count + 1
    ensures n % count + 1 == count ==> (n + 1) / count == n / count + 1 && (n + 1) % count == 0
    ensures n % count < count
  {
    Division(n, count);
    TurnOverBy(n, n / count, n % count, count);
  }

  lemma Division(n: nat, count: nat)
    requires count > 0
    ensures n == (n / count) * count + n % count && n % count < count
  {
  }

  lemma TurnOverBy(n: nat, q: nat, r: nat, count: nat)
    requires n == q * count + r && r < count
    ensures r + 1 < count ==> (n + 1) / count == q && (n + 1) % count == r + 1
    ensures r + 1 == count ==> (n + 1) / count == q + 1 && (n + 1) % count == 0
  {
    if r + 1 < count {
      QuotientOf(n + 1, q, r + 1, count);
    } else {
      OneMore(q, count);
      QuotientOf(n + 1, q + 1, 0, count);
    }
  }

  lemma OneMore(q: nat, count: nat)
    ensures (q + 1) * count == q * count + count
  {
  }

  lemma QuotientOf(n: nat, q: nat, r: nat, count: nat)
    requires n == q * count + r && r < count
    ensures n / count == q && n % count == r
  {
    Quotient(q, r, count);
  }

  lemma {:induction false} HandSize(runnable: seq<Target>, shard: nat, count: nat)
    requires 1 <= shard <= count
    ensures |Slice(runnable, shard, count, 0)| == Turns(|runnable|, shard, count)
    decreases |runnable|
  {
    hide Turns;
    if runnable == [] {
      NoTurns(shard, count);
    } else {
      var front, last := runnable[..|runnable| - 1], runnable[|runnable| - 1];
      HandSize(front, shard, count);
      SliceSnoc(front, last, shard, count, 0);
      TurnsNext(|front|, shard, count);
      assert runnable == front + [last];
      hide Slice;
    }
  }

  lemma NoTurns(shard: nat, count: nat)
    requires 1 <= shard <= count
    ensures Turns(0, shard, count) == 0
  {
    Quotient(0, 0, count);
  }

  /** The deal itself: target `m` is the `m / count`-th of shard `m % count + 1`. */
  lemma {:induction false} DealtTo(runnable: seq<Target>, count: nat, m: nat)
    requires count > 0 && m < |runnable|
    ensures var hand := Slice(runnable, m % count + 1, count, 0);
            m / count < |hand| && hand[m / count] == runnable[m]
    decreases |runnable|
  {
    var shard := m % count + 1;
    var front, last := runnable[..|runnable| - 1], runnable[|runnable| - 1];
    SliceSnoc(front, last, shard, count, 0);
    assert runnable == front + [last];
    hide Slice;
    if m == |front| {
      HandSize(front, shard, count);
      assert Turns(m, shard, count) == m / count;
    } else {
      DealtTo(front, count, m);
    }
  }

  predicate InHand(runnable: seq<Target>, k: int, count: nat, t: Target)
    requires count > 0
  {
    t in Slice(runnable, k, count, 0)
  }

  lemma {:induction false} DealtMember(runnable: seq<Target>, shards: nat, count: nat, t: Target)
    requires count > 0
    ensures t in Dealt(runnable, shards, count, 0) <==> exists k :: 1 <= k <= shards && InHand(runnable, k, count, t)
    decreases shards
  {
    if shards > 0 {
      DealtMember(runnable, shards - 1, count, t);
      LastHand(runnable, shards, count, t);
      hide InHand, Dealt;
    }
  }

  lemma LastHand(runnable: seq<Target>, shards: nat, count: nat, t: Target)
    requires count > 0 && shards > 0
    ensures t in Dealt(runnable, shards, count, 0) <==>
            t in Dealt(runnable, shards - 1, count, 0) || InHand(runnable, shards, count, t)
  {
    hide Slice;
    var hand := Slice(runnable, shards, count, 0);
    assert t in multiset(hand) <==> t in hand;
  }

  /** A target runs exactly when some shard has it. */
  lemma SomeShardRuns(runnable: seq<Target>, count: nat, t: Target)
    requires count > 0
    ensures t in runnable <==> exists k :: 1 <= k <= count && InHand(runnable, k, count, t)
  {
    DealIsPartition(runnable, count, 0);
    DealtMember(runnable, count, count, t);
    assert t in multiset(runnable) <==> t in runnable;
  }

  // ---------------------------------------------------------------------------------------------
  // Judging one target
  // ---------------------------------------------------------------------------------------------

  /** What is observed of one target: how many tests its binary lists, whether its source says it is empty in debug
      builds, and what its run printed, notices of skipping counted. */
  datatype Observation = Observation(
    listed: nat, releaseOnly: bool, resultLines: nat,
    passed: nat, failed: nat, ignored: nat, filtered: nat, exitCode: int, skips: nat, failedTests: seq<string>)

  datatype Status = Pass | Fail | Error | Vacuous | Empty | ReleaseOnly

  datatype Outcome = Outcome(
    package: string, target: string, status: Status, passed: nat, failed: nat, ignored: nat, skips: nat,
    failedTests: seq<string>)

  function RunStatus(o: Observation): Status {
    if o.resultLines == 0 then Error
    else if o.passed == 0 && o.failed == 0 && o.ignored == 0 && o.filtered == 0 then Vacuous
    else if o.failed > 0 || o.exitCode != 0 then Fail
    else Pass
  }

  function OutcomeOf(t: Target, o: Observation): Outcome {
    if o.listed == 0 then
      Outcome(t.package, t.name,
             if t.kind != Test then Empty else if o.releaseOnly then ReleaseOnly else Vacuous, 0, 0, 0, 0, [])
    else Outcome(t.package, t.name, RunStatus(o), o.passed, o.failed, o.ignored, o.skips, o.failedTests)
  }

  predicate IsHard(r: Outcome) { r.status == Error || r.status == Vacuous }

  const UNATTRIBUTED := "<unattributed failure>"

  datatype Hard = Hard(package: string, target: string, status: Status)

  datatype Report = Report(shard: int, targets: seq<Outcome>, hardErrors: seq<Hard>, newRed: seq<Triple>)

  // ---------------------------------------------------------------------------------------------
  // The report
  // ---------------------------------------------------------------------------------------------

  function Outcomes(slice: seq<Target>, observe: Target -> Observation): seq<Outcome> {
    if slice == [] then [] else [OutcomeOf(slice[0], observe(slice[0]))] + Outcomes(slice[1..], observe)
  }

  function HardErrors(results: seq<Outcome>): seq<Hard> {
    if results == [] then []
    else (if IsHard(results[0]) then [Hard(results[0].package, results[0].target, results[0].status)] else [])
         + HardErrors(results[1..])
  }

  /** The failing tests of one target that the configuration does not list. */
  function Unlisted(r: Outcome, tests: seq<string>, known: seq<Triple>): seq<Triple> {
    if tests == [] then []
    else (if Triple(r.package, r.target, tests[0]) in known then [] else [Triple(r.package, r.target, tests[0])])
         + Unlisted(r, tests[1..], known)
  }

  function NewRedOf(r: Outcome, known: seq<Triple>): seq<Triple> {
    if IsHard(r) then []
    else Unlisted(r, r.failedTests, known)
         + if r.status == Fail && r.failedTests == [] then [Triple(r.package, r.target, UNATTRIBUTED)] else []
  }

  function NewRed(results: seq<Outcome>, known: seq<Triple>): seq<Triple> {
    if results == [] then [] else NewRedOf(results[0], known) + NewRed(results[1..], known)
  }

  lemma UnlistedNext(r: Outcome, tests: seq<string>, i: nat, known: seq<Triple>)
    requires i < |tests|
    ensures var key := Triple(r.package, r.target, tests[i]);
            Unlisted(r, tests[i..], known) == (if key in known then [] else [key]) + Unlisted(r, tests[i + 1..], known)
  {
    assert tests[i..][1..] == tests[i + 1..];
  }

  lemma UnlistedNone(r: Outcome, tests: seq<string>, known: seq<Triple>)
    ensures Unlisted(r, tests[|tests|..], known) == []
  {
  }

  /** The inner loop over the failing tests of a target. */
  method CollectNewRed(r: Outcome, known: seq<Triple>) returns (red: seq<Triple>)
    ensures red == NewRedOf(r, known)
  {
    red := [];
    if IsHard(r) { return; }
    var i := 0;
    assert r.failedTests[0..] == r.failedTests;
    hide Unlisted;
    while i < |r.failedTests|
      invariant 0 <= i <= |r.failedTests|
      invariant red + Unlisted(r, r.failedTests[i..], known) == Unlisted(r, r.failedTests, known)
    {
      UnlistedNext(r, r.failedTests, i, known);
      var key := Triple(r.package, r.target, r.failedTests[i]);
      if key !in known {
        red := red + [key];
      }
      i := i + 1;
    }
    UnlistedNone(r, r.failedTests, known);
    if r.status == Fail && r.failedTests == [] {
      red := red + [Triple(r.package, r.target, UNATTRIBUTED)];
    }
  }

  /** The loop of `cmd_run` over its slice. */
  method RunShard(shard: int, slice: seq<Target>, observe: Target -> Observation, known: seq<Triple>)
    returns (report: Report)
    ensures report == ReportOf(shard, Outcomes(slice, observe), known)
  {
    hide OutcomeOf, NewRedOf, IsHard;
    var targets, hard, red := [], [], [];
    var i := 0;
    ghost var all := Outcomes(slice, observe);
    ghost var rest := all;
    assert slice[0..] == slice;
    while i < |slice|
      invariant 0 <= i <= |slice| && rest == Outcomes(slice[i..], observe)
      invariant targets + rest == all
      invariant hard + HardErrors(rest) == HardErrors(all)
      invariant red + NewRed(rest, known) == NewRed(all, known)
    {
      assert slice[i..][1..] == slice[i + 1..];
      var r := OutcomeOf(slice[i], observe(slice[i]));
      assert rest == [r] + Outcomes(slice[i + 1..], observe) && rest[1..] == Outcomes(slice[i + 1..], observe);
      targets := targets + [r];
      if IsHard(r) {
        hard := hard + [Hard(r.package, r.target, r.status)];
      }
      var more := CollectNewRed(r, known);
      red := red + more;
      rest := rest[1..];
      i := i + 1;
    }
    report := Report(shard, targets, hard, red);
  }

  function ReportOf(shard: int, results: seq<Outcome>, known: seq<Triple>): Report {
    Report(shard, results, HardErrors(results), NewRed(results, known))
  }

  /** `cmd_run` as far as a report is written: none when the configuration has problems, and one that carries a hard
      error when the build fails. */
  method CmdRun(cfg: Config, shard: int, built: Option<seq<Target>>, observe: Target -> Observation)
    returns (report: Option<Report>)
    requires cfg.shardCount > 0
    ensures report == Written(cfg, shard, built, observe)
  {
    match built
    case None => report := Some(BuildFailed(shard));
    case Some(targets) =>
      if Problems(cfg, targets) != {} {
        return None;
      }
      var r := RunShard(shard, Slice(Runnable(cfg, targets), shard, cfg.shardCount, 0), observe, cfg.knownRed);
      report := Some(r);
  }

  function BuildFailed(shard: int): Report {
    Report(shard, [], [Hard("<workspace>", "<build>", Error)], [])
  }

  function Written(cfg: Config, shard: int, built: Option<seq<Target>>, observe: Target -> Observation): Option<Report>
    requires cfg.shardCount > 0
  {
    match built
    case None => Some(BuildFailed(shard))
    case Some(targets) =>
      if Problems(cfg, targets) != {} then None
      else Some(ReportOf(shard, Outcomes(Slice(Runnable(cfg, targets), shard, cfg.shardCount, 0), observe), cfg.knownRed))
  }

  // ---------------------------------------------------------------------------------------------
  // What the report says
  // ---------------------------------------------------------------------------------------------

  /** A result that needs no attention beyond the known-red list. */
  predicate Settled(r: Outcome, known: seq<Triple>) {
    && !IsHard(r)
    && (r.status == Fail ==> r.failedTests != [])
    && forall n :: n in r.failedTests ==> Triple(r.package, r.target, n) in known
  }

  lemma {:induction false} UnlistedEmpty(r: Outcome, tests: seq<string>, known: seq<Triple>)
    ensures Unlisted(r, tests, known) == [] <==> forall n :: n in tests ==> Triple(r.package, r.target, n) in known
  {
    if tests != [] {
      UnlistedEmpty(r, tests[1..], known);
      assert tests == [tests[0]] + tests[1..];
    }
  }

  /** A report is free of hard errors and of new red exactly when every result in it is settled. */
  lemma {:induction false} ReportClean(results: seq<Outcome>, known: seq<Triple>)
    ensures HardErrors(results) == [] && NewRed(results, known) == [] <==>
            forall r :: r in results ==> Settled(r, known)
  {
    if results != [] {
      ReportClean(results[1..], known);
      OutcomeClean(results[0], known);
      assert results == [results[0]] + results[1..];
      hide IsHard, NewRedOf, Settled;
    }
  }

  lemma OutcomeClean(r: Outcome, known: seq<Triple>)
    ensures !IsHard(r) && NewRedOf(r, known) == [] <==> Settled(r, known)
  {
    UnlistedEmpty(r, r.failedTests, known);
    hide Unlisted;
  }

  lemma {:induction false} OutcomesAre(slice: seq<Target>, observe: Target -> Observation, r: Outcome)
    ensures r in Outcomes(slice, observe) <==> exists t :: t in slice && r == OutcomeOf(t, observe(t))
  {
    hide OutcomeOf;
    if slice != [] {
      OutcomesAre(slice[1..], observe, r);
      assert slice == [slice[0]] + slice[1..];
    }
  }

  // ---------------------------------------------------------------------------------------------
  // Judgement by what was observed
  // ---------------------------------------------------------------------------------------------

  /** The run printed a result and counted a test of any kind. */
  predicate RanTests(o: Observation) {
    o.listed > 0 && o.resultLines > 0 && (o.passed > 0 || o.failed > 0 || o.ignored > 0 || o.filtered > 0)
  }

  /** A run that needs no attention beyond the known-red list. With no test listed, that is one of unit tests, or of an
      integration test that is empty in debug builds. Otherwise it must have run tests, name the ones that failed if it
      failed or ended badly, and name only known-red ones. */
  predicate RunFine(t: Target, o: Observation, known: seq<Triple>) {
    if o.listed == 0 then t.kind != Test || o.releaseOnly
    else
      && RanTests(o)
      && (o.failed > 0 || o.exitCode != 0 ==> o.failedTests != [])
      && forall n :: n in o.failedTests ==> Triple(t.package, t.name, n) in known
  }

  lemma SettledExact(t: Target, o: Observation, known: seq<Triple>)
    ensures Settled(OutcomeOf(t, o), known) <==> RunFine(t, o, known)
  {
  }

  /** A run that is a hard error of its own: it died before it reported, or it ran nothing though it should have. */
  predicate HardAt(t: Target, o: Observation, status: Status) {
    || (status == Error && o.listed > 0 && o.resultLines == 0)
    || (status == Vacuous && o.listed > 0 && o.resultLines > 0 && !RanTests(o))
    || (status == Vacuous && o.listed == 0 && t.kind == Test && !o.releaseOnly)
  }

  /** A failure that the list does not know: a failing test, or failure as such when the run names none. */
  predicate RedAt(t: Target, o: Observation, e: Triple, known: seq<Triple>) {
    && RanTests(o) && e.package == t.package && e.target == t.name
    && (|| (e.test in o.failedTests && e !in known)
        || (e.test == UNATTRIBUTED && o.failedTests == [] && (o.failed > 0 || o.exitCode != 0)))
  }

  lemma {:induction false} UnlistedAre(r: Outcome, tests: seq<string>, known: seq<Triple>, e: Triple)
    ensures e in Unlisted(r, tests, known) <==>
            e.package == r.package && e.target == r.target && e.test in tests && e !in known
  {
    if tests != [] {
      UnlistedAre(r, tests[1..], known, e);
      assert tests == [tests[0]] + tests[1..];
    }
  }

  lemma NewRedOfAre(t: Target, o: Observation, known: seq<Triple>, e: Triple)
    ensures e in NewRedOf(OutcomeOf(t, o), known) <==> RedAt(t, o, e, known)
  {
    var r := OutcomeOf(t, o);
    UnlistedAre(r, r.failedTests, known, e);
    hide Unlisted;
  }

  lemma IsHardAre(t: Target, o: Observation)
    ensures IsHard(OutcomeOf(t, o)) <==> HardAt(t, o, OutcomeOf(t, o).status)
    ensures forall status :: HardAt(t, o, status) ==> OutcomeOf(t, o).status == status
    ensures OutcomeOf(t, o).package == t.package && OutcomeOf(t, o).target == t.name
  {
  }

  /** The hard errors of a report are those of the runs in it, */
  lemma {:induction false} HardErrorsAre(slice: seq<Target>, observe: Target -> Observation, h: Hard)
    ensures h in HardErrors(Outcomes(slice, observe)) <==>
            exists t :: t in slice && HardAt(t, observe(t), h.status) && h.package == t.package && h.target == t.name
  {
    if slice != [] {
      var t, rest := slice[0], slice[1..];
      HardErrorsAre(rest, observe, h);
      IsHardAre(t, observe(t));
      assert slice == [t] + rest;
      assert ([OutcomeOf(t, observe(t))] + Outcomes(rest, observe))[1..] == Outcomes(rest, observe);
      hide OutcomeOf, HardAt, IsHard;
    }
  }

  /** and so is its new red. */
  lemma {:induction false} NewRedAre(slice: seq<Target>, observe: Target -> Observation, known: seq<Triple>, e: Triple)
    ensures e in NewRed(Outcomes(slice, observe), known) <==> exists t :: t in slice && RedAt(t, observe(t), e, known)
  {
    if slice != [] {
      var t, rest := slice[0], slice[1..];
      NewRedAre(rest, observe, known, e);
      NewRedOfAre(t, observe(t), known, e);
      assert slice == [t] + rest;
      assert ([OutcomeOf(t, observe(t))] + Outcomes(rest, observe))[1..] == Outcomes(rest, observe);
      hide OutcomeOf, RedAt, NewRedOf;
    }
  }
}
