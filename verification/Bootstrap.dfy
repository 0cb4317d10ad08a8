/** Whole runs of the bootstrap loop (src/gossip/topic/bootstrap.rs). */
module Bootstrap {
  import opened Wrappers
  import opened Bytes
  import opened Library
  import opened Record
  import opened RecordPublisher
  import opened PeerExtraction
  import opened BootstrapIteration
  import GossipSender

  /** A run observed for a while: the startup publish, the iterations started, and the result sent,
      if the loop has ended (`true` for `Ok`). */
  datatype Run = Run(startup: seq<Attempt>, log: seq<Iteration>, outcome: Option<bool>)

  /** The value of `last_published_unix_minute` before the loop. */
  function InitialLast(config: Config, startMinute: u64): u64 {
    if config.publishRecordOnStartup && !config.checkOlderRecordsFirstOnStartup then startMinute else 0
  }

  /** The value of `last_published_unix_minute` before iteration `n`: the minute of the last iteration
      that ended unjoined. */
  function LastPublished(config: Config, startMinute: u64, log: seq<Iteration>, n: nat): u64
    requires n <= |log|
  {
    if n == 0 then InitialLast(config, startMinute)
    else if EndsUnjoined(log[n - 1]) then log[n - 1].unixMinute
    else LastPublished(config, startMinute, log, n - 1)
  }

  ghost predicate IterationAt(
    lib: Library, node: Node, config: Config, startMinute: u64, turn: nat -> Turn, log: seq<Iteration>, i: nat)
    requires i < |log|
  {
    !turn(i).cancelled && IterationOk(lib, node, config, LastPublished(config, startMinute, log, i), turn(i), log[i])
  }

  ghost predicate ValidLog(
    lib: Library, node: Node, config: Config, startMinute: u64, turn: nat -> Turn, log: seq<Iteration>)
  {
    && (forall i: nat | i < |log| :: IterationAt(lib, node, config, startMinute, turn, log, i))
    && (forall i: nat | i < |log| - 1 :: log[i].ending == Again)
  }

  lemma {:induction false} LastPublishedOfPrefix(
    config: Config, startMinute: u64, log: seq<Iteration>, it: Iteration, n: nat)
    requires n <= |log|
    ensures LastPublished(config, startMinute, log + [it], n) == LastPublished(config, startMinute, log, n)
  {
    if n > 0 {
      LastPublishedOfPrefix(config, startMinute, log, it, n - 1);
    }
  }

  lemma ExtendLog(
    lib: Library, node: Node, config: Config, startMinute: u64, turn: nat -> Turn, log: seq<Iteration>, it: Iteration)
    requires ValidLog(lib, node, config, startMinute, turn, log)
    requires |log| > 0 ==> log[|log| - 1].ending == Again
    requires !turn(|log|).cancelled
    requires IterationOk(lib, node, config, LastPublished(config, startMinute, log, |log|), turn(|log|), it)
    ensures ValidLog(lib, node, config, startMinute, turn, log + [it])
  {
    forall i: nat | i <= |log| ensures IterationAt(lib, node, config, startMinute, turn, log + [it], i) {
      LastPublishedOfPrefix(config, startMinute, log, it, i);
      if i < |log| {
        assert IterationAt(lib, node, config, startMinute, turn, log, i);
      }
    }
  }

  /** The publish before the loop. */
  function StartupAttempts(lib: Library, node: Node, config: Config, startMinute: u64): seq<Attempt> {
    if config.publishRecordOnStartup then [Attempt(EmptyRecord(lib, node, startMinute), None)] else []
  }

  /** Some status check of the run, other than one after the joins, answered "joined". */
  predicate Found(log: seq<Iteration>) {
    exists i :: 0 <= i < |log| && FoundJoined(log[i].checks)
  }

  lemma FoundInMore(log: seq<Iteration>, it: Iteration)
    ensures Found(log + [it]) <==> Found(log) || FoundJoined(it.checks)
  {
    assert (log + [it])[|log|] == it && forall i | 0 <= i < |log| :: (log + [it])[i] == log[i];
  }

  /** What the loop does if it is observed for at most `horizon` iterations. None starts once the token
      has fired or an iteration has left the loop; on leaving it, one result is sent. */
  ghost predicate RunOk(
    lib: Library, node: Node, config: Config, startMinute: u64, turn: nat -> Turn, horizon: nat, run: Run)
  {
    && run.startup == StartupAttempts(lib, node, config, startMinute)
    && ValidLog(lib, node, config, startMinute, turn, run.log) && |run.log| <= horizon
    && (run.outcome.Some? <==>
          || (|run.log| > 0 && run.log[|run.log| - 1].ending != Again)
          || (|run.log| < horizon && turn(|run.log|).cancelled))
    && (run.outcome.None? ==> |run.log| == horizon)
    && (run.outcome.Some? ==> (run.outcome.value <==> Found(run.log)))
  }

  /** Runs the loop. The result is `Ok` exactly when some status check other than the one after the
      joins answered "joined". */
  method StartBootstrap(
    lib: Library, node: Node, config: Config, startMinute: u64, turn: nat -> Turn, horizon: nat)
    returns (run: Run)
    ensures RunOk(lib, node, config, startMinute, turn, horizon, run)
  {
    var lastPublished: u64 := 0;
    var isJoinedRet := false;
    var startup: seq<Attempt> := [];
    if config.publishRecordOnStartup {
      lastPublished := if config.checkOlderRecordsFirstOnStartup then 0 else startMinute;
      startup := [Attempt(EmptyRecord(lib, node, startMinute), None)];
    }
    var log: seq<Iteration> := [];
    while |log| < horizon
      invariant |log| <= horizon
      invariant ValidLog(lib, node, config, startMinute, turn, log)
      invariant |log| > 0 ==> log[|log| - 1].ending == Again
      invariant lastPublished == LastPublished(config, startMinute, log, |log|)
      invariant isJoinedRet <==> Found(log)
      decreases horizon - |log|
    {
      if turn(|log|).cancelled {
        return Run(startup, log, Some(isJoinedRet));
      }
      var it, last, joined := Iterate(lib, node, config, lastPublished, turn(|log|));
      ExtendLog(lib, node, config, startMinute, turn, log, it);
      LastPublishedOfPrefix(config, startMinute, log, it, |log|);
      FoundInMore(log, it);
      log := log + [it];
      lastPublished := last;
      isJoinedRet := isJoinedRet || joined;
      if it.ending != Again {
        return Run(startup, log, Some(isJoinedRet));
      }
    }
    return Run(startup, log, None);
  }

  // ---------- the read window ----------

  lemma OlderOnlyFirst(
    lib: Library, node: Node, config: Config, startMinute: u64, turn: nat -> Turn, log: seq<Iteration>, i: nat)
    requires ValidLog(lib, node, config, startMinute, turn, log) && i < |log|
    requires forall j: nat :: turn(j).unixMinute > 0
    ensures Older(config, LastPublished(config, startMinute, log, i))
       <==> i == 0 && config.checkOlderRecordsFirstOnStartup
  {
    if i > 0 {
      assert IterationAt(lib, node, config, startMinute, turn, log, i - 1);
    }
  }

  /** The older pair of slots is read in exactly the first iteration that gets past its first join
      check, which is the first of the run, and only when so configured; every other iteration at
      minute `c` reads `c - 1` and `c`. */
  lemma OlderPairOnlyFirst(
    lib: Library, node: Node, config: Config, startMinute: u64, turn: nat -> Turn, log: seq<Iteration>, i: nat)
    requires ValidLog(lib, node, config, startMinute, turn, log) && i < |log|
    requires forall j: nat :: turn(j).unixMinute > 0
    ensures log[i].unixMinute == turn(i).unixMinute
    ensures log[i].window == [] <==> turn(i).atTop != NotJoined
    ensures log[i].window != [] ==>
      log[i].window == WindowOf(log[i].unixMinute, i == 0 && config.checkOlderRecordsFirstOnStartup)
    ensures log[i].window != [] && log[i].unixMinute >= 2 ==>
      var c := log[i].unixMinute;
      log[i].window == if i == 0 && config.checkOlderRecordsFirstOnStartup then [c - 2, c - 1] else [c - 1, c]
    ensures log[i].window != [] && log[i].unixMinute == 1 ==>
      log[i].window == if i == 0 && config.checkOlderRecordsFirstOnStartup then [0, 0] else [0, 1]
    ensures forall j | 0 <= j < i :: log[j].window != []
  {
    OlderOnlyFirst(lib, node, config, startMinute, turn, log, i);
    assert IterationAt(lib, node, config, startMinute, turn, log, i);
    forall j | 0 <= j < i ensures log[j].window != [] {
      assert IterationAt(lib, node, config, startMinute, turn, log, j);
    }
  }

  /** A cached set handed to a publish holds only records of the minute being published; there is none
      exactly when the older pair was read. */
  lemma CachedRecordsBelongToTheirMinute(
    lib: Library, node: Node, config: Config, startMinute: u64, turn: nat -> Turn, log: seq<Iteration>, i: nat)
    requires ValidLog(lib, node, config, startMinute, turn, log) && i < |log|
    requires forall j: nat :: turn(j).unixMinute > 0
    ensures forall a | a in log[i].attempts ::
      && a.record == EmptyRecord(lib, node, log[i].unixMinute)
      && (a.cached.None? <==> i == 0 && config.checkOlderRecordsFirstOnStartup)
      && (a.cached.Some? ==> forall r | r in a.cached.value :: r.unixMinute == a.record.unixMinute)
  {
    OlderOnlyFirst(lib, node, config, startMinute, turn, log, i);
    assert IterationAt(lib, node, config, startMinute, turn, log, i);
    if turn(i).later.Answered? {
      RecordsAreVerified(lib, node, log[i].unixMinute, turn(i).later.items);
    }
  }

  // ---------- the publish discipline ----------

  function CountAt(attempts: seq<Attempt>, minute: u64): nat {
    if attempts == [] then 0
    else
      var last := attempts[|attempts| - 1];
      CountAt(attempts[..|attempts| - 1], minute) + if last.record.unixMinute == minute then 1 else 0
  }

  /** The publish attempts at startup and in the first `n` iterations, in order. */
  function AttemptsOf(startup: seq<Attempt>, log: seq<Iteration>, n: nat): seq<Attempt>
    requires n <= |log|
  {
    if n == 0 then startup else AttemptsOf(startup, log, n - 1) + log[n - 1].attempts
  }

  /** The minute the startup publish stands for (0 if none), then those of the iterations among the
      first `n` that ended unjoined. */
  function Minutes(config: Config, startMinute: u64, log: seq<Iteration>, n: nat): (w: seq<u64>)
    requires n <= |log|
    ensures |w| > 0 && w[0] == InitialLast(config, startMinute)
    ensures w[|w| - 1] == LastPublished(config, startMinute, log, n)
  {
    if n == 0 then [InitialLast(config, startMinute)]
    else Minutes(config, startMinute, log, n - 1) + if EndsUnjoined(log[n - 1]) then [log[n - 1].unixMinute] else []
  }

  /** How often `minute` follows another minute, or comes first. */
  function Arrivals(minutes: seq<u64>, minute: u64): nat {
    if minutes == [] then 0
    else Arrivals(minutes[..|minutes| - 1], minute) + if ArrivesLast(minutes, minute) then 1 else 0
  }

  predicate ArrivesLast(minutes: seq<u64>, minute: u64)
    requires |minutes| > 0
  {
    minutes[|minutes| - 1] == minute && (|minutes| == 1 || minutes[|minutes| - 2] != minute)
  }

  /** `minute` comes back after another minute. */
  predicate Returns(minutes: seq<u64>, minute: u64) {
    exists i, j, k :: 0 <= i < j < k < |minutes| && minutes[i] == minute != minutes[j] && minutes[k] == minute
  }

  lemma ArrivalsOfMore(before: seq<u64>, last: u64, minute: u64)
    ensures Arrivals(before + [last], minute)
         == Arrivals(before, minute)
          + if last == minute && (before == [] || before[|before| - 1] != minute) then 1 else 0
  {
    assert (before + [last])[..|before|] == before;
  }

  lemma ReturnsOfMore(before: seq<u64>, last: u64, minute: u64)
    ensures Returns(before + [last], minute) <==>
      || Returns(before, minute)
      || (last == minute && before != [] && before[|before| - 1] != minute && minute in before)
  {
    var minutes := before + [last];
    assert forall i | 0 <= i < |before| :: minutes[i] == before[i];
    if Returns(minutes, minute) {
      var i, j, k :| 0 <= i < j < k < |minutes| && minutes[i] == minute != minutes[j] && minutes[k] == minute;
      assert before[i] == minute != before[j];
      if k == |before| && before[k - 1] == minute {
        assert before[k - 1] == minute;
      }
    }
    if Returns(before, minute) {
      var i, j, k :| 0 <= i < j < k < |before| && before[i] == minute != before[j] && before[k] == minute;
      assert minutes[i] == minute != minutes[j] && minutes[k] == minute;
    }
    if last == minute && before != [] && before[|before| - 1] != minute && minute in before {
      var i :| 0 <= i < |before| && before[i] == minute;
      assert minutes[i] == minute != minutes[|before| - 1] && minutes[|before|] == minute;
    }
  }

  lemma {:induction false} ArrivalsAndReturns(minutes: seq<u64>, minute: u64)
    ensures Arrivals(minutes, minute) == 0 <==> minute !in minutes
    ensures Arrivals(minutes, minute) >= 2 <==> Returns(minutes, minute)
  {
    if minutes != [] {
      var before, last := minutes[..|minutes| - 1], minutes[|minutes| - 1];
      assert minutes == before + [last];
      ArrivalsAndReturns(before, minute);
      ArrivalsOfMore(before, last, minute);
      ReturnsOfMore(before, last, minute);
    }
  }

  /** Some iteration among the first `n` ended unjoined at `minute`. */
  predicate Unjoined(log: seq<Iteration>, n: nat, minute: u64)
    requires n <= |log|
  {
    exists i :: 0 <= i < n && EndsUnjoined(log[i]) && log[i].unixMinute == minute
  }

  lemma {:induction false} UnjoinedInMinutes(
    config: Config, startMinute: u64, log: seq<Iteration>, n: nat, minute: u64)
    requires n <= |log|
    ensures minute in Minutes(config, startMinute, log, n)
       <==> Unjoined(log, n, minute) || minute == InitialLast(config, startMinute)
  {
    if n > 0 {
      UnjoinedInMinutes(config, startMinute, log, n - 1, minute);
      assert Unjoined(log, n, minute) <==>
        Unjoined(log, n - 1, minute) || (EndsUnjoined(log[n - 1]) && log[n - 1].unixMinute == minute);
    }
  }

  lemma AttemptsOfIteration(
    lib: Library, node: Node, config: Config, startMinute: u64, turn: nat -> Turn, log: seq<Iteration>,
    i: nat, minute: u64)
    requires ValidLog(lib, node, config, startMinute, turn, log) && i < |log|
    ensures log[i].unixMinute == turn(i).unixMinute
    ensures forall a | a in log[i].attempts :: a.record == EmptyRecord(lib, node, log[i].unixMinute)
    ensures CountAt(log[i].attempts, minute)
         == if EndsUnjoined(log[i]) && log[i].unixMinute == minute
               && minute != LastPublished(config, startMinute, log, i)
            then 1 else 0
  {
    assert IterationAt(lib, node, config, startMinute, turn, log, i);
    assert log[i].attempts != [] ==> log[i].attempts[..0] == [];
  }

  lemma {:induction false} CountOfConcat(a: seq<Attempt>, b: seq<Attempt>, minute: u64)
    ensures CountAt(a + b, minute) == CountAt(a, minute) + CountAt(b, minute)
  {
    if b == [] {
      assert a + b == a;
    } else {
      CountOfConcat(a, b[..|b| - 1], minute);
      assert (a + b)[..|a + b| - 1] == a + b[..|b| - 1];
    }
  }

  lemma AttemptsAtStartup(lib: Library, node: Node, config: Config, startMinute: u64, minute: u64)
    requires minute > 0
    ensures CountAt(StartupAttempts(lib, node, config, startMinute), minute)
         == Arrivals([InitialLast(config, startMinute)], minute)
          + if config.publishRecordOnStartup && config.checkOlderRecordsFirstOnStartup && minute == startMinute
            then 1 else 0
  {
    var startup := StartupAttempts(lib, node, config, startMinute);
    assert startup != [] ==> startup[..0] == [];
    ArrivalsOfMore([], InitialLast(config, startMinute), minute);
    assert [] + [InitialLast(config, startMinute)] == [InitialLast(config, startMinute)];
  }

  lemma ArrivalsOfIteration(config: Config, startMinute: u64, log: seq<Iteration>, n: nat, minute: u64)
    requires 0 < n <= |log|
    ensures Arrivals(Minutes(config, startMinute, log, n), minute)
         == Arrivals(Minutes(config, startMinute, log, n - 1), minute)
          + if EndsUnjoined(log[n - 1]) && log[n - 1].unixMinute == minute
               && minute != LastPublished(config, startMinute, log, n - 1)
            then 1 else 0
  {
    var before := Minutes(config, startMinute, log, n - 1);
    ArrivalsOfMore(before, log[n - 1].unixMinute, minute);
    assert before + [] == before;
  }

  lemma AttemptsOfStep(
    lib: Library, node: Node, config: Config, startMinute: u64, turn: nat -> Turn, log: seq<Iteration>,
    n: nat, minute: u64)
    requires ValidLog(lib, node, config, startMinute, turn, log) && 0 < n <= |log|
    ensures var startup := StartupAttempts(lib, node, config, startMinute);
      CountAt(AttemptsOf(startup, log, n), minute)
      == CountAt(AttemptsOf(startup, log, n - 1), minute)
       + if EndsUnjoined(log[n - 1]) && log[n - 1].unixMinute == minute
            && minute != LastPublished(config, startMinute, log, n - 1)
         then 1 else 0
  {
    AttemptsOfIteration(lib, node, config, startMinute, turn, log, n - 1, minute);
    CountOfConcat(AttemptsOf(StartupAttempts(lib, node, config, startMinute), log, n - 1),
                  log[n - 1].attempts, minute);
  }

  /** The exact number of attempts for every minute, whatever the clock does: one each time the minute
      is taken up after another one, by the startup publish or by an iteration that ends unjoined; and
      one more for a startup publish that the loop does not take into account. */
  lemma {:induction false} AttemptCount(
    lib: Library, node: Node, config: Config, startMinute: u64, turn: nat -> Turn, log: seq<Iteration>,
    n: nat, minute: u64)
    requires ValidLog(lib, node, config, startMinute, turn, log) && n <= |log| && minute > 0
    ensures CountAt(AttemptsOf(StartupAttempts(lib, node, config, startMinute), log, n), minute)
         == Arrivals(Minutes(config, startMinute, log, n), minute)
          + if config.publishRecordOnStartup && config.checkOlderRecordsFirstOnStartup && minute == startMinute
            then 1 else 0
  {
    if n == 0 {
      AttemptsAtStartup(lib, node, config, startMinute, minute);
    } else {
      AttemptCount(lib, node, config, startMinute, turn, log, n - 1, minute);
      AttemptsOfStep(lib, node, config, startMinute, turn, log, n, minute);
      ArrivalsOfIteration(config, startMinute, log, n, minute);
    }
  }

  /** The publish discipline, whatever the clock does: a minute has an attempt exactly if an iteration
      ended unjoined in it or the startup publish was for it, and has a second one exactly if the clock
      came back to it, or at startup with both startup options set. */
  lemma PublishDiscipline(
    lib: Library, node: Node, config: Config, startMinute: u64, turn: nat -> Turn, horizon: nat, run: Run,
    minute: u64)
    requires RunOk(lib, node, config, startMinute, turn, horizon, run) && minute > 0
    ensures var attempts := CountAt(AttemptsOf(run.startup, run.log, |run.log|), minute);
      var unjoined := Unjoined(run.log, |run.log|, minute);
      var atStartup := config.publishRecordOnStartup && minute == startMinute;
      && (attempts >= 1 <==> unjoined || atStartup)
      && (attempts >= 2 <==>
            || Returns(Minutes(config, startMinute, run.log, |run.log|), minute)
            || (atStartup && config.checkOlderRecordsFirstOnStartup && unjoined))
  {
    AttemptCount(lib, node, config, startMinute, turn, run.log, |run.log|, minute);
    ArrivalsAndReturns(Minutes(config, startMinute, run.log, |run.log|), minute);
    UnjoinedInMinutes(config, startMinute, run.log, |run.log|, minute);
  }

  /** The attempt behind an iteration that ends unjoined. */
  lemma {:induction false} AttemptExists(
    lib: Library, node: Node, config: Config, startMinute: u64, turn: nat -> Turn, log: seq<Iteration>,
    n: nat, minute: u64)
    requires ValidLog(lib, node, config, startMinute, turn, log) && n <= |log|
    ensures var attempts := AttemptsOf(StartupAttempts(lib, node, config, startMinute), log, n);
      && (forall a | a in attempts :: a.record == EmptyRecord(lib, node, a.record.unixMinute))
      && (minute > 0 && Unjoined(log, n, minute) ==>
            exists i :: 0 <= i < |attempts| && attempts[i].record.unixMinute == minute)
  {
    var startup := StartupAttempts(lib, node, config, startMinute);
    if minute > 0 && Unjoined(log, n, minute) {
      AttemptCount(lib, node, config, startMinute, turn, log, n, minute);
      ArrivalsAndReturns(Minutes(config, startMinute, log, n), minute);
      UnjoinedInMinutes(config, startMinute, log, n, minute);
      CountedAttempt(AttemptsOf(startup, log, n), minute);
    }
    if n > 0 {
      AttemptExists(lib, node, config, startMinute, turn, log, n - 1, 0);
      AttemptsOfIteration(lib, node, config, startMinute, turn, log, n - 1, minute);
    }
  }

  lemma {:induction false} CountedAttempt(attempts: seq<Attempt>, minute: u64)
    requires CountAt(attempts, minute) > 0
    ensures exists i :: 0 <= i < |attempts| && attempts[i].record.unixMinute == minute
  {
    var n := |attempts| - 1;
    if attempts[n].record.unixMinute != minute {
      CountedAttempt(attempts[..n], minute);
      var i :| 0 <= i < n && attempts[..n][i].record.unixMinute == minute;
      assert attempts[i].record.unixMinute == minute;
    }
  }

  // ---------- clocks ----------

  /** A clock that does not go back. */
  ghost predicate Clock(startMinute: u64, turn: nat -> Turn) {
    && (forall i: nat :: startMinute <= turn(i).unixMinute)
    && (forall i: nat, j: nat | i <= j :: turn(i).unixMinute <= turn(j).unixMinute)
  }

  /** `minutes` ascend up to `now`. */
  predicate Ascend(minutes: seq<u64>, now: u64) {
    && (forall i, j | 0 <= i < j < |minutes| :: minutes[i] <= minutes[j])
    && (forall i | 0 <= i < |minutes| :: minutes[i] <= now)
  }

  lemma AscendMore(before: seq<u64>, last: u64, now: u64)
    requires Ascend(before, last) && last <= now
    ensures Ascend(before, now) && Ascend(before + [last], now)
  {
  }

  lemma {:induction false} MinutesAscend(
    lib: Library, node: Node, config: Config, startMinute: u64, turn: nat -> Turn, log: seq<Iteration>, n: nat)
    requires ValidLog(lib, node, config, startMinute, turn, log) && Clock(startMinute, turn) && n <= |log|
    ensures Ascend(Minutes(config, startMinute, log, n), turn(n).unixMinute)
  {
    assert startMinute <= turn(n).unixMinute;
    if n > 0 {
      MinutesAscend(lib, node, config, startMinute, turn, log, n - 1);
      AttemptsOfIteration(lib, node, config, startMinute, turn, log, n - 1, 0);
      var before := Minutes(config, startMinute, log, n - 1);
      assert turn(n - 1).unixMinute <= turn(n).unixMinute;
      AscendMore(before, log[n - 1].unixMinute, turn(n).unixMinute);
      assert before + [] == before;
    }
  }

  /** The minute last published is one in which an iteration ended unjoined, if there is any. */
  lemma {:induction false} LastPublishedIsUnjoined(config: Config, startMinute: u64, log: seq<Iteration>, n: nat)
    requires n <= |log|
    ensures || Unjoined(log, n, LastPublished(config, startMinute, log, n))
            || (LastPublished(config, startMinute, log, n) == InitialLast(config, startMinute)
                && forall i | 0 <= i < n :: !EndsUnjoined(log[i]))
  {
    if n > 0 && !EndsUnjoined(log[n - 1]) {
      LastPublishedIsUnjoined(config, startMinute, log, n - 1);
    }
  }

  /** With a clock that does not go back, the minute last published is the newest minute in which an
      iteration ended unjoined. */
  lemma LastPublishedIsNewest(
    lib: Library, node: Node, config: Config, startMinute: u64, turn: nat -> Turn, log: seq<Iteration>, n: nat)
    requires ValidLog(lib, node, config, startMinute, turn, log) && Clock(startMinute, turn) && n <= |log|
    ensures forall i | 0 <= i < n && EndsUnjoined(log[i]) ::
      log[i].unixMinute <= LastPublished(config, startMinute, log, n)
    ensures || Unjoined(log, n, LastPublished(config, startMinute, log, n))
            || (LastPublished(config, startMinute, log, n) == InitialLast(config, startMinute)
                && forall i | 0 <= i < n :: !EndsUnjoined(log[i]))
  {
    var w := Minutes(config, startMinute, log, n);
    MinutesAscend(lib, node, config, startMinute, turn, log, n);
    LastPublishedIsUnjoined(config, startMinute, log, n);
    forall i | 0 <= i < n && EndsUnjoined(log[i])
      ensures log[i].unixMinute <= LastPublished(config, startMinute, log, n)
    {
      UnjoinedInMinutes(config, startMinute, log, n, log[i].unixMinute);
      var j :| 0 <= j < |w| && w[j] == log[i].unixMinute;
    }
  }

  /** With a clock that does not go back no minute gets two attempts, except the startup minute when
      both startup options are set. */
  lemma PublishedOncePerMinute(
    lib: Library, node: Node, config: Config, startMinute: u64, turn: nat -> Turn, horizon: nat, run: Run,
    minute: u64)
    requires RunOk(lib, node, config, startMinute, turn, horizon, run) && minute > 0
    requires Clock(startMinute, turn)
    ensures CountAt(AttemptsOf(run.startup, run.log, |run.log|), minute)
         == (if Unjoined(run.log, |run.log|, minute) || (config.publishRecordOnStartup && minute == startMinute)
             then 1 else 0)
          + (if && config.publishRecordOnStartup && config.checkOlderRecordsFirstOnStartup
                && minute == startMinute && Unjoined(run.log, |run.log|, minute)
             then 1 else 0)
  {
    var w := Minutes(config, startMinute, run.log, |run.log|);
    AttemptCount(lib, node, config, startMinute, turn, run.log, |run.log|, minute);
    ArrivalsAndReturns(w, minute);
    UnjoinedInMinutes(config, startMinute, run.log, |run.log|, minute);
    MinutesAscend(lib, node, config, startMinute, turn, run.log, |run.log|);
    assert !Returns(w, minute);
  }

  // ---------- runs in which nothing is found ----------

  /** A turn in which both reads fail and nobody is joined. */
  function IdleTurn(unixMinute: u64): Turn {
    Turn(false, NotJoined, unixMinute, FetchFailed, FetchFailed, NotJoined,
         _ => PeerTurn(false, SleepOver, NotJoined), NotJoined, SleepOver, NotJoined, SleepOver)
  }

  function IdleIteration(lib: Library, node: Node, config: Config, last: u64, unixMinute: u64): Iteration {
    Iteration([Check(AtTop, NotJoined)], unixMinute, WindowOf(unixMinute, Older(config, last)), {}, {}, [],
              AttemptsIfDue(lib, node, unixMinute, last, if Older(config, last) then None else Some({})), Again)
  }

  lemma IdleIterationOk(lib: Library, node: Node, config: Config, last: u64, unixMinute: u64)
    ensures IterationOk(lib, node, config, last, IdleTurn(unixMinute),
                        IdleIteration(lib, node, config, last, unixMinute))
  {
  }

  function IdleTurns(minutes: seq<u64>): nat -> Turn {
    (i: nat) => if i < |minutes| then IdleTurn(minutes[i]) else IdleTurn(0)
  }

  /** The log of a run of idle iterations at the first `n` of `minutes`. */
  ghost predicate IdleLog(
    lib: Library, node: Node, config: Config, startMinute: u64, minutes: seq<u64>, log: seq<Iteration>)
  {
    && |log| <= |minutes| && ValidLog(lib, node, config, startMinute, IdleTurns(minutes), log)
    && (forall j | 0 <= j < |log| :: log[j].ending == Again && log[j].unixMinute == minutes[j])
    && Minutes(config, startMinute, log, |log|) == [InitialLast(config, startMinute)] + minutes[..|log|]
  }

  lemma IdleLogGrows(
    lib: Library, node: Node, config: Config, startMinute: u64, minutes: seq<u64>, log: seq<Iteration>)
    returns (log': seq<Iteration>)
    requires IdleLog(lib, node, config, startMinute, minutes, log) && |log| < |minutes|
    ensures |log'| == |log| + 1 && IdleLog(lib, node, config, startMinute, minutes, log')
  {
    var minute := minutes[|log|];
    var last := LastPublished(config, startMinute, log, |log|);
    var it := IdleIteration(lib, node, config, last, minute);
    log' := log + [it];
    IdleIterationOk(lib, node, config, last, minute);
    ExtendLog(lib, node, config, startMinute, IdleTurns(minutes), log, it);
    MinutesOfPrefix(config, startMinute, log, it, |log|);
    assert minutes[..|log'|] == minutes[..|log|] + [minute];
  }

  /** For every sequence of minutes there is a run whose iterations end unjoined at just these. */
  lemma RunOfMinutes(lib: Library, node: Node, config: Config, startMinute: u64, minutes: seq<u64>)
    returns (turn: nat -> Turn, run: Run)
    ensures RunOk(lib, node, config, startMinute, turn, |minutes|, run)
    ensures |run.log| == |minutes|
    ensures forall i | 0 <= i < |minutes| :: EndsUnjoined(run.log[i]) && run.log[i].unixMinute == minutes[i]
    ensures Minutes(config, startMinute, run.log, |minutes|) == [InitialLast(config, startMinute)] + minutes
  {
    turn := IdleTurns(minutes);
    var log: seq<Iteration> := [];
    for i := 0 to |minutes|
      invariant |log| == i && IdleLog(lib, node, config, startMinute, minutes, log)
    {
      log := IdleLogGrows(lib, node, config, startMinute, minutes, log);
    }
    run := Run(StartupAttempts(lib, node, config, startMinute), log, None);
    assert minutes[..|minutes|] == minutes;
  }

  lemma {:induction false} MinutesOfPrefix(
    config: Config, startMinute: u64, log: seq<Iteration>, it: Iteration, n: nat)
    requires n <= |log|
    ensures Minutes(config, startMinute, log + [it], n) == Minutes(config, startMinute, log, n)
  {
    if n > 0 {
      MinutesOfPrefix(config, startMinute, log, it, n - 1);
    }
  }

  /** A clock that goes back by one minute makes the loop publish twice for a minute. */
  lemma ClockStepsBack(lib: Library, node: Node, config: Config, startMinute: u64, minute: u64)
    returns (turn: nat -> Turn, run: Run)
    requires !config.publishRecordOnStartup && 0 < minute < U64_LIMIT - 1
    ensures RunOk(lib, node, config, startMinute, turn, 3, run)
    ensures |run.log| == 3 && run.log[0].unixMinute == run.log[2].unixMinute == minute
    ensures run.log[1].unixMinute == minute + 1
    ensures CountAt(AttemptsOf(run.startup, run.log, 3), minute) == 2
  {
    turn, run := RunOfMinutes(lib, node, config, startMinute, [minute, minute + 1, minute]);
    AttemptCount(lib, node, config, startMinute, turn, run.log, 3, minute);
    ArrivalsAfterStepBack(minute);
    assert [0] + [minute, minute + 1, minute] == [0, minute, minute + 1, minute];
  }

  lemma ArrivalsAfterStepBack(minute: u64)
    requires 0 < minute < U64_LIMIT - 1
    ensures Arrivals([0, minute, minute + 1, minute], minute) == 2
  {
    ArrivalsOfMore([], 0, minute);
    ArrivalsOfMore([0], minute, minute);
    ArrivalsOfMore([0, minute], minute + 1, minute);
    ArrivalsOfMore([0, minute, minute + 1], minute, minute);
    assert [] + [0] == [0] && [0] + [minute] == [0, minute];
    assert [0, minute] + [minute + 1] == [0, minute, minute + 1];
    assert [0, minute, minute + 1] + [minute] == [0, minute, minute + 1, minute];
  }

  // ---------- the outcome ----------

  /** Within one iteration the status, once "joined", stays so. */
  predicate Stable(checks: seq<Check>) {
    forall a, b | 0 <= a < b < |checks| :: checks[a].status == Joined ==> checks[b].status == Joined
  }

  predicate AnsweredJoined(checks: seq<Check>) {
    exists a :: 0 <= a < |checks| && checks[a].status == Joined
  }

  /** Some status check of the run answered "joined". */
  predicate Answered(log: seq<Iteration>) {
    exists i :: 0 <= i < |log| && AnsweredJoined(log[i].checks)
  }

  /** Some status check answered "joined", but only such as are made after the joins. */
  predicate OnlyAfterJoins(log: seq<Iteration>) {
    && Answered(log)
    && forall i, c | 0 <= i < |log| && c in log[i].checks && c.status == Joined :: c.site == AfterJoins
  }

  /** The result agrees with "some check answered joined" exactly unless all positive answers came
      after the joins; each of these was followed by a check that did not confirm it. */
  lemma OutcomeIsExact(
    lib: Library, node: Node, config: Config, startMinute: u64, turn: nat -> Turn, horizon: nat, run: Run)
    requires RunOk(lib, node, config, startMinute, turn, horizon, run) && run.outcome.Some?
    ensures (run.outcome.value <==> Answered(run.log)) <==> !OnlyAfterJoins(run.log)
    ensures forall i | 0 <= i < |run.log| && OnlyAfterJoins(run.log) && AnsweredJoined(run.log[i].checks) ::
      var checks := run.log[i].checks;
      && |checks| >= 2 && checks[|checks| - 2] == Check(AfterJoins, Joined)
      && checks[|checks| - 1].site == AtEnd && checks[|checks| - 1].status != Joined
  {
    forall i, c | 0 <= i < |run.log| && c in run.log[i].checks && c.status == Joined
      ensures AnsweredJoined(run.log[i].checks)
      ensures c.site != AfterJoins ==> FoundJoined(run.log[i].checks)
    {
      assert c == Check(c.site, Joined);
      var a :| 0 <= a < |run.log[i].checks| && run.log[i].checks[a] == c;
    }
    forall i: nat | i < |run.log| && FoundJoined(run.log[i].checks)
      ensures AnsweredJoined(run.log[i].checks) && !OnlyAfterJoins(run.log)
    {
      var c :| c in run.log[i].checks && c.status == Joined && c.site != AfterJoins;
    }
    forall i: nat | i < |run.log| && OnlyAfterJoins(run.log) && AnsweredJoined(run.log[i].checks)
      ensures Check(AfterJoins, Joined) in run.log[i].checks
      ensures PositiveAnswersEnd(run.log[i].checks, !EndsUnjoined(run.log[i]))
    {
      var a :| 0 <= a < |run.log[i].checks| && run.log[i].checks[a].status == Joined;
      assert run.log[i].checks[a] in run.log[i].checks;
      assert run.log[i].checks[a] == Check(AfterJoins, Joined);
      assert IterationAt(lib, node, config, startMinute, turn, run.log, i);
      IterationFacts(lib, node, config, LastPublished(config, startMinute, run.log, i), turn(i), run.log[i]);
    }
  }

  /** A result is sent only if the token fired or some check of the last iteration did not answer "not
      joined". */
  lemma ResultHasAReason(
    lib: Library, node: Node, config: Config, startMinute: u64, turn: nat -> Turn, horizon: nat, run: Run)
    requires RunOk(lib, node, config, startMinute, turn, horizon, run) && run.outcome.Some?
    ensures || (|run.log| < horizon && turn(|run.log|).cancelled)
            || (|run.log| > 0 && Interrupted(turn(|run.log| - 1), run.log[|run.log| - 1]))
  {
    if |run.log| > 0 && run.log[|run.log| - 1].ending != Again {
      var i := |run.log| - 1;
      assert IterationAt(lib, node, config, startMinute, turn, run.log, i);
      LeavingHasAReason(lib, node, config, LastPublished(config, startMinute, run.log, i), turn(i), run.log[i]);
    }
  }

  /** Conversely, the token firing in the last wait of an iteration makes it the last and a result is
      sent; any other wake-up there, a join signal in particular, makes the loop go on. */
  lemma LastWakeDecides(
    lib: Library, node: Node, config: Config, startMinute: u64, turn: nat -> Turn, horizon: nat, run: Run, i: nat)
    requires RunOk(lib, node, config, startMinute, turn, horizon, run)
    requires i < |run.log| && EndsUnjoined(run.log[i])
    ensures turn(i).lastWake == TokenCancelled ==> i == |run.log| - 1 && run.outcome.Some?
    ensures turn(i).lastWake != TokenCancelled && i + 1 < horizon && !turn(i + 1).cancelled ==> i + 1 < |run.log|
  {
    assert IterationAt(lib, node, config, startMinute, turn, run.log, i);
    LoopGoesOn(lib, node, config, LastPublished(config, startMinute, run.log, i), turn(i), run.log[i]);
  }

  /** Without the token and with nothing but "not joined", the loop never ends. */
  lemma UndisturbedLoopGoesOn(
    lib: Library, node: Node, config: Config, startMinute: u64, turn: nat -> Turn, horizon: nat, run: Run)
    requires RunOk(lib, node, config, startMinute, turn, horizon, run)
    requires forall i: nat :: !turn(i).cancelled && turn(i).lastWake != TokenCancelled
                              && turn(i).confirmWake != TokenCancelled
    requires forall i: nat, p: nat :: turn(i).peer(p).wake != TokenCancelled
    requires forall i | 0 <= i < |run.log| :: NeverJoinedNorFailed(run.log[i].checks)
    ensures run.outcome == None && |run.log| == horizon
  {
    if run.outcome.Some? {
      ResultHasAReason(lib, node, config, startMinute, turn, horizon, run);
    }
  }

  lemma Enumerate(nodes: set<Bytes32>) returns (list: seq<Bytes32>)
    ensures GossipSender.Distinct(list) && forall k :: k in list <==> k in nodes
  {
    list := [];
    var rest := nodes;
    while rest != {}
      invariant rest <= nodes && GossipSender.Distinct(list) && forall k :: k in list <==> k in nodes - rest
      decreases |rest|
    {
      var k :| k in rest;
      assert forall i | 0 <= i < |list| :: list[i] in list;
      list, rest := list + [k], rest - {k};
    }
  }

  const UNCONFIRMED := [Check(BeforeJoins, NotJoined), Check(AfterJoins, Joined), Check(AtEnd, NotJoined)]

  lemma UnconfirmedConnect(nodes: set<Bytes32>, t: Turn) returns (joins: seq<Bytes32>)
    requires forall i: nat :: !t.peer(i).requestSent
    requires t.beforeJoins == NotJoined && t.afterJoins == Joined && t.atEnd == NotJoined
    ensures ConnectOk(nodes, t, joins, UNCONFIRMED, true)
  {
    joins := Enumerate(nodes);
    NoPeerChecks(t.peer, |joins|);
  }

  /** An iteration in which everything read is asked to join, only the check after the joins answers
      "joined", and the next one does not confirm it. */
  lemma UnconfirmedIteration(
    lib: Library, node: Node, config: Config, last: u64, t: Turn, items: seq<Item>)
    returns (it: Iteration)
    requires t == IdleTurn(t.unixMinute).(later := Fetch.Answered(items), afterJoins := Joined)
    requires Records(lib, node, WindowOf(t.unixMinute, Older(config, last))[1], items) != {}
    ensures IterationOk(lib, node, config, last, t, it) && it.ending == Again
    ensures it.checks ==
      [Check(AtTop, NotJoined), Check(BeforeJoins, NotJoined), Check(AfterJoins, Joined), Check(AtEnd, NotJoined)]
  {
    var window := WindowOf(t.unixMinute, Older(config, last));
    var records := Records(lib, node, window[1], items);
    var nodes := BootstrapNodes(lib, PubKey(lib, node), records);
    var joins := UnconfirmedConnect(nodes, t);
    var attempts := AttemptsIfDue(lib, node, t.unixMinute, last, if Older(config, last) then None else Some(records));
    it := Iteration([Check(AtTop, NotJoined)] + UNCONFIRMED, t.unixMinute, window, records, nodes, joins, attempts,
                    Again);
    assert it.checks[1..] == UNCONFIRMED;
    assert RecordsOrNone(lib, node, window[0], t.earlier) == {};
    assert it.records == {} + RecordsOrNone(lib, node, window[1], t.later);
  }

  /** Such runs exist: whenever the slot holds a record, a positive answer after the joins that is not
      confirmed, followed by cancellation, ends in an error. */
  lemma PositiveAnswerIsMissed(
    lib: Library, node: Node, config: Config, startMinute: u64, unixMinute: u64, items: seq<Item>)
    returns (turn: nat -> Turn, run: Run)
    requires var window := WindowOf(unixMinute, Older(config, InitialLast(config, startMinute)));
      Records(lib, node, window[1], items) != {}
    ensures RunOk(lib, node, config, startMinute, turn, 2, run)
    ensures OnlyAfterJoins(run.log) && run.outcome == Some(false)
  {
    var t := IdleTurn(unixMinute).(later := Fetch.Answered(items), afterJoins := Joined);
    var stop := IdleTurn(unixMinute).(cancelled := true);
    turn := (i: nat) => if i == 0 then t else stop;
    var it := UnconfirmedIteration(lib, node, config, InitialLast(config, startMinute), t, items);
    run := RunOfOne(lib, node, config, startMinute, turn, it);
    UnconfirmedAnswer(it);
  }

  lemma UnconfirmedAnswer(it: Iteration)
    requires it.checks ==
      [Check(AtTop, NotJoined), Check(BeforeJoins, NotJoined), Check(AfterJoins, Joined), Check(AtEnd, NotJoined)]
    ensures OnlyAfterJoins([it]) && !FoundJoined(it.checks)
  {
    assert it.checks[2].status == Joined;
    assert AnsweredJoined([it][0].checks);
  }

  /** One iteration, then cancellation. */
  lemma RunOfOne(lib: Library, node: Node, config: Config, startMinute: u64, turn: nat -> Turn, it: Iteration)
    returns (run: Run)
    requires IterationOk(lib, node, config, InitialLast(config, startMinute), turn(0), it) && it.ending == Again
    requires !turn(0).cancelled && turn(1).cancelled
    ensures RunOk(lib, node, config, startMinute, turn, 2, run)
    ensures run.log == [it] && run.outcome == Some(FoundJoined(it.checks))
  {
    ExtendLog(lib, node, config, startMinute, turn, [], it);
    assert [] + [it] == [it];
    run := Run(StartupAttempts(lib, node, config, startMinute), [it], Some(FoundJoined(it.checks)));
    assert FoundJoined(it.checks) ==> FoundJoined(run.log[0].checks);
  }

  lemma {:induction false} NoPeerChecks(peer: nat -> PeerTurn, n: nat)
    requires forall i: nat | i < n :: !peer(i).requestSent
    ensures PeerChecks(peer, n) == []
  {
    if n > 0 {
      NoPeerChecks(peer, n - 1);
    }
  }

  lemma StableChecks(checks: seq<Check>, leaves: bool)
    requires PositiveAnswersEnd(checks, leaves) && Stable(checks)
    ensures AnsweredJoined(checks) <==> FoundJoined(checks)
    ensures AnsweredJoined(checks) ==> leaves
  {
    if AnsweredJoined(checks) {
      var last := checks[|checks| - 1];
      assert last.status == Joined && last in checks;
      assert last.site != AfterJoins;
    }
  }

  /** If the status is stable within each iteration, `Ok` is sent exactly when some check answered
      "joined", and then the iteration with that check is the last. */
  lemma StableStatusDecidesOutcome(
    lib: Library, node: Node, config: Config, startMinute: u64, turn: nat -> Turn, horizon: nat, run: Run)
    requires RunOk(lib, node, config, startMinute, turn, horizon, run)
    requires forall i | 0 <= i < |run.log| :: Stable(run.log[i].checks)
    ensures run.outcome == Some(true) <==> Answered(run.log)
    ensures forall i | 0 <= i < |run.log| && AnsweredJoined(run.log[i].checks) :: i == |run.log| - 1
  {
    forall i: nat | i < |run.log|
      ensures AnsweredJoined(run.log[i].checks) <==> FoundJoined(run.log[i].checks)
      ensures AnsweredJoined(run.log[i].checks) ==> i == |run.log| - 1 && run.log[i].ending != Again
    {
      assert IterationAt(lib, node, config, startMinute, turn, run.log, i);
      IterationFacts(lib, node, config, LastPublished(config, startMinute, run.log, i), turn(i), run.log[i]);
      StableChecks(run.log[i].checks, !EndsUnjoined(run.log[i]));
    }
  }

  // ---------- the joins ----------

  /** Only nodes found in the records are asked to join, none twice, and an iteration that ends
      unjoined without any other answer has asked them all. */
  lemma JoinsAreTheNodes(
    lib: Library, node: Node, config: Config, startMinute: u64, turn: nat -> Turn, log: seq<Iteration>, i: nat)
    requires ValidLog(lib, node, config, startMinute, turn, log) && i < |log|
    ensures GossipSender.Distinct(log[i].joins) && forall k | k in log[i].joins :: k in log[i].nodes
    ensures EndsUnjoined(log[i]) && NeverJoinedNorFailed(log[i].checks) ==>
      forall k :: k in log[i].joins <==> k in log[i].nodes
    ensures PubKey(lib, node) !in log[i].joins
  {
    assert IterationAt(lib, node, config, startMinute, turn, log, i);
    var it, t := log[i], turn(i);
    IterationFacts(lib, node, config, LastPublished(config, startMinute, log, i), t, it);
    if it.window != [] {
      var self := PubKey(lib, node);
      forall r | r in it.records ensures r.pubKey != self {
        if t.earlier.Answered? { RecordsAreVerified(lib, node, it.window[0], t.earlier.items); }
        if t.later.Answered? { RecordsAreVerified(lib, node, it.window[1], t.later.items); }
      }
      BootstrapExtractsTheSame(lib, self, {}, it.records);
    }
  }

  // ---------- the publishing task ----------

  function EmptyItem(lib: Library, node: Node, unixMinute: u64, entropy: Entropy): Result<Item> {
    HonestItem(lib, node, unixMinute, EMPTY_CONTENT, entropy)
  }

  /** The task puts the node's gossip item for the minute of the attempt, exactly if it is not cancelled
      and the cached or fetched slot is not full. */
  ghost predicate TaskOk(
    lib: Library, node: Node, attempt: Attempt, fetch: Fetch, entropy: Entropy, course: Course, put: Option<Put>)
  {
    && (put.Some? <==> HasRoom(lib, node, attempt, fetch, course))
    && (put.Some? ==>
          && put.value.topic == node.topic && put.value.unixMinute == attempt.record.unixMinute
          && EmptyItem(lib, node, attempt.record.unixMinute, entropy) == Ok(put.value.item))
  }

  predicate HasRoom(lib: Library, node: Node, attempt: Attempt, fetch: Fetch, course: Course) {
    && course != CutBeforePut && (attempt.cached.Some? || fetch.Answered?)
    && |Known(lib, node, attempt.record.unixMinute, attempt.cached, fetch)| < node.maxBootstrapRecords
  }

  /** The task an attempt is handed to: it publishes under the capacity check and drops any error. */
  method PublishRecordFireAndForget(
    lib: Library, node: Node, attempt: Attempt, fetch: Fetch, entropy: Entropy, course: Course)
    returns (put: Option<Put>)
    requires lib.SealLaw() && lib.ContentLaw()
    requires attempt.record == EmptyRecord(lib, node, attempt.record.unixMinute)
    ensures TaskOk(lib, node, attempt, fetch, entropy, course, put)
  {
    var res;
    res, put := PublishRecordCached(lib, node, attempt.record, attempt.cached, fetch, entropy, course);
    PublishIsTask(lib, node, attempt, fetch, entropy, course, res, put);
  }

  lemma PublishIsTask(
    lib: Library, node: Node, attempt: Attempt, fetch: Fetch, entropy: Entropy, course: Course,
    res: Result<()>, put: Option<Put>)
    requires lib.SealLaw() && lib.ContentLaw()
    requires attempt.record == EmptyRecord(lib, node, attempt.record.unixMinute)
    requires PublishOk(lib, node, attempt.record, attempt.cached, fetch, entropy, course, res, put)
    ensures TaskOk(lib, node, attempt, fetch, entropy, course, put)
  {
    var unixMinute := attempt.record.unixMinute;
    GossipRecordsFit(lib, node.topic, unixMinute, EMPTY_CONTENT, node.signingKey,
                     EncryptionKey(lib, node, unixMinute), entropy);
  }
}
