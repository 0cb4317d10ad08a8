/** The retrying put of the DHT client (src/dht.rs). */
module Dht {
  import opened Wrappers
  import opened Durations

  datatype Config = Config(
    retries: nat, baseRetryInterval: nat, maxRetryJitter: nat, putTimeout: nat)

  /** What the DHT would answer to one put: after how long, and whether with success. */
  datatype Answer = Answer(delay: nat, stored: bool)

  /** One attempt under the timeout. */
  predicate Succeeds(config: Config, a: Answer) { a.stored && a.delay <= config.putTimeout }

  function AttemptTime(config: Config, a: Answer): nat {
    if a.delay <= config.putTimeout then a.delay else config.putTimeout
  }

  /** What a call to `put_mutable` did: the time each attempt took, the resets after failed attempts
      and the sleeps after those. */
  datatype Report = Report(attempts: seq<nat>, resets: nat, sleeps: seq<nat>)

  /** Every attempt but the last was retried, after one reset and one sleep. */
  ghost predicate Accounts(config: Config, answer: nat -> Answer, random: nat -> u128, report: Report) {
    && |report.attempts| <= 1 + config.retries
    && report.resets == |report.sleeps| == (if report.attempts == [] then 0 else |report.attempts| - 1)
    && TimesOk(config, answer, report.attempts) && SleepsOk(config, random, report.sleeps)
  }

  /** An attempt takes as long as its answer, or until the timeout. */
  ghost predicate TimesOk(config: Config, answer: nat -> Answer, times: seq<nat>) {
    forall j | 0 <= j < |times| ::
      times[j] == if answer(j).delay <= config.putTimeout then answer(j).delay else config.putTimeout
  }

  ghost predicate SleepsOk(config: Config, random: nat -> u128, sleeps: seq<nat>) {
    forall j | 0 <= j < |sleeps| :: sleeps[j] == config.baseRetryInterval + Jitter(config.maxRetryJitter, random(j))
  }

  /** The attempts before `k` fail, by an error or a timeout, and each is followed by a good reset. */
  predicate RetriedUpTo(config: Config, answer: nat -> Answer, resetOk: nat -> bool, k: nat) {
    forall j: nat | j < k :: !(answer(j).stored && answer(j).delay <= config.putTimeout) && resetOk(j)
  }

  /** The last attempt made decides. */
  lemma LastAttemptDecides(config: Config, answer: nat -> Answer, resetOk: nat -> bool, k: nat, ok: bool)
    requires k <= config.retries && RetriedUpTo(config, answer, resetOk, k)
    requires ok <==> answer(k).stored && answer(k).delay <= config.putTimeout
    requires ok || k == config.retries || !resetOk(k)
    ensures ok <==> exists j :: 0 <= j <= config.retries && RetriedUpTo(config, answer, resetOk, j)
                                && answer(j).stored && answer(j).delay <= config.putTimeout
    ensures (forall j: nat | j <= config.retries :: !(answer(j).stored && answer(j).delay <= config.putTimeout))
      ==> !ok
  {
  }

  class DhtActor {
    const config: Config
    // Whether a client has been built.
    var hasClient: bool

    constructor (config: Config)
      ensures this.config == config && !hasClient
    {
      this.config := config;
      hasClient := false;
    }

    /** Builds a new client; `built` says whether that works. */
    method Reset(built: bool) returns (ok: bool)
      modifies this
      ensures ok == built && hasClient == (old(hasClient) || built)
    {
      if built {
        hasClient := true;
      }
      ok := built;
    }

    /** `first` is the outcome of the reset made when there is no client yet; `answer(k)`, `resetOk(k)`
        and `random(k)` belong to attempt `k`. The put succeeds exactly if some attempt within the
        limit is stored and every reset needed before it works. */
    method PutMutable(first: bool, answer: nat -> Answer, resetOk: nat -> bool, random: nat -> u128)
      returns (res: Result<()>, report: Report)
      modifies this
      ensures Accounts(config, answer, random, report)
      ensures hasClient == (old(hasClient) || first)
      ensures !hasClient ==> res.Err? && report.attempts == []
      ensures hasClient ==> report.attempts != [] && RetriedUpTo(config, answer, resetOk, |report.attempts| - 1)
      ensures hasClient ==>
        var k := |report.attempts| - 1;
        var stored := answer(k).stored && answer(k).delay <= config.putTimeout;
        (res.Ok? <==> stored) && (res.Ok? || k == config.retries || !resetOk(k))
      ensures hasClient ==>
        (res.Ok? <==> exists k :: 0 <= k <= config.retries && RetriedUpTo(config, answer, resetOk, k)
                                  && answer(k).stored && answer(k).delay <= config.putTimeout)
      ensures (forall k: nat | k <= config.retries :: !(answer(k).stored && answer(k).delay <= config.putTimeout))
        ==> res.Err?
    {
      if !hasClient {
        var ok := Reset(first);
        if !ok {
          return Err(DhtFailed), Report([], 0, []);
        }
      }
      var attempts: seq<nat>, resets, sleeps: seq<nat> := [], 0, [];
      for i := 0 to 1 + config.retries
        invariant hasClient && i <= config.retries
        invariant RetriedUpTo(config, answer, resetOk, i)
        invariant |attempts| == |sleeps| == resets == i
        invariant TimesOk(config, answer, attempts) && SleepsOk(config, random, sleeps)
      {
        attempts := attempts + [AttemptTime(config, answer(i))];
        if Succeeds(config, answer(i)) {
          LastAttemptDecides(config, answer, resetOk, i, true);
          return Ok(()), Report(attempts, resets, sleeps);
        } else if i == config.retries {
          LastAttemptDecides(config, answer, resetOk, i, false);
          return Err(DhtFailed), Report(attempts, resets, sleeps);
        }
        var ok := Reset(resetOk(i));
        if !ok {
          LastAttemptDecides(config, answer, resetOk, i, false);
          return Err(DhtFailed), Report(attempts, resets, sleeps);
        }
        var retryInterval := config.baseRetryInterval + Jitter(config.maxRetryJitter, random(i));
        resets, sleeps := resets + 1, sleeps + [retryInterval];
      }
    }
  }

  /** After k retried failures there were k resets and k sleeps, of between k * base and
      k * (base + max_jitter) in all, and the whole call takes at most
      (1 + retries) * put_timeout + retries * (base + max_jitter), not counting resets. */
  lemma PutTimeIsBounded(config: Config, answer: nat -> Answer, random: nat -> u128, report: Report)
    requires Accounts(config, answer, random, report) && report.attempts != []
    ensures var k := |report.attempts| - 1;
      && report.resets == k && |report.sleeps| == k
      && k * config.baseRetryInterval <= Sum(report.sleeps) <= k * (config.baseRetryInterval + config.maxRetryJitter)
    ensures Sum(report.attempts) + Sum(report.sleeps)
          <= (1 + config.retries) * config.putTimeout
           + config.retries * (config.baseRetryInterval + config.maxRetryJitter)
  {
    SumBounds(report.attempts, 0, config.putTimeout);
    SumBounds(report.sleeps, config.baseRetryInterval, config.baseRetryInterval + config.maxRetryJitter);
    MulMonotone(|report.attempts|, 1 + config.retries, config.putTimeout);
    MulMonotone(|report.sleeps|, config.retries, config.baseRetryInterval + config.maxRetryJitter);
  }
}
