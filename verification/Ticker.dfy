/** The tick schedule of the publisher and of both merge actors: `Publisher::new` and `run` in
    src/gossip/topic/publisher.rs, and the same loop in src/gossip/merge/. */
module Ticker {
  import opened Durations

  /** What one turn of the actor's `select!` yields. A request takes `work`; a tick is noticed `late`
      after it is due, its handler takes `work`, and then `random` is drawn. */
  datatype Turn =
    | Call(work: nat)
    | Tick(late: nat, work: nat, random: u128)
    | HandlesGone
    | TokenCancelled

  /** Consecutive ticks are at least `gap` apart. */
  ghost predicate Spaced(ticks: seq<nat>, gap: nat) {
    forall i | 0 <= i < |ticks| - 1 :: ticks[i] + gap <= ticks[i + 1]
  }

  function TicksAmong(turns: seq<Turn>, n: nat): nat
    requires n <= |turns|
  {
    if n == 0 then 0 else TicksAmong(turns, n - 1) + if turns[n - 1].Tick? then 1 else 0
  }

  datatype Schedule = Schedule(now: nat, deadline: nat, ticks: seq<nat>, waits: seq<nat>)

  /** A tick fires when it is due and noticed; the next one is due a wait after its handler is done.
      Requests only take time. */
  function Served(s: Schedule, turn: Turn, baseInterval: nat, maxJitter: nat): Schedule {
    match turn
    case Call(work) => s.(now := s.now + work)
    case Tick(late, work, random) =>
      var at := (if s.now < s.deadline then s.deadline else s.now) + late;
      var wait := baseInterval + Jitter(maxJitter, random);
      Schedule(at + work, at + work + wait, s.ticks + [at], s.waits + [wait])
    case HandlesGone => s
    case TokenCancelled => s
  }

  function ServedAll(s: Schedule, turns: seq<Turn>, n: nat, baseInterval: nat, maxJitter: nat): Schedule
    requires n <= |turns|
  {
    if n == 0 then s
    else Served(ServedAll(s, turns, n - 1, baseInterval, maxJitter), turns[n - 1], baseInterval, maxJitter)
  }

  class TickerActor {
    const baseInterval: nat
    const maxJitter: nat
    const firstDeadline: nat
    var now: nat
    var deadline: nat
    // When the ticks fired, and the waiting time set after each.
    var ticks: seq<nat>
    var waits: seq<nat>

    ghost predicate Valid()
      reads this
    {
      && baseInterval >= SECOND
      && Spaced(ticks, baseInterval)
      && |waits| == |ticks|
      && (ticks == [] ==> deadline == firstDeadline)
      && (ticks != [] ==> firstDeadline <= ticks[0])
      && (ticks != [] ==> deadline >= ticks[|ticks| - 1] + waits[|waits| - 1])
      && (forall i | 0 <= i < |waits| :: baseInterval <= waits[i])
      && (forall i | 0 <= i < |waits| ::
            if maxJitter > 0 then waits[i] < baseInterval + maxJitter else waits[i] == baseInterval)
    }

    constructor (start: nat, initialDelay: nat, baseInterval: nat, maxJitter: nat)
      ensures Valid() && ticks == [] && now == start && deadline == start + initialDelay
      ensures this.baseInterval == Max(baseInterval, SECOND) && this.maxJitter == maxJitter
    {
      this.baseInterval := Max(baseInterval, SECOND);
      this.maxJitter := maxJitter;
      firstDeadline := start + initialDelay;
      now, deadline := start, start + initialDelay;
      ticks, waits := [], [];
    }

    /** A tick, its handler, and the new deadline. */
    method OnTick(late: nat, work: nat, random: u128)
      requires Valid()
      modifies this
      ensures Valid()
      ensures ticks == old(ticks) + [Max(old(now), old(deadline)) + late]
      ensures waits == old(waits) + [baseInterval + Jitter(maxJitter, random)]
      ensures now == Max(old(now), old(deadline)) + late + work
      ensures deadline == now + baseInterval + Jitter(maxJitter, random)
    {
      now := Max(now, deadline) + late;
      ghost var before := ticks;
      ticks := ticks + [now];
      assert forall i | 0 <= i < |before| :: ticks[i] == before[i];
      now := now + work;
      var nextInterval := baseInterval + Jitter(maxJitter, random);
      waits := waits + [nextInterval];
      deadline := now + nextInterval;
    }

    ghost function State(): Schedule
      reads this
    {
      Schedule(now, deadline, ticks, waits)
    }

    /** A request or a tick. */
    method Serve(turn: Turn)
      requires Valid() && (turn.Call? || turn.Tick?)
      modifies this
      ensures Valid() && State() == Served(old(State()), turn, baseInterval, maxJitter)
    {
      match turn
      case Call(work) => now := now + work;
      case Tick(late, work, random) => OnTick(late, work, random);
    }

    /** Serves turns until one stops the actor or none is left. */
    method Run(turns: seq<Turn>) returns (n: nat)
      requires Valid()
      modifies this
      ensures n <= |turns| && Valid()
      ensures State() == ServedAll(old(State()), turns, n, baseInterval, maxJitter)
      ensures old(ticks) <= ticks && old(now) <= now && |ticks| == |old(ticks)| + TicksAmong(turns, n)
      ensures n < |turns| ==> n > 0 && (turns[n - 1].HandlesGone? || turns[n - 1].TokenCancelled?)
      ensures forall i | 0 <= i < n - 1 :: turns[i].Call? || turns[i].Tick?
    {
      n := 0;
      while n < |turns|
        invariant n <= |turns| && Valid()
        invariant State() == ServedAll(old(State()), turns, n, baseInterval, maxJitter)
        invariant forall i | 0 <= i < n :: turns[i].Call? || turns[i].Tick?
      {
        var turn := turns[n];
        n := n + 1;
        match turn
        case Call(_) => Serve(turn);
        case Tick(_, _, _) => Serve(turn);
        case HandlesGone => break;
        case TokenCancelled => break;
      }
      ServingAdvances(old(State()), turns, n, baseInterval, maxJitter);
    }
  }

  /** Serving turns lets time pass, keeps the ticks that were, and adds one for each tick among the turns. */
  lemma {:induction false} ServingAdvances(s: Schedule, turns: seq<Turn>, n: nat, baseInterval: nat, maxJitter: nat)
    requires n <= |turns|
    ensures var s' := ServedAll(s, turns, n, baseInterval, maxJitter);
      && s.now <= s'.now && s.ticks <= s'.ticks && |s'.ticks| == |s.ticks| + TicksAmong(turns, n)
  {
    if n > 0 {
      ServingAdvances(s, turns, n - 1, baseInterval, maxJitter);
    }
  }

  /** How many ticks fall into the half-open window from `lo` to `hi`. */
  function Count(ticks: seq<nat>, lo: nat, hi: nat): nat {
    if ticks == [] then 0
    else Count(ticks[..|ticks| - 1], lo, hi) + if lo <= ticks[|ticks| - 1] < hi then 1 else 0
  }

  /** The ticks that fall into the window, by their numbers. */
  function InWindow(ticks: seq<nat>, lo: nat, hi: nat): set<nat> {
    set i: nat | i < |ticks| && lo <= ticks[i] < hi
  }

  lemma {:induction false} CountIsSize(ticks: seq<nat>, lo: nat, hi: nat)
    ensures Count(ticks, lo, hi) == |InWindow(ticks, lo, hi)|
  {
    if ticks != [] {
      var n := |ticks| - 1;
      CountIsSize(ticks[..n], lo, hi);
      assert InWindow(ticks, lo, hi) == InWindow(ticks[..n], lo, hi) + if lo <= ticks[n] < hi then {n} else {};
    }
  }

  lemma {:induction false} CountBelow(ticks: seq<nat>, lo: nat, hi: nat, mid: nat)
    requires mid <= hi && forall t | t in ticks :: t < mid
    ensures Count(ticks, lo, hi) == Count(ticks, lo, mid)
    ensures mid <= lo ==> Count(ticks, lo, mid) == 0
  {
    if ticks != [] {
      var before := ticks[..|ticks| - 1];
      assert ticks[|ticks| - 1] in ticks;
      forall t | t in before ensures t in ticks {
      }
      CountBelow(before, lo, hi, mid);
    }
  }

  lemma {:induction false} SpacedIsAscending(ticks: seq<nat>, gap: nat, i: nat)
    requires Spaced(ticks, gap) && i < |ticks| - 1
    ensures ticks[i] + gap <= ticks[|ticks| - 1]
  {
    if i < |ticks| - 2 {
      var before := ticks[..|ticks| - 1];
      SpacedIsAscending(before, gap, i);
    }
  }

  lemma {:induction false} CountTimesGap(ticks: seq<nat>, gap: nat, lo: nat, hi: nat)
    requires gap > 0 && lo < hi && Spaced(ticks, gap)
    ensures Count(ticks, lo, hi) * gap < hi - lo + gap
  {
    if ticks != [] {
      var before, last := ticks[..|ticks| - 1], ticks[|ticks| - 1];
      forall t | t in before ensures t + gap <= last {
        var i :| 0 <= i < |before| && before[i] == t;
        SpacedIsAscending(ticks, gap, i);
      }
      var n := Count(before, lo, hi);
      if !(lo <= last < hi) {
        CountTimesGap(before, gap, lo, hi);
      } else if before == [] || last - gap + 1 <= lo {
        CountBelow(before, lo, hi, lo);
      } else {
        CountBelow(before, lo, hi, last - gap + 1);
        CountTimesGap(before, gap, lo, last - gap + 1);
        MulStep(n, gap);
      }
    }
  }

  /** In a window of length `length`, ticks at least `gap` apart number at most `length / gap`,
      rounded up. */
  lemma RateBound(ticks: seq<nat>, gap: nat, lo: nat, length: nat)
    requires gap > 0 && length > 0 && Spaced(ticks, gap)
    ensures |InWindow(ticks, lo, lo + length)| <= (length + gap - 1) / gap
    ensures forall i | 0 <= i < |ticks| && lo <= ticks[i] < lo + length :: i in InWindow(ticks, lo, lo + length)
  {
    CountIsSize(ticks, lo, lo + length);
    CountTimesGap(ticks, gap, lo, lo + length);
    AtMostQuotient(Count(ticks, lo, lo + length), length + gap - 1, gap);
  }

  /** The schedule of an actor, after any runs: the rate bound with the actor's own interval. */
  lemma ActorRateBound(actor: TickerActor, lo: nat, length: nat)
    requires actor.Valid() && length > 0
    ensures actor.baseInterval >= 1_000_000_000
    ensures |InWindow(actor.ticks, lo, lo + length)| <= (length + actor.baseInterval - 1) / actor.baseInterval
  {
    RateBound(actor.ticks, actor.baseInterval, lo, length);
  }
}
