/**
 The health check that decides when an agent gives up on a server: a loop over
 ticker and stop channel, untimed as an automaton over check outcomes and stop
 calls, and timed for the bound on how long a dead peer goes unnoticed.
 */
module HealthCheck {

  /** What happens in one turn of the loop: whether `Stop` is called while the loop
      waits, whether the select then prefers a buffered stop token to the tick,
      how the check comes out, and whether `Stop` is called while it runs. */
  datatype Round = Round(stopWaiting: bool, preferStop: bool, failed: bool, stopChecking: bool)

  /** `fast` says that the ticker runs with `intervalAF`; `checks` records which
      checks failed. */
  datatype Auto = Auto(
    running: bool, count: nat, fast: bool, healthy: bool, stopToken: bool, renewals: nat, checks: seq<bool>)

  const START := Auto(true, 0, false, false, false, 0, [])

  /** The effect of a check on counter, ticker and health. */
  function AfterCheck(a: Auto, failed: bool): Auto {
    var b := a.(checks := a.checks + [failed]);
    if failed then b.(count := a.count + 1, fast := true)
    else if a.count > 0 then b.(count := 0, fast := false, healthy := true)
    else b.(healthy := true)
  }

  function AfterRound(threshold: int, a: Auto, r: Round): Auto {
    var b := a.(stopToken := a.stopToken || r.stopWaiting);
    if b.stopToken && r.preferStop then
      b.(running := false, stopToken := false)
    else
      var c := AfterCheck(b, r.failed).(stopToken := b.stopToken || r.stopChecking);
      if r.failed && c.count >= threshold then
        if c.stopToken then c.(running := false, stopToken := false)
        else c.(running := false, healthy := false, renewals := c.renewals + 1)
      else c
  }

  function AfterRounds(threshold: int, rounds: seq<Round>): Auto {
    if rounds == [] then START
    else
      var a := AfterRounds(threshold, rounds[..|rounds| - 1]);
      if a.running then AfterRound(threshold, a, rounds[|rounds| - 1]) else a
  }

  class HealthCheck {
    const threshold: int
    var healthy: bool
    var running: bool
    var stopToken: bool  // buffered channel of capacity one
    var renewals: nat    // tokens sent to the device manager
    var fastTicker: bool

    constructor (threshold: int)
      ensures this.threshold == threshold && !healthy && !running && !stopToken && renewals == 0 && !fastTicker
    {
      this.threshold := threshold;
      healthy, running, stopToken, renewals, fastTicker := false, false, false, 0, false;
    }

    /** Leaves a token for a running check, unless one is there; never blocks. */
    method Stop()
      modifies this`stopToken
      ensures stopToken == (old(stopToken) || running)
    {
      if running {
        stopToken := true;
      }
    }

    ghost function State(count: nat, checks: seq<bool>): Auto
      reads this
    {
      Auto(running, count, fastTicker, healthy, stopToken, renewals, checks)
    }

    /** The loop, driven by what happens in each turn, until it returns or the turns
        given run out; `checks` are the outcomes of the checks it made. What it does is
        the automaton, step for step. */
    method Run(rounds: seq<Round>) returns (checks: seq<bool>, unhealthyCount: nat)
      requires !healthy && !running && !stopToken && renewals == 0 && !fastTicker
      modifies this
      ensures AfterRounds(threshold, rounds) == State(unhealthyCount, checks)
    {
      unhealthyCount := 0;
      running := true;
      checks := [];
      var i := 0;
      while i < |rounds|
        invariant i <= |rounds| && running
        invariant AfterRounds(threshold, rounds[..i]) == State(unhealthyCount, checks)
      {
        assert rounds[..i + 1][..i] == rounds[..i];
        unhealthyCount, checks := Turn(rounds[i], unhealthyCount, checks);
        if !running {
          StaysEnded(threshold, rounds, i + 1);
          return;
        }
        i := i + 1;
      }
      assert rounds[..i] == rounds;
    }

    /** One pass through the select and what follows it. */
    method Turn(r: Round, count: nat, before: seq<bool>) returns (unhealthyCount: nat, checks: seq<bool>)
      requires running
      modifies this
      ensures State(unhealthyCount, checks) == AfterRound(threshold, old(State(count, before)), r)
    {
      unhealthyCount, checks := count, before;
      if r.stopWaiting {
        Stop();
      }
      if stopToken && r.preferStop {
        stopToken, running := false, false;
        return;
      }
      if r.stopChecking {
        Stop();
      }
      checks := checks + [r.failed];
      if r.failed {
        unhealthyCount := unhealthyCount + 1;
        fastTicker := true;
        if unhealthyCount >= threshold {
          if stopToken {
            stopToken, running := false, false;
            return;
          }
          healthy := false;
          renewals := renewals + 1;
          running := false;
        }
      } else {
        healthy := true;
        if unhealthyCount > 0 {
          unhealthyCount := 0;
          fastTicker := false;
        }
      }
    }
  }

  lemma {:induction false} StaysEnded(threshold: int, rounds: seq<Round>, n: nat)
    requires n <= |rounds| && !AfterRounds(threshold, rounds[..n]).running
    ensures AfterRounds(threshold, rounds) == AfterRounds(threshold, rounds[..n])
    decreases |rounds|
  {
    if n == |rounds| {
      assert rounds[..n] == rounds;
    } else {
      var m := |rounds| - 1;
      assert rounds[..m][..n] == rounds[..n];
      StaysEnded(threshold, rounds[..m], n);
    }
  }

  /** How many checks at the end of the list failed in a row. */
  function TrailingFailures(checks: seq<bool>): nat {
    if checks != [] && checks[|checks| - 1] then 1 + TrailingFailures(checks[..|checks| - 1]) else 0
  }

  /** Failures in a row it takes: the threshold, and one where that is not positive. */
  function Needed(threshold: int): nat {
    if threshold < 1 then 1 else threshold
  }

  ghost predicate StopCalled(rounds: seq<Round>) {
    exists i :: 0 <= i < |rounds| && (rounds[i].stopWaiting || rounds[i].stopChecking)
  }

  ghost predicate Consistent(threshold: int, a: Auto) {
    && (a.running ==> a.count < Needed(threshold) && a.renewals == 0)
    && (a.running ==> a.count == TrailingFailures(a.checks))
    && (a.running ==> (a.fast <==> a.count > 0))
    && a.renewals <= 1
    && (a.renewals == 1 ==> TrailingFailures(a.checks) == Needed(threshold))
    && (a.healthy <==> false in a.checks && a.renewals == 0)
  }

  /** What every reachable state of the check satisfies. A renewal is sent at most
      once, after exactly the needed number of failures in a row. While it runs, the
      counter is the failures in a row so far and the fast ticker is on exactly when
      that is positive. It is healthy exactly when some check succeeded and no
      renewal was sent. */
  lemma {:induction false} AutomatonIsConsistent(threshold: int, rounds: seq<Round>)
    ensures Consistent(threshold, AfterRounds(threshold, rounds))
  {
    if rounds != [] {
      var front := rounds[..|rounds| - 1];
      AutomatonIsConsistent(threshold, front);
      if AfterRounds(threshold, front).running {
        RoundKeepsConsistent(threshold, AfterRounds(threshold, front), rounds[|rounds| - 1]);
      }
    }
  }

  lemma RoundKeepsConsistent(threshold: int, a: Auto, r: Round)
    requires Consistent(threshold, a) && a.running
    ensures Consistent(threshold, AfterRound(threshold, a, r))
  {
    TrailingNext(a.checks, r.failed);
  }

  /** Outcomes the checks of these rounds would have. */
  function Outcomes(rounds: seq<Round>): (s: seq<bool>)
    ensures |s| == |rounds|
  {
    if rounds == [] then [] else Outcomes(rounds[..|rounds| - 1]) + [rounds[|rounds| - 1].failed]
  }

  /** At some point the needed number of checks had failed in a row, and up to that
      point nobody had called `Stop`. */
  ghost predicate ReachesThreshold(threshold: int, rounds: seq<Round>) {
    rounds != [] &&
    (|| ReachesThreshold(threshold, rounds[..|rounds| - 1])
     || (!StopCalled(rounds) && TrailingFailures(Outcomes(rounds)) >= Needed(threshold)))
  }

  /** Exactly when a renewal is sent: if and only if the needed failures in a row come
      before any stop call. A stop token that is in the channel before the threshold
      test, however the selects go, prevents it. */
  lemma {:induction false} RenewsExactlyWhen(threshold: int, rounds: seq<Round>)
    ensures AfterRounds(threshold, rounds).renewals == 1 <==> ReachesThreshold(threshold, rounds)
    ensures var a := AfterRounds(threshold, rounds);
            a.running && !StopCalled(rounds) ==> a.checks == Outcomes(rounds) && !a.stopToken
    ensures var a := AfterRounds(threshold, rounds);
            a.running && StopCalled(rounds) ==> a.stopToken
    ensures var a := AfterRounds(threshold, rounds);
            !a.running && !StopCalled(rounds) ==> a.renewals == 1
  {
    if rounds != [] {
      var m := |rounds| - 1;
      var front, r := rounds[..m], rounds[m];
      RenewsExactlyWhen(threshold, front);
      AutomatonIsConsistent(threshold, front);
      StopCalledNext(rounds);
      if AfterRounds(threshold, front).running {
        TrailingNext(Outcomes(front), r.failed);
        RoundRenews(threshold, AfterRounds(threshold, front), r);
      }
    }
  }

  lemma TrailingNext(checks: seq<bool>, failed: bool)
    ensures TrailingFailures(checks + [failed]) == if failed then 1 + TrailingFailures(checks) else 0
  {
    assert (checks + [failed])[..|checks|] == checks;
  }

  /** One turn of a running check: what it sends and what becomes of a stop call. */
  lemma RoundRenews(threshold: int, a: Auto, r: Round)
    requires a.running && a.renewals == 0 && a.count < Needed(threshold)
    ensures var b := AfterRound(threshold, a, r);
            var stopped := a.stopToken || r.stopWaiting || r.stopChecking;
            && (b.renewals == 1 <==> !stopped && r.failed && a.count + 1 >= Needed(threshold))
            && (b.running && stopped ==> b.stopToken)
            && (!stopped ==> !b.stopToken && b.checks == a.checks + [r.failed] && (b.running <==> b.renewals != 1))
  {
  }

  /** What one more turn of a running check does, and exactly when it is the last. A stop call,
      in that turn or before, ends the check at the next select that takes its token, without a
      check and without a renewal. Otherwise the turn makes its check, and is the last if that
      is the needed failure in a row; a stop call up to then keeps it from renewing. */
  lemma TurnEndsExactlyWhen(threshold: int, rounds: seq<Round>, r: Round)
    requires AfterRounds(threshold, rounds).running
    ensures var a, b := AfterRounds(threshold, rounds), AfterRounds(threshold, rounds + [r]);
            var stops := (StopCalled(rounds) || r.stopWaiting) && r.preferStop;
            var decides := r.failed && TrailingFailures(a.checks) + 1 >= Needed(threshold);
            && (b.running <==> !stops && !decides)
            && b.checks == (if stops then a.checks else a.checks + [r.failed])
            && (stops ==> b.renewals == 0 && b.healthy == a.healthy)
            && (b.renewals == 1 <==> decides && !stops && !StopCalled(rounds + [r]))
            && (!b.running ==> !b.stopToken)
  {
    var all := rounds + [r];
    assert all[..|all| - 1] == rounds;
    RenewsExactlyWhen(threshold, rounds);
    AutomatonIsConsistent(threshold, rounds);
    StopCalledNext(all);
    RoundEnds(threshold, AfterRounds(threshold, rounds), r);
  }

  lemma RoundEnds(threshold: int, a: Auto, r: Round)
    requires a.running && a.renewals == 0 && a.count < Needed(threshold)
    ensures var b := AfterRound(threshold, a, r);
            var stops := (a.stopToken || r.stopWaiting) && r.preferStop;
            var decides := r.failed && a.count + 1 >= Needed(threshold);
            && (b.running <==> !stops && !decides)
            && b.checks == (if stops then a.checks else a.checks + [r.failed])
            && (stops ==> b.renewals == 0 && b.healthy == a.healthy)
            && (b.renewals == 1 <==> decides && !stops && !a.stopToken && !r.stopWaiting && !r.stopChecking)
            && (!b.running ==> !b.stopToken)
  {
  }

  lemma StopCalledNext(rounds: seq<Round>)
    requires rounds != []
    ensures var m := |rounds| - 1;
            StopCalled(rounds) <==> StopCalled(rounds[..m]) || rounds[m].stopWaiting || rounds[m].stopChecking
  {
    var m := |rounds| - 1;
    if StopCalled(rounds[..m]) {
      var i :| 0 <= i < m && (rounds[..m][i].stopWaiting || rounds[..m][i].stopChecking);
      assert rounds[i].stopWaiting || rounds[i].stopChecking;
    }
    if StopCalled(rounds) {
      var i :| 0 <= i < |rounds| && (rounds[i].stopWaiting || rounds[i].stopChecking);
      assert i < m ==> rounds[..m][i] == rounds[i];
    }
  }

  // ---------- time ----------

  /** A ticker: the time of the next undelivered tick and the spacing of the ticks. */
  datatype Ticker = Ticker(due: int, period: int)

  datatype Timing = Timing(interval: int, intervalAF: int) {
    ghost predicate Valid() {
      interval > 0 && intervalAF > 0
    }
  }

  /** The first tick after `at`, ticks that fell due meanwhile being dropped. */
  function NextDue(t: Ticker, at: int): int
    requires t.period > 0 && t.due <= at
  {
    t.due + ((at - t.due) / t.period + 1) * t.period
  }

  /** The ticks stay in step: it is the one tick in the period after `at`. */
  lemma NextDueIsTick(t: Ticker, at: int, due: int)
    requires t.period > 0 && t.due <= at
    ensures due == NextDue(t, at) <==> at < due <= at + t.period && exists k: nat :: due == t.due + k * t.period
  {
    var q := (at - t.due) / t.period;
    NextDueIsSoon(t, at);
    assert NextDue(t, at) == t.due + (q + 1) * t.period;
    forall k: nat | due == t.due + k * t.period && at < due <= at + t.period
      ensures due == NextDue(t, at)
    {
      SameMultiple(k, q + 1, t.period, at - t.due);
    }
  }

  lemma {:induction false} NextMultiple(j: nat, k: nat, d: nat)
    requires j < k
    ensures k * d >= j * d + d
    decreases k
  {
    if j + 1 < k {
      NextMultiple(j, k - 1, d);
    }
  }

  lemma SameMultiple(j: nat, k: nat, d: int, x: int)
    requires d > 0 && x < j * d <= x + d && x < k * d <= x + d
    ensures j == k
  {
    if j < k {
      NextMultiple(j, k, d);
    } else if k < j {
      NextMultiple(k, j, d);
    }
  }

  /** The check at rest in its select at time `now`. */
  datatype Timed = Timed(now: int, ticker: Ticker, auto: Auto)

  datatype TimedCheck = TimedCheck(failed: bool, duration: nat)

  /** One unstopped turn: wait for the tick, check, and reset the ticker where the
      code does, which discards a tick that is waiting. */
  function AfterTimedCheck(c: Timing, s: Timed, k: TimedCheck): Timed
    requires c.Valid() && s.ticker.period > 0
  {
    var tick := if s.ticker.due > s.now then s.ticker.due else s.now;
    var end := tick + k.duration;
    var a := AfterCheck(s.auto, k.failed);
    var t :=
      if k.failed then Ticker(end + c.intervalAF, c.intervalAF)
      else if s.auto.count > 0 then Ticker(end + c.interval, c.interval)
      else Ticker(NextDue(s.ticker, tick), s.ticker.period);
    Timed(end, t, a)
  }

  function AfterTimedChecks(c: Timing, start: int, ks: seq<TimedCheck>): (s: Timed)
    requires c.Valid()
    ensures s.ticker.period > 0
  {
    if ks == [] then Timed(start, Ticker(start + c.interval, c.interval), START)
    else AfterTimedCheck(c, AfterTimedChecks(c, start, ks[..|ks| - 1]), ks[|ks| - 1])
  }

  lemma NextDueIsSoon(t: Ticker, at: int)
    requires t.period > 0 && t.due <= at
    ensures at < NextDue(t, at) <= at + t.period
  {
    var q, r := (at - t.due) / t.period, (at - t.due) % t.period;
    assert at - t.due == q * t.period + r;
    assert (q + 1) * t.period == q * t.period + t.period;
  }

  /** At rest, the next tick is at most one period away, and the period is the fast
      one exactly while checks fail. */
  lemma {:induction false} TickIsNear(c: Timing, start: int, ks: seq<TimedCheck>)
    requires c.Valid()
    ensures var s := AfterTimedChecks(c, start, ks);
            s.ticker.due <= s.now + s.ticker.period
            && s.ticker.period == if s.auto.count > 0 then c.intervalAF else c.interval
  {
    if ks != [] {
      var s := AfterTimedChecks(c, start, ks[..|ks| - 1]);
      TickIsNear(c, start, ks[..|ks| - 1]);
      var tick := if s.ticker.due > s.now then s.ticker.due else s.now;
      NextDueIsSoon(s.ticker, tick);
    }
  }

  /** The longest a dead peer can go unnoticed: `n` failing checks of at most `t`. */
  function Latency(c: Timing, t: nat, n: nat): int {
    if n == 0 then 0 else c.interval + t + (n - 1) * (c.intervalAF + t)
  }

  lemma LatencyStep(c: Timing, t: nat, n: nat)
    requires n > 0
    ensures Latency(c, t, n) == (if n == 1 then c.interval else Latency(c, t, n - 1) + c.intervalAF) + t
  {
    assert (n - 1) * (c.intervalAF + t) == (if n == 1 then 0 else (n - 2) * (c.intervalAF + t) + (c.intervalAF + t));
  }

  ghost predicate AllFailWithin(ks: seq<TimedCheck>, t: nat) {
    forall i | 0 <= i < |ks| :: ks[i].failed && ks[i].duration <= t
  }

  /** From a success (or the start) on, the n-th failing check is over within
      interval + T + (n-1) * (intervalAF + T). */
  lemma {:induction false} FailoverLatency(
      c: Timing, start: int, before: seq<TimedCheck>, fails: seq<TimedCheck>, t: nat)
    requires c.Valid() && AllFailWithin(fails, t)
    requires before == [] || !before[|before| - 1].failed
    ensures var s, s' := AfterTimedChecks(c, start, before), AfterTimedChecks(c, start, before + fails);
            && s'.auto.count == |fails|
            && s'.now <= s.now + Latency(c, t, |fails|)
  {
    var s := AfterTimedChecks(c, start, before);
    if fails == [] {
      assert before + fails == before;
      TickIsNear(c, start, before);
    } else {
      var n := |fails|;
      var front := fails[..n - 1];
      FailoverLatency(c, start, before, front, t);
      assert (before + fails)[..|before + fails| - 1] == before + front;
      TickIsNear(c, start, before + front);
      LatencyStep(c, t, n);
      assert fails[n - 1].failed && fails[n - 1].duration <= t;
    }
  }

  /** The turns of an unstopped check with these outcomes. */
  function Unstopped(ks: seq<TimedCheck>): (rounds: seq<Round>)
    ensures |rounds| == |ks|
  {
    if ks == [] then [] else Unstopped(ks[..|ks| - 1]) + [Round(false, false, ks[|ks| - 1].failed, false)]
  }

  lemma UnstoppedNext(threshold: int, ks: seq<TimedCheck>, k: TimedCheck)
    ensures var a := AfterRounds(threshold, Unstopped(ks));
            AfterRounds(threshold, Unstopped(ks + [k])) ==
            if a.running then AfterRound(threshold, a, Round(false, false, k.failed, false)) else a
  {
    assert (ks + [k])[..|ks|] == ks;
    var rounds := Unstopped(ks);
    assert (rounds + [Round(false, false, k.failed, false)])[..|rounds|] == rounds;
  }

  /** Until the check returns, time runs beside the automaton of `Run`. */
  lemma {:induction false} TimedFollowsAutomaton(c: Timing, threshold: int, start: int, ks: seq<TimedCheck>)
    requires c.Valid()
    ensures var a := AfterTimedChecks(c, start, ks).auto;
            && a.running && !a.stopToken && a.renewals == 0
            && (AfterRounds(threshold, Unstopped(ks)).running ==> AfterRounds(threshold, Unstopped(ks)) == a)
  {
    if ks != [] {
      var m := |ks| - 1;
      TimedFollowsAutomaton(c, threshold, start, ks[..m]);
      assert ks[..m] + [ks[m]] == ks;
      UnstoppedNext(threshold, ks[..m], ks[m]);
    }
  }

  /** The check is running, nobody stopped it, and the last `n` checks failed. */
  ghost predicate Failing(a: Auto, n: nat) {
    a.running && !a.stopToken && a.renewals == 0 && a.count == n
  }

  lemma FailsOnceMore(threshold: int, a: Auto, n: nat)
    requires Failing(a, n) && n < Needed(threshold)
    ensures var b := AfterRound(threshold, a, Round(false, false, true, false));
            if n + 1 < Needed(threshold) then Failing(b, n + 1) else b.renewals == 1
  {
  }

  lemma StartsFailing(c: Timing, threshold: int, start: int, before: seq<TimedCheck>)
    requires c.Valid() && (before == [] || !before[|before| - 1].failed)
    requires AfterRounds(threshold, Unstopped(before)).running
    ensures Failing(AfterRounds(threshold, Unstopped(before)), 0)
  {
    TimedFollowsAutomaton(c, threshold, start, before);
    FailoverLatency(c, start, before, [], 0);
    assert before + [] == before;
  }

  /** After these turns `n` checks have failed: the check goes on, or has sent its renewal. */
  ghost predicate Counted(threshold: int, ks: seq<TimedCheck>, n: nat) {
    var a := AfterRounds(threshold, Unstopped(ks));
    if n < Needed(threshold) then Failing(a, n) else a.renewals == 1
  }

  lemma OneMoreFailure(threshold: int, front: seq<TimedCheck>, last: TimedCheck, n: nat)
    requires last.failed && n < Needed(threshold) && Counted(threshold, front, n)
    ensures Counted(threshold, front + [last], n + 1)
  {
    UnstoppedNext(threshold, front, last);
    FailsOnceMore(threshold, AfterRounds(threshold, Unstopped(front)), n);
  }

  lemma TakeOneMore(before: seq<TimedCheck>, fails: seq<TimedCheck>, n: nat)
    requires n < |fails|
    ensures before + fails[..n + 1] == before + fails[..n] + [fails[n]]
  {
  }

  /** While fewer checks than needed have failed the check goes on; the last one needed
      sends the renewal. */
  lemma {:induction false} FailuresCount(threshold: int, before: seq<TimedCheck>, fails: seq<TimedCheck>, n: nat)
    requires Counted(threshold, before, 0)
    requires n <= |fails| <= Needed(threshold) && forall i | 0 <= i < |fails| :: fails[i].failed
    ensures Counted(threshold, before + fails[..n], n)
  {
    if n == 0 {
      assert before + fails[..n] == before;
    } else {
      FailuresCount(threshold, before, fails, n - 1);
      TakeOneMore(before, fails, n - 1);
      OneMoreFailure(threshold, before + fails[..n - 1], fails[n - 1], n - 1);
    }
  }

  /** The decision itself: an unstopped check that is running and whose peer fails every
      check after the last success sends its one renewal with the needed failure, not
      before, and by the bound. */
  lemma DecidesWithinLatency(
      c: Timing, threshold: int, start: int, before: seq<TimedCheck>, fails: seq<TimedCheck>, t: nat)
    requires c.Valid() && |fails| == Needed(threshold) && AllFailWithin(fails, t)
    requires before == [] || !before[|before| - 1].failed
    requires AfterRounds(threshold, Unstopped(before)).running
    ensures AfterRounds(threshold, Unstopped(before + fails)).renewals == 1
    ensures forall n | 0 <= n < |fails| :: AfterRounds(threshold, Unstopped(before + fails[..n])).renewals == 0
    ensures AfterTimedChecks(c, start, before + fails).now
            <= AfterTimedChecks(c, start, before).now + c.interval + t + (Needed(threshold) - 1) * (c.intervalAF + t)
  {
    FailoverLatency(c, start, before, fails, t);
    StartsFailing(c, threshold, start, before);
    FailuresCount(threshold, before, fails, |fails|);
    assert fails[..|fails|] == fails;
    forall n | 0 <= n < |fails|
      ensures AfterRounds(threshold, Unstopped(before + fails[..n])).renewals == 0
    {
      FailuresCount(threshold, before, fails, n);
    }
  }

  /** The bound is attained: checks that all take T, from the start. */
  lemma {:induction false} LatencyIsAttained(c: Timing, start: int, fails: seq<TimedCheck>, t: nat)
    requires c.Valid() && forall i | 0 <= i < |fails| :: fails[i] == TimedCheck(true, t)
    ensures AfterTimedChecks(c, start, fails).now == start + Latency(c, t, |fails|)
    ensures fails != [] ==>
            AfterTimedChecks(c, start, fails).ticker.due == AfterTimedChecks(c, start, fails).now + c.intervalAF
  {
    if fails != [] {
      LatencyIsAttained(c, start, fails[..|fails| - 1], t);
      LatencyStep(c, t, |fails|);
    }
  }
}
