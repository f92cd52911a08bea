/** The restart loop with its backoff, and the health probe: recto/_launcher_run.py:94-147, recto/restart.py:58-141 and
    recto/healthz.py:192-205. Delays are exact numbers of seconds. */
module Supervisor {
  import opened Digits

  datatype Policy = Never | Always | OnFailure | OtherPolicy

  datatype Backoff = Constant | Linear | Exponential | OtherBackoff

  datatype RestartSpec = RestartSpec(policy: Policy, backoff: Backoff, initial: int, cap: int, maxAttempts: int)

  function ShouldRestart(rc: int, spec: RestartSpec): bool {
    match spec.policy
    case Never => false
    case Always => true
    case OnFailure => rc != 0
    case OtherPolicy => false
  }

  datatype Delay = Seconds(seconds: int) | MaxAttempts | BadAttempt

  function Min(a: int, b: int): int {
    if a <= b then a else b
  }

  /** The uncapped delay; past the 63rd attempt the exponential curve is not computed. */
  function RawDelay(attempt: nat, spec: RestartSpec): int
    requires attempt >= 1
  {
    match spec.backoff
    case Constant => spec.initial
    case Linear => spec.initial * attempt
    case Exponential => if attempt - 1 > 62 then spec.cap else spec.initial * Power(2, attempt - 1)
    case OtherBackoff => spec.initial
  }

  function NextDelay(attempt: int, spec: RestartSpec): Delay {
    if attempt < 0 then BadAttempt
    else if attempt == 0 then Seconds(0)
    else if spec.maxAttempts > 0 && attempt > spec.maxAttempts then MaxAttempts
    else Seconds(Min(RawDelay(attempt, spec), spec.cap))
  }

  // ------------------------------------------------------------------ the curve

  lemma {:induction false} DoublingGrows(initial: int, a: nat, b: nat)
    requires initial >= 0 && a <= b
    ensures initial * Power(2, a) <= initial * Power(2, b)
  {
    if a < b {
      DoublingGrows(initial, a, b - 1);
      MulAssoc(initial, 2, Power(2, b - 1));
      var x := initial * Power(2, b - 1);
      assert x >= 0 by {
        MulMono(0, initial, Power(2, b - 1));
      }
      assert initial * Power(2, b) == 2 * x;
    }
  }

  /** The documented exponential curve holds exactly where the cut at 63 attempts does not show: before it, or where
      the curve has reached the cap by then. */
  lemma ExponentialExactly(attempt: nat, spec: RestartSpec)
    requires attempt >= 1 && spec.backoff == Exponential && NextDelay(attempt, spec).Seconds?
    ensures NextDelay(attempt, spec).seconds == Min(spec.initial * Power(2, attempt - 1), spec.cap) <==>
            attempt <= 63 || spec.initial * Power(2, attempt - 1) >= spec.cap
  {
  }

  /** So it holds at every attempt for a first delay of at least a second and a cap of at most 2^63. */
  lemma ExponentialCurve(attempt: nat, spec: RestartSpec)
    requires attempt >= 1 && spec.backoff == Exponential && NextDelay(attempt, spec).Seconds?
    requires spec.initial >= 1 && spec.cap <= Power(2, 63)
    ensures NextDelay(attempt, spec).seconds == Min(spec.initial * Power(2, attempt - 1), spec.cap)
  {
    if attempt > 63 {
      DoublingGrows(1, 63, attempt - 1);
      MulMono(1, spec.initial, Power(2, attempt - 1));
    }
    ExponentialExactly(attempt, spec);
  }

  /** With no first delay the curve stays at zero for 63 attempts, and then jumps to the cap. */
  lemma ZeroJumps(attempt: nat, spec: RestartSpec)
    requires attempt >= 1 && spec.backoff == Exponential && NextDelay(attempt, spec).Seconds?
    requires spec.initial == 0 && spec.cap >= 0
    ensures NextDelay(attempt, spec).seconds == if attempt <= 63 then 0 else spec.cap
  {
  }

  /** Delays never exceed the cap and never shrink. */
  lemma DelaysRise(a: nat, b: nat, spec: RestartSpec)
    requires 1 <= a <= b && spec.initial >= 0 && NextDelay(b, spec).Seconds?
    ensures NextDelay(a, spec).Seconds? && NextDelay(a, spec).seconds <= NextDelay(b, spec).seconds <= spec.cap
  {
    match spec.backoff {
      case Linear => MulMono(a, b, spec.initial);
      case Exponential =>
        if b - 1 <= 62 {
          DoublingGrows(spec.initial, a - 1, b - 1);
        }
      case _ =>
    }
  }

  /** The three documented curves, before the cap; an unknown name is a constant delay. */
  function Curve(attempt: nat, spec: RestartSpec): int
    requires attempt >= 1
  {
    if spec.backoff == Linear then spec.initial * attempt
    else if spec.backoff == Exponential then spec.initial * Power(2, attempt - 1)
    else spec.initial
  }

  /** The whole of the backoff, for settings whose exponential curve is not cut short: a limit of N refuses exactly the
      attempts after the N-th, and any other is delayed by its curve or the cap, whichever is less. */
  lemma DelayExactly(attempt: int, spec: RestartSpec, d: int)
    requires spec.backoff == Exponential ==> spec.initial >= 1 && spec.cap <= Power(2, 63)
    ensures NextDelay(attempt, spec) == MaxAttempts <==> 0 < spec.maxAttempts < attempt
    ensures NextDelay(attempt, spec) == Seconds(d) <==>
            && attempt >= 0 && !(0 < spec.maxAttempts < attempt)
            && d == (if attempt == 0 then 0
                     else if Curve(attempt, spec) <= spec.cap then Curve(attempt, spec)
                     else spec.cap)
  {
    if attempt >= 1 && !(0 < spec.maxAttempts < attempt) && spec.backoff == Exponential {
      ExponentialCurve(attempt, spec);
    }
  }

  // ------------------------------------------------------------------ the loop

  datatype Event =
    | Spawned(rc: int)
    | RestartAttempt(attempt: nat, delay: int, rc: int)
    | Slept(delay: int)
    | FinalExit(rc: int, attempts: nat)
    | MaxAttemptsReached(limit: int, rc: int)

  /** The run ends with the (k+1)-th exit: no restart is wanted, or none is left. */
  predicate StopsAt(exits: nat -> int, spec: RestartSpec, k: nat) {
    !ShouldRestart(exits(k), spec) || NextDelay(k + 1, spec).MaxAttempts?
  }

  function DelayOf(spec: RestartSpec, attempt: nat): int
    requires attempt >= 1
  {
    Min(RawDelay(attempt, spec), spec.cap)
  }

  /** What `n` rounds that do not stop leave behind. */
  function Rounds(exits: nat -> int, spec: RestartSpec, n: nat): seq<Event> {
    if n == 0 then []
    else
      Rounds(exits, spec, n - 1)
      + [Spawned(exits(n - 1)), RestartAttempt(n, DelayOf(spec, n), exits(n - 1)), Slept(DelayOf(spec, n))]
  }

  function Terminal(exits: nat -> int, spec: RestartSpec, k: nat): Event {
    if !ShouldRestart(exits(k), spec) then FinalExit(exits(k), k) else MaxAttemptsReached(spec.maxAttempts, exits(k))
  }

  /** `last` is where the run stops first. */
  ghost predicate FirstStop(exits: nat -> int, spec: RestartSpec, last: nat) {
    StopsAt(exits, spec, last) && forall j: nat | j < last :: !StopsAt(exits, spec, j)
  }

  /** The loop ends exactly when some exit stops it; the run is then the rounds before the first such exit, that exit,
      and one terminal event. */
  method Supervise(exits: nat -> int, spec: RestartSpec) returns (rc: int, trace: seq<Event>, last: nat)
    requires exists k: nat :: StopsAt(exits, spec, k)
    ensures FirstStop(exits, spec, last) && rc == exits(last)
    ensures trace == Rounds(exits, spec, last) + [Spawned(exits(last)), Terminal(exits, spec, last)]
  {
    ghost var stop: nat :| StopsAt(exits, spec, stop);
    var attempt: nat := 0;
    trace := [];
    while true
      invariant attempt <= stop && trace == Rounds(exits, spec, attempt)
      invariant forall j: nat | j < attempt :: !StopsAt(exits, spec, j)
      decreases stop - attempt
    {
      rc := exits(attempt);
      trace := trace + [Spawned(rc)];
      if !ShouldRestart(rc, spec) {
        trace := trace + [FinalExit(rc, attempt)];
        return rc, trace, attempt;
      }
      var delay := NextDelay(attempt + 1, spec);
      if delay.MaxAttempts? {
        trace := trace + [MaxAttemptsReached(spec.maxAttempts, rc)];
        return rc, trace, attempt;
      }
      assert !StopsAt(exits, spec, attempt);
      attempt := attempt + 1;
      trace := trace + [RestartAttempt(attempt, delay.seconds, rc), Slept(delay.seconds)];
    }
  }

  /** Where a run ends, policy by policy: at once without restarts; with restarts on failure at the first clean exit or
      when the attempts are used up, whichever comes first; with restarts always only when they are used up. */
  lemma LastExactly(exits: nat -> int, spec: RestartSpec, last: nat)
    ensures FirstStop(exits, spec, last) <==>
            match spec.policy
            case Always => spec.maxAttempts > 0 && last == spec.maxAttempts
            case OnFailure =>
              && (forall j: nat | j < last :: exits(j) != 0)
              && (spec.maxAttempts > 0 ==> last <= spec.maxAttempts)
              && (exits(last) == 0 || (spec.maxAttempts > 0 && last == spec.maxAttempts))
            case _ => last == 0
  {
    var limit: nat := if spec.maxAttempts > 0 then spec.maxAttempts else 0;
    forall k: nat
      ensures StopsAt(exits, spec, k) <==>
              (spec.policy != Always && (spec.policy == OnFailure ==> exits(k) == 0)) || 0 < limit <= k
    {
    }
    hide StopsAt;
    if FirstStop(exits, spec, last) {
      assert limit < last ==> !StopsAt(exits, spec, limit);
      assert 0 < last ==> !StopsAt(exits, spec, 0);
    }
  }

  lemma {:induction false} RoundsAt(exits: nat -> int, spec: RestartSpec, n: nat, i: nat)
    requires i < n
    ensures |Rounds(exits, spec, n)| == 3 * n
    ensures Rounds(exits, spec, n)[3 * i] == Spawned(exits(i))
    ensures Rounds(exits, spec, n)[3 * i + 1] == RestartAttempt(i + 1, DelayOf(spec, i + 1), exits(i))
    ensures Rounds(exits, spec, n)[3 * i + 2] == Slept(DelayOf(spec, i + 1))
  {
    hide DelayOf;
    if n > 1 {
      RoundsAt(exits, spec, n - 1, if i < n - 1 then i else 0);
    }
  }

  /** What a run logs: before the last exit each exit, the attempt it leads to with its number, delay and exit code,
      and a sleep of that delay; then the last exit, and whether restarts were no longer wanted or no longer left. */
  lemma TraceTells(exits: nat -> int, spec: RestartSpec, last: nat)
    requires FirstStop(exits, spec, last)
    requires spec.backoff == Exponential ==> spec.initial >= 1 && spec.cap <= Power(2, 63)
    ensures var trace := Rounds(exits, spec, last) + [Spawned(exits(last)), Terminal(exits, spec, last)];
            && |trace| == 3 * last + 2
            && (forall i: nat | i < last ::
                  var d := if Curve(i + 1, spec) <= spec.cap then Curve(i + 1, spec) else spec.cap;
                  && trace[3 * i] == Spawned(exits(i))
                  && trace[3 * i + 1] == RestartAttempt(i + 1, d, exits(i))
                  && trace[3 * i + 2] == Slept(d))
            && trace[3 * last] == Spawned(exits(last))
            && trace[3 * last + 1] ==
               if spec.policy == Always || (spec.policy == OnFailure && exits(last) != 0)
               then MaxAttemptsReached(spec.maxAttempts, exits(last))
               else FinalExit(exits(last), last)
  {
    hide Curve;
    var rounds := Rounds(exits, spec, last);
    if last > 0 {
      RoundsAt(exits, spec, last, 0);
    }
    forall i: nat | i < last
      ensures |rounds| == 3 * last
      ensures var d := if Curve(i + 1, spec) <= spec.cap then Curve(i + 1, spec) else spec.cap;
              && rounds[3 * i] == Spawned(exits(i))
              && rounds[3 * i + 1] == RestartAttempt(i + 1, d, exits(i))
              && rounds[3 * i + 2] == Slept(d)
    {
      RoundsAt(exits, spec, last, i);
      assert !StopsAt(exits, spec, i);
      DelayExactly(i + 1, spec, DelayOf(spec, i + 1));
    }
  }

  function Spawns(trace: seq<Event>): nat {
    if |trace| == 0 then 0 else Spawns(trace[..|trace| - 1]) + if trace[|trace| - 1].Spawned? then 1 else 0
  }

  function Delays(trace: seq<Event>): seq<int> {
    if |trace| == 0 then []
    else
      Delays(trace[..|trace| - 1]) + if trace[|trace| - 1].Slept? then [trace[|trace| - 1].delay] else []
  }

  function Terminals(trace: seq<Event>): nat {
    if |trace| == 0 then 0
    else
      Terminals(trace[..|trace| - 1])
      + if trace[|trace| - 1].FinalExit? || trace[|trace| - 1].MaxAttemptsReached? then 1 else 0
  }

  lemma OneMore(trace: seq<Event>, e: Event)
    ensures Spawns(trace + [e]) == Spawns(trace) + if e.Spawned? then 1 else 0
    ensures Delays(trace + [e]) == Delays(trace) + if e.Slept? then [e.delay] else []
    ensures Terminals(trace + [e]) == Terminals(trace) + if e.FinalExit? || e.MaxAttemptsReached? then 1 else 0
  {
    assert (trace + [e])[..|trace|] == trace;
  }

  lemma {:induction false} RoundsTell(exits: nat -> int, spec: RestartSpec, n: nat)
    ensures Spawns(Rounds(exits, spec, n)) == n && Terminals(Rounds(exits, spec, n)) == 0
    ensures |Delays(Rounds(exits, spec, n))| == n
    ensures forall i | 0 <= i < n :: Delays(Rounds(exits, spec, n))[i] == DelayOf(spec, i + 1)
  {
    hide DelayOf;
    if n > 0 {
      RoundsTell(exits, spec, n - 1);
      var before, rc, d := Rounds(exits, spec, n - 1), exits(n - 1), DelayOf(spec, n);
      var a := before + [Spawned(rc)];
      var b := a + [RestartAttempt(n, d, rc)];
      OneMore(before, Spawned(rc));
      OneMore(a, RestartAttempt(n, d, rc));
      OneMore(b, Slept(d));
      assert Rounds(exits, spec, n) == b + [Slept(d)];
      assert Delays(a) == Delays(before) && Delays(b) == Delays(a);
    }
  }

  lemma DelaysRiseTo(exits: nat -> int, spec: RestartSpec, last: nat)
    requires spec.initial >= 0 && FirstStop(exits, spec, last)
    ensures forall a: nat, b: nat | 1 <= a <= b <= last :: DelayOf(spec, a) <= DelayOf(spec, b) <= spec.cap
  {
    forall a: nat, b: nat | 1 <= a <= b <= last
      ensures DelayOf(spec, a) <= DelayOf(spec, b) <= spec.cap
    {
      assert !StopsAt(exits, spec, b - 1);
      DelaysRise(a, b, spec);
    }
  }

  /** With N attempts allowed the run always ends: after at most N+1 spawns and one sleep between each two, with one
      terminal event, its last, and with delays that rise and never pass the cap. */
  lemma {:induction false} RunIsBounded(exits: nat -> int, spec: RestartSpec, last: nat)
    requires spec.maxAttempts > 0 && spec.initial >= 0
    ensures exists k: nat :: StopsAt(exits, spec, k)
    ensures FirstStop(exits, spec, last) ==>
              var trace := Rounds(exits, spec, last) + [Spawned(exits(last)), Terminal(exits, spec, last)];
              Spawns(trace) == last + 1 <= spec.maxAttempts + 1 && |Delays(trace)| == last && Terminals(trace) == 1 &&
              (forall i | 0 <= i < last :: Delays(trace)[i] <= spec.cap) &&
              (forall i, j | 0 <= i < j < last :: Delays(trace)[i] <= Delays(trace)[j])
  {
    hide DelayOf;
    assert StopsAt(exits, spec, spec.maxAttempts);
    if FirstStop(exits, spec, last) {
      var before := Rounds(exits, spec, last);
      var a := before + [Spawned(exits(last))];
      RoundsTell(exits, spec, last);
      OneMore(before, Spawned(exits(last)));
      OneMore(a, Terminal(exits, spec, last));
      assert before + [Spawned(exits(last)), Terminal(exits, spec, last)] == a + [Terminal(exits, spec, last)];
      DelaysRiseTo(exits, spec, last);
    }
  }

  // ------------------------------------------------------------------ the health probe

  /** How many failures the history ends with. */
  function Trailing(healthy: seq<bool>): nat {
    if |healthy| == 0 || healthy[|healthy| - 1] then 0 else Trailing(healthy[..|healthy| - 1]) + 1
  }

  /** Some run of that many consecutive failures. */
  ghost predicate FailedInARow(healthy: seq<bool>, n: nat) {
    exists i :: FailedFrom(healthy, i, n)
  }

  ghost predicate FailedFrom(healthy: seq<bool>, i: int, n: nat) {
    0 <= i && i + n <= |healthy| && forall j | i <= j < i + n :: !healthy[j]
  }

  lemma {:induction false} TrailingIs(healthy: seq<bool>, n: nat)
    ensures Trailing(healthy) <= |healthy|
    ensures Trailing(healthy) >= n <==> n <= |healthy| && FailedFrom(healthy, |healthy| - n, n)
  {
    if |healthy| > 0 && n > 0 {
      var init := healthy[..|healthy| - 1];
      TrailingIs(init, n - 1);
      if healthy[|healthy| - 1] {
        assert !FailedFrom(healthy, |healthy| - n, n);
      } else if FailedFrom(init, |init| - (n - 1), n - 1) && n <= |healthy| {
        forall j | |healthy| - n <= j < |healthy|
          ensures !healthy[j]
        {
          assert j == |healthy| - 1 || healthy[j] == init[j];
        }
      }
    } else if |healthy| > 0 {
      TrailingIs(healthy[..|healthy| - 1], 0);
    }
  }

  /** One more tick completes a run exactly when the history then ends in one. */
  lemma OneMoreTick(healthy: seq<bool>, h: bool, n: nat)
    requires n >= 1
    ensures FailedInARow(healthy + [h], n) <==> FailedInARow(healthy, n) || (!h && Trailing(healthy + [h]) >= n)
  {
    var longer := healthy + [h];
    TrailingIs(longer, n);
    if FailedInARow(longer, n) {
      var i :| FailedFrom(longer, i, n);
      if i + n <= |healthy| {
        assert FailedFrom(healthy, i, n);
      } else {
        assert i == |longer| - n && !longer[|longer| - 1];
      }
    }
    if FailedInARow(healthy, n) {
      var i :| FailedFrom(healthy, i, n);
      assert FailedFrom(longer, i, n);
    }
  }

  class HealthzProbe {
    const failureThreshold: nat
    var consecutiveFailures: nat
    var restartRequired: bool
    ghost var history: seq<bool>

    /** The flag is up exactly when the threshold was ever reached without a break. */
    ghost predicate Valid()
      reads this
    {
      failureThreshold >= 1 && consecutiveFailures == Trailing(history) &&
      (restartRequired <==> FailedInARow(history, failureThreshold))
    }

    constructor (failureThreshold: nat)
      requires failureThreshold >= 1
      ensures Valid() && history == [] && this.failureThreshold == failureThreshold
    {
      this.failureThreshold := failureThreshold;
      consecutiveFailures, restartRequired, history := 0, false, [];
    }

    /** One probe; a check that raised counts as unhealthy. */
    method Tick(healthy: bool)
      requires Valid()
      modifies this
      ensures Valid() && history == old(history) + [healthy]
      ensures restartRequired <==> FailedInARow(history, failureThreshold)
    {
      OneMoreTick(history, healthy, failureThreshold);
      assert (history + [healthy])[..|history|] == history;
      history := history + [healthy];
      if healthy {
        consecutiveFailures := 0;
      } else {
        consecutiveFailures := consecutiveFailures + 1;
        if consecutiveFailures >= failureThreshold {
          restartRequired := true;
        }
      }
    }
  }
}
