/**
  Version 2.0.2 of the monitor (BatterySoCMonitor.py).

  Readings are integers in hundredths of a percent, as in the newer version. This
  version's estimator keeps only the last reading and one tracked change index: from
  sample 2 on it seeds the index to 2 and moves it to the current sample whenever the
  reading changes; the consumption always runs from sample 0 to the tracked index.
  Samples 0 and 1 print the placeholder -1.
 */
module MonitorV202 {
  import opened Wrappers
  import opened Session

  // ---------------------------------------------------------------------------------
  // The tracked change index

  /**
    The index the estimator tracks after the last sample of `h` (from sample 2 on): seeded
    to 2 and moved to a sample whose reading differs from the remembered one.
   */
  function TrackedIndex(h: seq<int>): (c: nat)
    requires |h| >= 3
    ensures 2 <= c < |h|
    ensures h[c] == h[|h| - 1]
  {
    if |h| == 3 then 2
    else
      var c := TrackedIndex(h[..|h| - 1]);
      if h[|h| - 1] != h[c] then |h| - 1 else c
  }

  /** One more reading moves the tracked index to it exactly when the reading changed. */
  lemma TrackedIndexSnoc(h: seq<int>, v: int)
    requires |h| >= 3
    ensures TrackedIndex(h + [v]) == if v != h[|h| - 1] then |h| else TrackedIndex(h)
  {
    var g := h + [v];
    assert g[..|g| - 1] == h;
    var c := TrackedIndex(h);
    assert g[c] == h[|h| - 1];
  }

  /**
    The tracked index is the latest change point from sample 3 on, or 2 when no sample
    after 2 changed the reading.
   */
  lemma {:induction false} TrackedIndexIsLatestChange(h: seq<int>)
    requires |h| >= 3
    ensures var c := TrackedIndex(h);
      || (c == 2 && forall j | 3 <= j < |h| :: !IsChange(h, j))
      || (3 <= c && IsChange(h, c) && forall j | c < j < |h| :: !IsChange(h, j))
  {
    if |h| > 3 {
      var p := h[..|h| - 1];
      TrackedIndexIsLatestChange(p);
      var c := TrackedIndex(p);
      assert forall j | 1 <= j < |p| :: IsChange(h, j) == IsChange(p, j);
      if h[|h| - 1] == h[c] {
        assert !IsChange(h, |h| - 1);
      }
    }
  }

  // ---------------------------------------------------------------------------------
  // The consumption

  /** Percent per hour for a drop of `socDelta` hundredths of a percent over `seconds` seconds. */
  function PercentPerHour(socDelta: int, seconds: int): real
    requires seconds != 0
  {
    (socDelta as real / 100.0) / (seconds as real / 3600.0)
  }

  /** The consumption printed after the last sample of `h`, placeholder -1 for samples 0 and 1. */
  function ConsumptionAfter(h: seq<int>, rate: int): real
    requires |h| >= 1 && rate > 0
  {
    if |h| < 3 then -1.0
    else
      var c := TrackedIndex(h);
      MultipleAtLeast(c, rate);
      PercentPerHour(h[0] - h[c], c * rate)
  }

  /**
    What the rate means: multiplied by the elapsed hours it gives the drop in percent, and
    it is zero exactly when there is no drop.
   */
  lemma PercentPerHourMeaning(socDelta: int, seconds: int)
    requires seconds > 0
    ensures PercentPerHour(socDelta, seconds) * (seconds as real / 3600.0) == socDelta as real / 100.0
    ensures PercentPerHour(socDelta, seconds) == 0.0 <==> socDelta == 0
  {
  }

  /**
    From sample 2 on the divisor is positive and the consumption is the rate of the drop
    from sample 0 to the current reading over the time up to the tracked index; it is zero
    exactly when the current reading equals sample 0's.
   */
  lemma ConsumptionMeaning(h: seq<int>, rate: int)
    requires |h| >= 3 && rate > 0
    ensures TrackedIndex(h) * rate > 0
    ensures ConsumptionAfter(h, rate) == PercentPerHour(h[0] - h[|h| - 1], TrackedIndex(h) * rate)
    ensures ConsumptionAfter(h, rate) == 0.0 <==> h[|h| - 1] == h[0]
  {
    var c := TrackedIndex(h);
    MultipleAtLeast(c, rate);
    PercentPerHourMeaning(h[0] - h[c], c * rate);
  }

  // ---------------------------------------------------------------------------------
  // The estimator as the script keeps it: a history and two optional globals

  class LastChangeEstimator {
    const sampleRate: int
    var history: seq<int>          // data_soc
    var lastSoc: Option<int>       // median_consumption_last_soc
    var lastChange: Option<nat>    // median_consumption_last_soc_change

    ghost predicate Valid()
      reads this
    {
      && sampleRate > 0
      && (|history| < 3 ==> lastSoc.None? && lastChange.None?)
      && (|history| >= 3 ==>
            && lastChange == Some(TrackedIndex(history))
            && lastSoc == Some(history[|history| - 1]))
    }

    constructor (rate: int)
      requires rate > 0
      ensures Valid() && sampleRate == rate && history == []
    {
      sampleRate := rate;
      history := [];
      lastSoc, lastChange := None, None;
    }

    /** One pass of the loop body's estimator part for reading `v`. */
    method Observe(v: int) returns (consumption: real)
      requires Valid()
      modifies this
      ensures Valid()
      ensures history == old(history) + [v]
      ensures consumption == ConsumptionAfter(history, sampleRate)
    {
      var i := |history|;
      if i >= 3 {
        TrackedIndexSnoc(history, v);
      }
      history := history + [v];
      assert history[..i] == old(history);
      consumption := -1.0;
      if i > 1 {
        var tmpLastSoc: int;
        if lastSoc.Some? {
          tmpLastSoc := lastSoc.value;
        } else {
          lastSoc := Some(v);
          tmpLastSoc := v;
        }
        var tmpLastChange: nat;
        if lastChange.Some? {
          tmpLastChange := lastChange.value;
        } else {
          lastChange := Some(i);
          tmpLastChange := i;
        }
        if tmpLastSoc != v {
          tmpLastChange := i;
          lastChange := Some(i);
          lastSoc := Some(v);
        }
        MultipleAtLeast(tmpLastChange, sampleRate);
        consumption := PercentPerHour(history[0] - history[tmpLastChange], tmpLastChange * sampleRate);
      }
    }
  }

  // ---------------------------------------------------------------------------------
  // The main loop and the session

  /** One pass of the main loop: the reading, the consumption, whether the row was printed, the sleep. */
  datatype Tick = Tick(soc: int, consumption: real, printed: bool, wait: Option<int>)

  /** The consumption values over the samples taken so far. */
  function Series(ticks: seq<Tick>): (s: seq<real>)
    ensures |s| == |ticks|
  {
    if ticks == [] then [] else Series(ticks[..|ticks| - 1]) + [ticks[|ticks| - 1].consumption]
  }

  /** The placeholders the start capture skips: the initial 0 and the -1 of samples 0 and 1. */
  const Skipped: set<real> := {0.0, -1.0}

  /** The start consumption the loop's capture steps hold after the passes `ticks` (`None` is the initial 0). */
  function Captured(ticks: seq<Tick>): Option<real> {
    if ticks == [] then None
    else Capture(Captured(ticks[..|ticks| - 1]), ticks[|ticks| - 1].consumption, Skipped)
  }

  lemma CapturedSnoc(ticks: seq<Tick>, tick: Tick)
    ensures Captured(ticks + [tick]) == Capture(Captured(ticks), tick.consumption, Skipped)
  {
    assert (ticks + [tick])[..|ticks|] == ticks;
  }

  /** The captured value is the first consumption that is neither 0 nor -1. */
  lemma {:induction false} CapturedIsFirst(ticks: seq<Tick>)
    ensures Captured(ticks) == FirstOutside(Series(ticks), Skipped)
  {
    if ticks != [] {
      var p, t := ticks[..|ticks| - 1], ticks[|ticks| - 1];
      assert p + [t] == ticks;
      CapturedIsFirst(p);
      assert Series(ticks) == Series(p) + [t.consumption];
      CaptureOnce(Series(p), t.consumption, Skipped);
    }
  }

  /** The start consumption of the summary: the first value that is neither 0 nor -1, else 0. */
  function StartConsumption(ticks: seq<Tick>): real {
    FirstOutside(Series(ticks), Skipped).GetOr(0.0)
  }

  /** What pass `k` of the loop records, `last` telling whether it ended the loop at a threshold. */
  ghost function TickAt(readings: seq<int>, elapsed: seq<int>, sample: int, output: int, k: nat, last: bool): Tick
    requires Runnable(sample, output) && k < |readings| && |elapsed| == |readings|
  {
    Tick(
      readings[k],
      ConsumptionAfter(readings[..k + 1], sample),
      Emitted(k, sample, output),
      if last then None else Some(Wait(sample, elapsed[k])))
  }

  /**
    The records of the first `n` passes of a run; `atThreshold` says whether the last of
    them stopped at a threshold.
   */
  ghost function RunTicks(readings: seq<int>, elapsed: seq<int>, sample: int, output: int, n: nat, atThreshold: bool): (r: seq<Tick>)
    requires Runnable(sample, output) && n <= |readings| && |elapsed| == |readings|
    ensures |r| == n
  {
    if n == 0 then []
    else RunTicks(readings, elapsed, sample, output, n - 1, false) + [TickAt(readings, elapsed, sample, output, n - 1, atThreshold)]
  }

  /** The passes so far of a run that has not stopped: none reached a threshold. */
  ghost predicate Prefix(opts: Options, sample: int, output: int, readings: seq<int>, elapsed: seq<int>, ticks: seq<Tick>)
    requires Runnable(sample, output) && |elapsed| == |readings|
  {
    && |ticks| <= |readings|
    && (forall k | 0 <= k < |ticks| :: !ThresholdReached(readings[k], opts.minimumSoc, opts.maximumSoc))
    && ticks == RunTicks(readings, elapsed, sample, output, |ticks|, false)
  }

  /**
    The passes of a run of the main loop over `readings` taken at `elapsed` seconds into
    the session: it stops after the first reading that reaches a threshold, and otherwise
    consumes all readings (the interrupt arriving after the last one).
   */
  ghost predicate Ran(opts: Options, sample: int, output: int, readings: seq<int>, elapsed: seq<int>,
                      ticks: seq<Tick>, atThreshold: bool)
    requires Runnable(sample, output) && |elapsed| == |readings|
  {
    && |ticks| <= |readings|
    && (atThreshold ==> |ticks| >= 1 && ThresholdReached(readings[|ticks| - 1], opts.minimumSoc, opts.maximumSoc))
    && (!atThreshold ==> |ticks| == |readings|)
    && (forall k | 0 <= k < |ticks| && (k < |ticks| - 1 || !atThreshold) ::
         !ThresholdReached(readings[k], opts.minimumSoc, opts.maximumSoc))
    && ticks == RunTicks(readings, elapsed, sample, output, |ticks|, atThreshold)
  }

  /** A whole run with the start consumption the summary prints. */
  ghost predicate IsRun(opts: Options, sample: int, output: int, readings: seq<int>, elapsed: seq<int>,
                        ticks: seq<Tick>, atThreshold: bool, start: real)
    requires Runnable(sample, output) && |elapsed| == |readings|
  {
    && Ran(opts, sample, output, readings, elapsed, ticks, atThreshold)
    && start == StartConsumption(ticks)
  }

  /** A pass extends the prefix, or completes the run when it reached a threshold. */
  lemma PassExtends(opts: Options, sample: int, output: int, readings: seq<int>, elapsed: seq<int>,
                    ticks: seq<Tick>, tick: Tick, stop: bool)
    requires Runnable(sample, output) && |elapsed| == |readings|
    requires Prefix(opts, sample, output, readings, elapsed, ticks) && |ticks| < |readings|
    requires stop == ThresholdReached(readings[|ticks|], opts.minimumSoc, opts.maximumSoc)
    requires tick == TickAt(readings, elapsed, sample, output, |ticks|, stop)
    ensures stop ==> Ran(opts, sample, output, readings, elapsed, ticks + [tick], true)
    ensures !stop ==> Prefix(opts, sample, output, readings, elapsed, ticks + [tick])
  {
    assert RunTicks(readings, elapsed, sample, output, |ticks| + 1, stop) == ticks + [tick];
  }

  /** A prefix over all readings is a run ended by the interrupt. */
  lemma PrefixInterrupted(opts: Options, sample: int, output: int, readings: seq<int>, elapsed: seq<int>, ticks: seq<Tick>)
    requires Runnable(sample, output) && |elapsed| == |readings|
    requires Prefix(opts, sample, output, readings, elapsed, ticks) && |ticks| == |readings|
    ensures Ran(opts, sample, output, readings, elapsed, ticks, false)
  {
  }

  /** One pass of the loop body: read, estimate, gate the output, and stop or compute the wait. */
  method Pass(estimator: LastChangeEstimator, opts: Options, output: int, readings: seq<int>, elapsed: seq<int>, k: nat)
    returns (tick: Tick, stop: bool)
    requires Runnable(estimator.sampleRate, output) && k < |readings| && |elapsed| == |readings|
    requires estimator.Valid() && estimator.history == readings[..k]
    modifies estimator
    ensures estimator.Valid() && estimator.history == readings[..k + 1]
    ensures stop == ThresholdReached(readings[k], opts.minimumSoc, opts.maximumSoc)
    ensures tick == TickAt(readings, elapsed, estimator.sampleRate, output, k, stop)
  {
    var soc := readings[k];
    assert readings[..k + 1] == readings[..k] + [soc];
    var consumption := estimator.Observe(soc);
    var printed := Emitted(k, estimator.sampleRate, output);
    stop := ThresholdReached(soc, opts.minimumSoc, opts.maximumSoc);
    tick := Tick(soc, consumption, printed, if stop then None else Some(Wait(estimator.sampleRate, elapsed[k])));
  }

  /** The `while True` loop of `main` on a fresh estimator, with the start consumption it captures. */
  method Loop(estimator: LastChangeEstimator, opts: Options, output: int, readings: seq<int>, elapsed: seq<int>)
    returns (ticks: seq<Tick>, atThreshold: bool, startConsumption: Option<real>)
    requires Runnable(estimator.sampleRate, output) && |elapsed| == |readings|
    requires estimator.Valid() && estimator.history == []
    modifies estimator
    ensures Ran(opts, estimator.sampleRate, output, readings, elapsed, ticks, atThreshold)
    ensures startConsumption == Captured(ticks)
  {
    startConsumption := None;
    ticks, atThreshold := [], false;
    while |ticks| < |readings|
      invariant !atThreshold
      invariant estimator.Valid()
      invariant Prefix(opts, estimator.sampleRate, output, readings, elapsed, ticks)
      invariant estimator.history == readings[..|ticks|]
      invariant startConsumption == Captured(ticks)
      decreases |readings| - |ticks|
    {
      var tick, stop := Pass(estimator, opts, output, readings, elapsed, |ticks|);
      PassExtends(opts, estimator.sampleRate, output, readings, elapsed, ticks, tick, stop);
      CapturedSnoc(ticks, tick);
      startConsumption := Capture(startConsumption, tick.consumption, Skipped);
      ticks := ticks + [tick];
      if stop {
        atThreshold := true;
        return;
      }
    }
    PrefixInterrupted(opts, estimator.sampleRate, output, readings, elapsed, ticks);
  }

  /** The main loop with the start consumption `end` prints (0 when nothing was captured). */
  method MainLoop(opts: Options, sample: int, output: int, readings: seq<int>, elapsed: seq<int>)
    returns (ticks: seq<Tick>, atThreshold: bool, start: real)
    requires Runnable(sample, output) && |elapsed| == |readings|
    ensures IsRun(opts, sample, output, readings, elapsed, ticks, atThreshold, start)
  {
    var estimator := new LastChangeEstimator(sample);
    var startConsumption;
    ticks, atThreshold, startConsumption := Loop(estimator, opts, output, readings, elapsed);
    CapturedIsFirst(ticks);
    start := startConsumption.GetOr(0.0);
  }

  /** The hooks of `end` in this version: each configured one runs, with no threshold test. */
  function EndActions(opts: Options): (r: seq<Action>)
    ensures |r| >= 1 && r[0] == TerminateWorkers && InHookOrder(r)
    ensures forall c :: RunCommand(OnMinimumSoc, c) in r <==> opts.cmdMinSoc == Some(c)
    ensures forall c :: RunCommand(OnMaximumSoc, c) in r <==> opts.cmdMaxSoc == Some(c)
    ensures forall c :: RunCommand(OnEnd, c) in r <==> opts.cmdEnd == Some(c)
  {
    EndActionsShape(opts, true, true);
    EndActionsInOrder(opts, true, true);
    EndActionsHooks(opts, true, true);
    EndActionsWhen(opts, true, true)
  }

  /**
    How a session ends: `end_error` (exit code 1), an uncaught exception (with the actions
    taken before it), or `end` after the loop, with the passes, whether the loop stopped at
    a threshold, the start consumption of the summary and every action taken.
   */
  datatype Outcome =
    | ConfigurationError
    | Crashed(actions: seq<Action>)
    | Completed(ticks: seq<Tick>, atThreshold: bool, start: real, actions: seq<Action>)

  /**
    A whole session: `readings` are the battery reads the loop takes before the interrupt
    (or before a threshold stops it) and `elapsed` the seconds into the session at which
    they are taken. `end` indexes the first reading, so an interrupt before any reading
    raises there, before the hooks.
   */
  method Run(opts: Options, readings: seq<int>, elapsed: seq<int>) returns (outcome: Outcome)
    requires |elapsed| == |readings|
    ensures ResolvePeriods(opts.sampleRate, opts.outputRate) == ExitCode1 ==> outcome == ConfigurationError
    ensures ResolvePeriods(opts.sampleRate, opts.outputRate) == DivisionByZero ==> outcome == Crashed([])
    ensures ResolvePeriods(opts.sampleRate, opts.outputRate).Resolved? ==>
      var p := ResolvePeriods(opts.sampleRate, opts.outputRate);
      var actions := StartActions(opts) + EndActions(opts);
      && InHookOrder(actions)
      && (readings == [] ==> outcome == Crashed(StartActions(opts)))
      && (Runnable(p.sample, p.output) && readings != [] ==>
            && outcome.Completed? && outcome.actions == actions
            && IsRun(opts, p.sample, p.output, readings, elapsed, outcome.ticks, outcome.atThreshold, outcome.start))
      && (!Runnable(p.sample, p.output) && readings != [] && (p.sample == 0 || p.output == 0) ==>
            outcome == Crashed(StartActions(opts)))
      && (!Runnable(p.sample, p.output) && readings != [] && p.sample < 0 && p.output != 0 ==>
            if ThresholdReached(readings[0], opts.minimumSoc, opts.maximumSoc) then
              outcome == Completed([Tick(readings[0], -1.0, true, None)], true, 0.0, actions)
            else outcome == Crashed(StartActions(opts)))
  {
    var periods := ResolvePeriods(opts.sampleRate, opts.outputRate);
    if periods == ExitCode1 {
      return ConfigurationError;
    } else if periods == DivisionByZero {
      return Crashed([]);
    }
    var sample, output := periods.sample, periods.output;
    var start := StartActions(opts);
    SessionHookOrder(opts, true, true);
    var actions := start + EndActions(opts);
    if readings == [] {
      // `end` reads the first reading of an empty history
      outcome := Crashed(start);
    } else if Runnable(sample, output) {
      var ticks, atThreshold, startConsumption := MainLoop(opts, sample, output, readings, elapsed);
      outcome := Completed(ticks, atThreshold, startConsumption, actions);
    } else if sample == 0 || output == 0 {
      // the output gate divides by zero on the first pass
      outcome := Crashed(start);
    } else if ThresholdReached(readings[0], opts.minimumSoc, opts.maximumSoc) {
      // the first pass prints the placeholder and stops before the negative sleep
      outcome := Completed([Tick(readings[0], -1.0, true, None)], true, 0.0, actions);
    } else {
      // the first negative sleep raises
      outcome := Crashed(start);
    }
  }
}
