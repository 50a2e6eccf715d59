/**
  What both script versions share, line for line: the command-line options the core
  reads, the resolution of the two periods, the drift-compensated wait, the output gate,
  the minimum/maximum termination test, the hooks, and the "first value that is not a
  placeholder" capture of a summary start value.
 */
module Session {
  import opened Wrappers

  /** The options the core reads; each is `None` when not given on the command line. */
  datatype Options = Options(
    sampleRate: Option<int>,
    outputRate: Option<int>,
    minimumSoc: Option<int>,
    maximumSoc: Option<int>,
    cmdMinSoc: Option<string>,
    cmdMaxSoc: Option<string>,
    cmdStart: Option<string>,
    cmdEnd: Option<string>)

  /**
    Outcome of the period set-up: both periods in seconds, or the exit with code 1 that
    `end_error` performs when the output period is not a multiple of the sample period, or
    the ZeroDivisionError that `output_rate % sample_rate` raises for a zero sample period.
   */
  datatype Periods = Resolved(sample: int, output: int) | ExitCode1 | DivisionByZero

  function ResolvePeriods(sample: Option<int>, output: Option<int>): (r: Periods)
    ensures sample.None? && output.None? ==> r == Resolved(10, 10)
    ensures sample.None? && output.Some? ==> r == Resolved(output.value, output.value)
    ensures sample.Some? && output.None? ==> r == Resolved(sample.value, sample.value)
    ensures sample.Some? && output.Some? && sample.value == 0 ==> r == DivisionByZero
    ensures sample.Some? && output.Some? && sample.value != 0 ==>
      (r == ExitCode1 <==> output.value % sample.value != 0)
    ensures r.Resolved? ==>
      && (sample.Some? ==> r.sample == sample.value)
      && (output.Some? ==> r.output == output.value)
      && (r.sample != 0 ==> r.output % r.sample == 0)
      && (r.sample == 0 ==> r.output == 0)
  {
    match (sample, output)
    case (None, None) => Resolved(10, 10)
    case (None, Some(o)) => Resolved(o, o)
    case (Some(s), None) => Resolved(s, s)
    case (Some(s), Some(o)) =>
      if s == 0 then DivisionByZero
      else if o % s != 0 then ExitCode1
      else Resolved(s, o)
  }

  /**
    Periods with which the main loop runs without raising: a positive sample period (a
    negative one makes the first `sleep` raise) and a non-zero output period that is a
    multiple of it (a zero one makes the output gate divide by zero).
   */
  predicate Runnable(sample: int, output: int) {
    sample > 0 && output != 0 && output % sample == 0
  }

  lemma MultipleAtLeast(k: int, m: int)
    requires m > 0 && k >= 1
    ensures k * m >= m
  {}

  lemma FactorOut(a: int, b: int, m: int)
    ensures a * m - b * m == (a - b) * m
  {}

  /** Euclidean division is unique: `q` and `r` are the quotient and remainder of `a` by `m`. */
  lemma DivModUnique(a: int, m: int, q: int, r: int)
    requires m > 0 && a == q * m + r && 0 <= r < m
    ensures a % m == r && a / m == q
  {
    var q0, r0 := a / m, a % m;
    assert a == q0 * m + r0;
    if q > q0 {
      MultipleAtLeast(q - q0, m);
    } else if q < q0 {
      MultipleAtLeast(q0 - q, m);
    }
  }

  /** Sample `j` of a history of readings is a change point: its reading differs from the one before it. */
  predicate IsChange(h: seq<int>, j: int) {
    1 <= j < |h| && h[j] != h[j - 1]
  }

  /** Whether time `t` (in seconds since the session start) falls on a tick of period `rate`. */
  predicate OnTick(rate: int, t: int)
    requires rate > 0
  {
    t % rate == 0
  }

  /**
    The time the loop sleeps after a sample taken `elapsed` seconds into the session:
    `rate - (elapsed mod rate)`. It is positive, at most one period, and the least wait
    that brings the next sample onto a multiple of the period.
   */
  function Wait(rate: int, elapsed: int): (w: int)
    requires rate > 0
    ensures 0 < w <= rate
    ensures OnTick(rate, elapsed + w)
    ensures forall t | elapsed < t < elapsed + w :: !OnTick(rate, t)
  {
    var q, r := elapsed / rate, elapsed % rate;
    var w := rate - r;
    DivModUnique(elapsed + w, rate, q + 1, 0);
    forall t | elapsed < t < elapsed + w ensures !OnTick(rate, t) {
      DivModUnique(t, rate, q, r + (t - elapsed));
    }
    w
  }

  /** Whether sample `i` is printed: `i % (output / sample) == 0`. */
  predicate Emitted(i: nat, sample: int, output: int)
    requires Runnable(sample, output)
  {
    i % (output / sample) == 0
  }

  /** A remainder by a negative divisor is the remainder by its magnitude. */
  lemma ModNegative(n: int, q: int)
    requires q < 0
    ensures n % q == n % -q
  {
    var d, r := n / q, n % q;
    assert n == d * q + r && 0 <= r < -q;
    assert d * q == (-d) * (-q);
    DivModUnique(n, -q, -d, r);
  }

  /** Whether sample `i` is printed, stated with the magnitude `m` of the gate's divisor. */
  lemma EmittedEvery(sample: int, output: int, i: nat, m: int)
    requires Runnable(sample, output)
    requires m == (if output / sample < 0 then -(output / sample) else output / sample)
    ensures m > 0 && (Emitted(i, sample, output) <==> i % m == 0)
  {
    var q := output / sample;
    DivModUnique(output, sample, q, 0);
    if q < 0 {
      ModNegative(i, q);
    }
  }

  /**
    The output gate prints sample 0, and after each printed sample the next printed one
    is exactly `|output / sample|` samples later (every sample when the periods are equal).
   */
  lemma EmissionPattern(sample: int, output: int, i: nat)
    requires Runnable(sample, output)
    ensures Emitted(0, sample, output)
    ensures output == sample ==> Emitted(i, sample, output)
    ensures Emitted(i, sample, output) ==>
      var q := if output / sample < 0 then -(output / sample) else output / sample;
      && Emitted(i + q, sample, output)
      && forall j: nat | i < j < i + q :: !Emitted(j, sample, output)
  {
    var m := if output / sample < 0 then -(output / sample) else output / sample;
    EmittedEvery(sample, output, 0, m);
    EmittedEvery(sample, output, i, m);
    if output == sample {
      DivModUnique(sample, sample, 1, 0);
      DivModUnique(i, 1, i, 0);
    }
    if Emitted(i, sample, output) {
      var k := i / m;
      DivModUnique(i, m, k, 0);
      EmittedEvery(sample, output, i + m, m);
      DivModUnique(i + m, m, k + 1, 0);
      forall j: nat | i < j < i + m ensures !Emitted(j, sample, output) {
        EmittedEvery(sample, output, j, m);
        DivModUnique(j, m, k, j - i);
      }
    }
  }

  /** The termination test of the loop: minimum set and reached, or maximum set and reached. */
  predicate ThresholdReached(soc: int, minimumSoc: Option<int>, maximumSoc: Option<int>) {
    (minimumSoc.Some? && soc <= minimumSoc.value * 100) ||
    (maximumSoc.Some? && soc >= maximumSoc.value * 100)
  }

  /** The hooks a session can run, and the order they come in at the end. */
  datatype Hook = OnStart | OnMinimumSoc | OnMaximumSoc | OnEnd

  function HookRank(h: Hook): nat {
    match h
    case OnStart => 0
    case OnMinimumSoc => 1
    case OnMaximumSoc => 2
    case OnEnd => 3
  }

  /** The externally visible steps a session takes; `os.system` becomes `RunCommand`. */
  datatype Action = TerminateWorkers | RunCommand(hook: Hook, command: string)

  /** Every hook runs at most once, and hooks run in the order start, minimum, maximum, end. */
  predicate InHookOrder(actions: seq<Action>) {
    forall a, b | 0 <= a < b < |actions| && actions[a].RunCommand? && actions[b].RunCommand? ::
      HookRank(actions[a].hook) < HookRank(actions[b].hook)
  }

  /** The `cmd_start` hook, run before the header is printed. */
  function StartActions(opts: Options): (r: seq<Action>)
    ensures forall c :: RunCommand(OnStart, c) in r <==> opts.cmdStart == Some(c)
    ensures forall a | a in r :: a.RunCommand? && a.hook == OnStart
    ensures |r| <= 1
  {
    if opts.cmdStart.Some? then [RunCommand(OnStart, opts.cmdStart.value)] else []
  }

  /** The hook `hook` with command `cmd`, run when `cond` holds and the command is configured. */
  function HookIf(cond: bool, hook: Hook, cmd: Option<string>): (r: seq<Action>)
    ensures |r| <= 1
    ensures forall a :: a in r <==> cond && cmd.Some? && a == RunCommand(hook, cmd.value)
  {
    if cond && cmd.Some? then [RunCommand(hook, cmd.value)] else []
  }

  /** Two action sequences in hook order, the first below rank `k` and the second from it, stay in order joined. */
  lemma OrderedConcat(a: seq<Action>, b: seq<Action>, k: nat)
    requires InHookOrder(a) && InHookOrder(b)
    requires forall x | x in a && x.RunCommand? :: HookRank(x.hook) < k
    requires forall y | y in b && y.RunCommand? :: HookRank(y.hook) >= k
    ensures InHookOrder(a + b)
  {
    var r := a + b;
    forall i, j | 0 <= i < j < |r| && r[i].RunCommand? && r[j].RunCommand?
      ensures HookRank(r[i].hook) < HookRank(r[j].hook)
    {
      if j < |a| {
        assert r[i] == a[i] && r[j] == a[j];
      } else if i < |a| {
        assert r[i] == a[i] && r[j] == b[j - |a|];
        assert r[i] in a && r[j] in b;
      } else {
        assert r[i] == b[i - |a|] && r[j] == b[j - |a|];
      }
    }
  }

  /**
    What `end` does besides printing: stop the workers, then run the minimum hook (when
    `minimumHit`), the maximum hook (when `maximumHit`) and the end hook, each only when
    its command is configured.
   */
  function EndActionsWhen(opts: Options, minimumHit: bool, maximumHit: bool): seq<Action> {
    [TerminateWorkers]
      + HookIf(minimumHit, OnMinimumSoc, opts.cmdMinSoc)
      + HookIf(maximumHit, OnMaximumSoc, opts.cmdMaxSoc)
      + HookIf(true, OnEnd, opts.cmdEnd)
  }

  /** `end` first stops the workers; everything after that is a hook other than the start hook. */
  lemma EndActionsShape(opts: Options, minimumHit: bool, maximumHit: bool)
    ensures var r := EndActionsWhen(opts, minimumHit, maximumHit);
      && |r| >= 1 && r[0] == TerminateWorkers
      && forall a | a in r[1..] :: a.RunCommand? && a.hook != OnStart
  {
    var r := EndActionsWhen(opts, minimumHit, maximumHit);
    assert r[1..] == HookIf(minimumHit, OnMinimumSoc, opts.cmdMinSoc)
      + HookIf(maximumHit, OnMaximumSoc, opts.cmdMaxSoc) + HookIf(true, OnEnd, opts.cmdEnd);
  }

  /** The hooks of `end` run in the order minimum, maximum, end. */
  lemma EndActionsInOrder(opts: Options, minimumHit: bool, maximumHit: bool)
    ensures InHookOrder(EndActionsWhen(opts, minimumHit, maximumHit))
  {
    var t: seq<Action> := [TerminateWorkers];
    var m := HookIf(minimumHit, OnMinimumSoc, opts.cmdMinSoc);
    var x := HookIf(maximumHit, OnMaximumSoc, opts.cmdMaxSoc);
    var e := HookIf(true, OnEnd, opts.cmdEnd);
    OrderedConcat(t, m, 1);
    OrderedConcat(t + m, x, 2);
    OrderedConcat(t + m + x, e, 3);
  }

  /**
    Each hook of `end` runs exactly when its condition holds and its command is
    configured, and then with that command.
   */
  lemma EndActionsHooks(opts: Options, minimumHit: bool, maximumHit: bool)
    ensures var r := EndActionsWhen(opts, minimumHit, maximumHit);
      && (forall c :: RunCommand(OnMinimumSoc, c) in r <==> minimumHit && opts.cmdMinSoc == Some(c))
      && (forall c :: RunCommand(OnMaximumSoc, c) in r <==> maximumHit && opts.cmdMaxSoc == Some(c))
      && (forall c :: RunCommand(OnEnd, c) in r <==> opts.cmdEnd == Some(c))
  {
  }

  /** A whole session's actions keep the hook order: the start hook comes before everything `end` runs. */
  lemma SessionHookOrder(opts: Options, minimumHit: bool, maximumHit: bool)
    ensures InHookOrder(StartActions(opts) + EndActionsWhen(opts, minimumHit, maximumHit))
  {
    var e := EndActionsWhen(opts, minimumHit, maximumHit);
    EndActionsShape(opts, minimumHit, maximumHit);
    EndActionsInOrder(opts, minimumHit, maximumHit);
    assert InHookOrder(StartActions(opts));
    forall y | y in e && y.RunCommand? ensures HookRank(y.hook) >= 1 {
      assert e == [e[0]] + e[1..];
      assert y in e[1..];
    }
    OrderedConcat(StartActions(opts), e, 1);
  }

  /**
    The first value of a series that is not one of the placeholder values `skip`, or
    `None` when there is none: how a summary start value is captured.
   */
  function FirstOutside(s: seq<real>, skip: set<real>): Option<real> {
    if s == [] then None
    else if s[0] !in skip then Some(s[0])
    else FirstOutside(s[1..], skip)
  }

  /**
    The captured value is absent exactly when every value is a placeholder; otherwise it
    is not a placeholder and it occurs in the series with only placeholders before it.
   */
  lemma {:induction false} FirstOutsideMeaning(s: seq<real>, skip: set<real>)
    ensures FirstOutside(s, skip).None? <==> forall k | 0 <= k < |s| :: s[k] in skip
    ensures FirstOutside(s, skip).Some? ==>
      && FirstOutside(s, skip).value !in skip
      && exists k | 0 <= k < |s| :: s[k] == FirstOutside(s, skip).value && forall j | 0 <= j < k :: s[j] in skip
  {
    if s != [] && s[0] in skip {
      FirstOutsideMeaning(s[1..], skip);
      assert forall k | 1 <= k < |s| :: s[k] == s[1..][k - 1];
      if FirstOutside(s[1..], skip).Some? {
        var k :| 0 <= k < |s[1..]| && s[1..][k] == FirstOutside(s, skip).value && forall j | 0 <= j < k :: s[1..][j] in skip;
        assert s[k + 1] == FirstOutside(s, skip).value;
      }
    }
  }

  /** One capture step: a start value still unset takes `x` unless `x` is a placeholder. */
  function Capture(start: Option<real>, x: real, skip: set<real>): Option<real> {
    if start.None? && x !in skip then Some(x) else start
  }

  /**
    The capture step computes the first value outside `skip`: appending a sample to the
    series changes the capture only while nothing has been captured, and then to the new
    value exactly when it is not a placeholder; a captured value is never overwritten.
   */
  lemma {:induction false} CaptureOnce(s: seq<real>, x: real, skip: set<real>)
    ensures FirstOutside(s + [x], skip) == Capture(FirstOutside(s, skip), x, skip)
  {
    if s != [] {
      assert (s + [x])[1..] == s[1..] + [x];
      CaptureOnce(s[1..], x, skip);
    }
  }
}
