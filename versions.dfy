/**
  How the two versions relate: the newer `end` runs a filtered selection of the older
  one's hooks, and the two early consumption estimates agree exactly when the first change
  comes late enough for the older seed index not to matter.
 */
module VersionComparison {
  import opened Wrappers
  import opened Session
  import MonitorV231
  import MonitorV202

  /** `a` is `b` with some elements deleted, the rest kept in order. */
  predicate Subsequence<T(==)>(a: seq<T>, b: seq<T>)
    decreases |b|
  {
    if b == [] then a == []
    else (a != [] && a[0] == b[0] && Subsequence(a[1..], b[1..])) || Subsequence(a, b[1..])
  }

  lemma {:induction false} EmptySubsequence<T>(b: seq<T>)
    ensures Subsequence([], b)
    decreases |b|
  {
    if b != [] {
      EmptySubsequence(b[1..]);
    }
  }

  lemma {:induction false} SelfSubsequence<T>(a: seq<T>)
    ensures Subsequence(a, a)
    decreases |a|
  {
    if a != [] {
      SelfSubsequence(a[1..]);
    }
  }

  /** Subsequences of the two parts of a concatenation make a subsequence of the whole. */
  lemma {:induction false} SubsequenceConcat<T>(a1: seq<T>, b1: seq<T>, a2: seq<T>, b2: seq<T>)
    requires Subsequence(a1, b1) && Subsequence(a2, b2)
    ensures Subsequence(a1 + a2, b1 + b2)
    decreases |b1|
  {
    if b1 == [] {
      assert a1 + a2 == a2 && b1 + b2 == b2;
    } else {
      assert (b1 + b2)[0] == b1[0] && (b1 + b2)[1..] == b1[1..] + b2;
      if a1 != [] && a1[0] == b1[0] && Subsequence(a1[1..], b1[1..]) {
        SubsequenceConcat(a1[1..], b1[1..], a2, b2);
        assert (a1 + a2)[0] == a1[0] && (a1 + a2)[1..] == a1[1..] + a2;
      } else {
        SubsequenceConcat(a1, b1[1..], a2, b2);
      }
    }
  }

  /** A hook under a condition is a subsequence of the same hook without it. */
  lemma HookIfSubsequence(cond: bool, hook: Hook, cmd: Option<string>)
    ensures Subsequence(HookIf(cond, hook, cmd), HookIf(true, hook, cmd))
  {
    EmptySubsequence(HookIf(true, hook, cmd));
    SelfSubsequence(HookIf(true, hook, cmd));
  }

  /**
    The newer version's end actions are the older version's with the minimum and maximum
    hooks possibly dropped: the newer one only adds a threshold test in front of each.
   */
  lemma NewerEndHooksAreFiltered(opts: Options, socEnd: int)
    ensures Subsequence(MonitorV231.EndActions(opts, socEnd), MonitorV202.EndActions(opts))
  {
    var minHit := opts.minimumSoc.Some? && socEnd <= opts.minimumSoc.value;
    var maxHit := opts.maximumSoc.Some? && socEnd >= opts.maximumSoc.value;
    var w: seq<Action> := [TerminateWorkers];
    var n1, o1 := HookIf(minHit, OnMinimumSoc, opts.cmdMinSoc), HookIf(true, OnMinimumSoc, opts.cmdMinSoc);
    var n2, o2 := HookIf(maxHit, OnMaximumSoc, opts.cmdMaxSoc), HookIf(true, OnMaximumSoc, opts.cmdMaxSoc);
    var e := HookIf(true, OnEnd, opts.cmdEnd);
    SelfSubsequence(w);
    SelfSubsequence(e);
    HookIfSubsequence(minHit, OnMinimumSoc, opts.cmdMinSoc);
    HookIfSubsequence(maxHit, OnMaximumSoc, opts.cmdMaxSoc);
    SubsequenceConcat(w, w, n1, o1);
    SubsequenceConcat(w + n1, w + o1, n2, o2);
    SubsequenceConcat(w + n1 + n2, w + o1 + o2, e, e);
  }

  /**
    The two versions run the same end actions exactly when every configured threshold hook
    has its threshold met by the reading taken at the end.
   */
  lemma EndHooksAgreeIffThresholdsMet(opts: Options, socEnd: int)
    ensures MonitorV231.EndActions(opts, socEnd) == MonitorV202.EndActions(opts) <==>
      && (opts.cmdMinSoc.Some? ==> opts.minimumSoc.Some? && socEnd <= opts.minimumSoc.value)
      && (opts.cmdMaxSoc.Some? ==> opts.maximumSoc.Some? && socEnd >= opts.maximumSoc.value)
  {
    var newer, older := MonitorV231.EndActions(opts, socEnd), MonitorV202.EndActions(opts);
    if opts.cmdMinSoc.Some? && !(opts.minimumSoc.Some? && socEnd <= opts.minimumSoc.value) {
      assert RunCommand(OnMinimumSoc, opts.cmdMinSoc.value) in older;
      assert RunCommand(OnMinimumSoc, opts.cmdMinSoc.value) !in newer;
    }
    if opts.cmdMaxSoc.Some? && !(opts.maximumSoc.Some? && socEnd >= opts.maximumSoc.value) {
      assert RunCommand(OnMaximumSoc, opts.cmdMaxSoc.value) in older;
      assert RunCommand(OnMaximumSoc, opts.cmdMaxSoc.value) !in newer;
    }
  }

  /**
    While the history holds exactly one change point, and it lies at sample 3 or later, the
    newer early estimate (sample 0 to the first change) equals the older consumption (sample
    0 to the tracked index): the older tracked index is then that change point.
   */
  lemma EarlyEstimatesAgree(h: seq<int>, rate: int)
    requires rate > 0 && |h| >= 3
    requires MonitorV231.FirstChange(h).Some? && MonitorV231.LastChange(h).None?
    requires MonitorV231.FirstChange(h).value >= 3
    ensures MonitorV231.RatesOf(MonitorV231.WindowAfter(h, rate)).consumption == MonitorV202.ConsumptionAfter(h, rate)
  {
    var f := MonitorV231.FirstChange(h).value;
    var p := h[..|h| - 1];
    MonitorV231.ChangesSnoc(p, h[|h| - 1]);
    assert p + [h[|h| - 1]] == h;
    assert MonitorV231.LastChange(p).None?;
    MonitorV231.FirstChangeIsLeast(h);
    MonitorV231.LastChangeIsGreatest(h);
    MonitorV202.TrackedIndexIsLatestChange(h);
    var c := MonitorV202.TrackedIndex(h);
    assert c == f;
    MonitorV231.EarlySpanDivisorsNonZero(h, rate);
  }

  /**
    With the first change at sample 1 the two early estimates differ: readings 80, 79, 79
    percent at ten-second samples give 360 %/h in the newer version (one percent over ten
    seconds) and 180 %/h in the older one (one percent over the twenty seconds up to its
    seed index 2).
   */
  lemma EarlyEstimatesDiffer()
    ensures var h := [8000, 7900, 7900];
      && MonitorV231.RatesOf(MonitorV231.WindowAfter(h, 10)).consumption == 360.0
      && MonitorV202.ConsumptionAfter(h, 10) == 180.0
  {
    EarlyWindowExample();
    assert MonitorV231.RatesOf(MonitorV231.Span(100, 10)).consumption == 360.0;
    assert MonitorV202.TrackedIndex([8000, 7900, 7900]) == 2;
    assert MonitorV202.PercentPerHour(100, 20) == 180.0;
  }

  /** The newer version's window after readings 80, 79, 79 percent: one percent over one sample. */
  lemma EarlyWindowExample()
    ensures MonitorV231.WindowAfter([8000, 7900, 7900], 10) == MonitorV231.Span(100, 10)
  {
    var h1: seq<int> := [8000];
    var h2 := h1 + [7900];
    var h3 := h2 + [7900];
    assert MonitorV231.Changes(h1) == [];
    MonitorV231.ChangesSnoc(h1, 7900);
    MonitorV231.ChangesSnoc(h2, 7900);
    assert h3[..2] == h2;
    assert h3 == [8000, 7900, 7900];
  }
}
