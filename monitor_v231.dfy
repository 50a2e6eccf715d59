/**
  Version 2.3.1 of the monitor (code/BatterySoCMonitor.py).

  SoC readings are integers in hundredths of a percent (the script rounds the battery
  percentage to two decimals, so equal readings are equal integers). The consumption
  estimator remembers the last reading and the first and last sample at which the reading
  changed, and bases its rate on those change points only:
  - until the first change, every output is the placeholder -1;
  - while only one change is known (and on the sample that brings the second), the rate
    runs from sample 0 to the first change;
  - afterwards it runs from the first change to the latest change.
 */
module MonitorV231 {
  import opened Wrappers
  import opened Session

  // ---------------------------------------------------------------------------------
  // Change points of a history

  /** The change points of a history, from the earliest to the latest. */
  function Changes(h: seq<int>): seq<nat> {
    if |h| <= 1 then []
    else Changes(h[..|h| - 1]) + (if h[|h| - 1] != h[|h| - 2] then [|h| - 1] else [])
  }

  /** Only change points are listed, each below the length of the history, in strictly increasing order. */
  lemma {:induction false} ChangesSound(h: seq<int>)
    ensures forall k | 0 <= k < |Changes(h)| :: IsChange(h, Changes(h)[k])
    ensures forall a, b | 0 <= a < b < |Changes(h)| :: Changes(h)[a] < Changes(h)[b]
  {
    if |h| > 1 {
      var p := h[..|h| - 1];
      ChangesSound(p);
      var c := Changes(p);
      assert Changes(h) == c + (if h[|h| - 1] != h[|h| - 2] then [|h| - 1] else []);
      forall k | 0 <= k < |c| ensures IsChange(h, c[k]) && c[k] < |h| - 1 {
        assert IsChange(p, c[k]);
        assert h[c[k]] == p[c[k]] && h[c[k] - 1] == p[c[k] - 1];
      }
    }
  }

  /** Appending a reading adds its index to the change points exactly when it differs from the last one. */
  lemma ChangesSnoc(h: seq<int>, v: int)
    ensures Changes(h + [v]) == Changes(h) + (if |h| >= 1 && v != h[|h| - 1] then [|h|] else [])
  {
    assert (h + [v])[..|h|] == h;
  }

  /** How one more reading moves the first and last change indices. */
  lemma FirstLastSnoc(h: seq<int>, v: int)
    ensures var changed := |h| >= 1 && v != h[|h| - 1];
      && FirstChange(h + [v]) == (if FirstChange(h).Some? then FirstChange(h) else if changed then Some(|h|) else None)
      && LastChange(h + [v]) == (if changed && FirstChange(h).Some? then Some(|h|) else LastChange(h))
  {
    ChangesSnoc(h, v);
  }

  /** Every change point is listed. */
  lemma {:induction false} ChangesComplete(h: seq<int>, j: int)
    requires IsChange(h, j)
    ensures j in Changes(h)
  {
    var p := h[..|h| - 1];
    if j < |h| - 1 {
      assert IsChange(p, j);
      ChangesComplete(p, j);
    }
  }

  /** `first_change`: the first change point, if any. */
  function FirstChange(h: seq<int>): (f: Option<nat>)
    ensures f.Some? ==> 1 <= f.value < |h|
  {
    var c := Changes(h);
    ChangesSound(h);
    if |c| == 0 then None else Some(c[0])
  }

  /** `last_change`: the latest change point, once there are at least two. */
  function LastChange(h: seq<int>): (l: Option<nat>)
    ensures l.Some? ==> FirstChange(h).Some? && FirstChange(h).value < l.value < |h|
  {
    var c := Changes(h);
    ChangesSound(h);
    if |c| < 2 then None else Some(c[|c| - 1])
  }

  /**
    The first change index is the least sample that differs from its predecessor, and it
    is unset exactly when no sample does.
   */
  lemma FirstChangeIsLeast(h: seq<int>)
    ensures FirstChange(h).None? <==> forall j :: !IsChange(h, j)
    ensures FirstChange(h).Some? ==>
      && IsChange(h, FirstChange(h).value)
      && forall j | IsChange(h, j) :: FirstChange(h).value <= j
  {
    ChangesSound(h);
    var c := Changes(h);
    forall j | IsChange(h, j) ensures |c| > 0 && c[0] <= j {
      ChangesComplete(h, j);
      var k :| 0 <= k < |c| && c[k] == j;
      assert k == 0 || c[0] < c[k];
    }
  }

  /**
    The last change index, when set, is the greatest sample that differs from its
    predecessor and lies strictly after the first change index; while it is unset the first
    change is the only one.
   */
  lemma LastChangeIsGreatest(h: seq<int>)
    ensures LastChange(h).Some? ==>
      && FirstChange(h).Some?
      && FirstChange(h).value < LastChange(h).value < |h|
      && IsChange(h, LastChange(h).value)
      && forall j | IsChange(h, j) :: j <= LastChange(h).value
    ensures LastChange(h).None? && FirstChange(h).Some? ==>
      forall j | IsChange(h, j) :: j == FirstChange(h).value
  {
    ChangesSound(h);
    var c := Changes(h);
    forall j | IsChange(h, j) ensures j in c {
      ChangesComplete(h, j);
    }
    if |c| >= 2 {
      forall j | IsChange(h, j) ensures j <= c[|c| - 1] {
        var k :| 0 <= k < |c| && c[k] == j;
        assert k == |c| - 1 || c[k] < c[|c| - 1];
      }
    }
  }

  /** Between two samples with no change point in between, the reading stays the same. */
  lemma {:induction false} SteadyBetween(h: seq<int>, a: nat, b: nat)
    requires a <= b < |h|
    requires forall j | a < j <= b :: !IsChange(h, j)
    ensures h[b] == h[a]
  {
    if a < b {
      assert !IsChange(h, b);
      SteadyBetween(h, a, b - 1);
    }
  }

  /** No change point at all means every reading equals the first one. */
  lemma SteadyHistory(h: seq<int>)
    requires |h| >= 1
    ensures (forall j :: !IsChange(h, j)) <==> forall k | 0 <= k < |h| :: h[k] == h[0]
  {
    if forall j :: !IsChange(h, j) {
      forall k | 0 <= k < |h| ensures h[k] == h[0] {
        SteadyBetween(h, 0, k);
      }
    }
  }

  // ---------------------------------------------------------------------------------
  // Estimate windows and rates

  /** A rate window: the SoC drop (hundredths of a percent) over the elapsed seconds. */
  datatype Window = NoWindow | Span(socDelta: int, elapsed: int)

  /** The window from the first change to the last change (used once both are known, and at the end). */
  function ChangeSpan(h: seq<int>, rate: int): Window
    requires LastChange(h).Some?
  {
    var f, l := FirstChange(h).value, LastChange(h).value;
    Span(h[f] - h[l], (l - f) * rate)
  }

  /** The early, inaccurate window from sample 0 to the first change. */
  function EarlySpan(h: seq<int>, rate: int): Window
    requires FirstChange(h).Some?
  {
    var f := FirstChange(h).value;
    Span(h[0] - h[f], f * rate)
  }

  /**
    The window the estimator uses after the last sample of `h`: from the first to the last
    change once two changes were known before this sample, otherwise from sample 0 to the
    first change once there is one, otherwise none.
   */
  function WindowAfter(h: seq<int>, rate: int): Window
    requires |h| >= 1
  {
    if LastChange(h[..|h| - 1]).Some? then ChangeSpan(h, rate)
    else if FirstChange(h).Some? then EarlySpan(h, rate)
    else NoWindow
  }

  /**
    The early window never divides by zero: the first change lies after sample 0 and its
    reading differs from sample 0's.
   */
  lemma EarlySpanDivisorsNonZero(h: seq<int>, rate: int)
    requires rate > 0 && FirstChange(h).Some?
    ensures EarlySpan(h, rate).elapsed > 0 && EarlySpan(h, rate).socDelta != 0
  {
    var f := FirstChange(h).value;
    FirstChangeIsLeast(h);
    SteadyBetween(h, 0, f - 1);
  }

  /**
    The change window's time divisor is positive, and its SoC divisor is non-zero while
    exactly two change points are known. With more changes the SoC may have returned to the
    first change's reading, and the drop is then zero.
   */
  lemma ChangeSpanDivisors(h: seq<int>, rate: int)
    requires rate > 0 && LastChange(h).Some?
    ensures ChangeSpan(h, rate).elapsed > 0
    ensures |Changes(h)| == 2 ==> ChangeSpan(h, rate).socDelta != 0
  {
    var f, l := FirstChange(h).value, LastChange(h).value;
    LastChangeIsGreatest(h);
    assert (l - f) * rate > 0 by {
      MultipleAtLeast(l - f, rate);
    }
    if |Changes(h)| == 2 {
      var c := Changes(h);
      forall j | f < j <= l - 1 ensures !IsChange(h, j) {
        if IsChange(h, j) {
          ChangesComplete(h, j);
          assert false;
        }
      }
      SteadyBetween(h, f, l - 1);
    }
  }

  /** The three printed estimates: percent per hour, seconds per percent, seconds per 100 percent. */
  datatype Rates = Rates(consumption: real, spp: real, sfb: real)

  /** The placeholder printed when no estimate exists. */
  const Undefined := Rates(-1.0, -1.0, -1.0)

  lemma RateProduct(p: real, e: real)
    requires p != 0.0 && e != 0.0
    ensures (p / (e / 3600.0)) * (e / p) == 3600.0
  {
    assert p / (e / 3600.0) == 3600.0 * p / e;
  }

  /** The estimates of a window, with every division by zero guarded to give -1. */
  function RatesOf(w: Window): Rates {
    match w
    case NoWindow => Undefined
    case Span(d, e) =>
      var percent := d as real / 100.0;
      var hours := e as real / 3600.0;
      var consumption := if e == 0 then -1.0 else percent / hours;
      var spp := if d == 0 then -1.0 else e as real / percent;
      Rates(consumption, spp, if d == 0 then -1.0 else spp * 100.0)
  }

  /**
    What the guarded estimates of a window mean: the consumption (percent per hour) times
    the elapsed hours is the SoC drop in percent; seconds per percent times the drop is the
    elapsed time; the two multiply to 3600; seconds per full battery is a hundred times
    seconds per percent; a zero divisor gives the placeholder -1 instead of raising.
   */
  lemma RatesMeaning(w: Window)
    ensures w.NoWindow? ==> RatesOf(w) == Undefined
    ensures w.Span? && w.elapsed != 0 ==>
      RatesOf(w).consumption * (w.elapsed as real / 3600.0) == w.socDelta as real / 100.0
    ensures w.Span? && w.socDelta != 0 ==>
      && RatesOf(w).spp * (w.socDelta as real / 100.0) == w.elapsed as real
      && RatesOf(w).sfb == 100.0 * RatesOf(w).spp
    ensures w.Span? && w.elapsed != 0 && w.socDelta != 0 ==> RatesOf(w).consumption * RatesOf(w).spp == 3600.0
    ensures w.Span? && w.elapsed == 0 ==> RatesOf(w).consumption == -1.0
    ensures w.Span? && w.socDelta == 0 ==> RatesOf(w).spp == -1.0 && RatesOf(w).sfb == -1.0
  {
    if w.Span? && w.elapsed != 0 && w.socDelta != 0 {
      RateProduct(w.socDelta as real / 100.0, w.elapsed as real);
    }
  }

  /** The outcome of the divisions as the source writes them, without any guard. */
  datatype Computed = Computed(rates: Rates) | ZeroDivisionError

  /**
    The estimates exactly as written in the loop and in `end`: a zero divisor raises
    ZeroDivisionError; otherwise they agree with the guarded `RatesOf`.
   */
  function UnguardedRates(w: Window): (r: Computed)
    ensures r.ZeroDivisionError? <==> w.Span? && (w.elapsed == 0 || w.socDelta == 0)
    ensures r.Computed? ==> r.rates == RatesOf(w)
  {
    match w
    case NoWindow => Computed(Undefined)
    case Span(d, e) =>
      if e == 0 || d == 0 then ZeroDivisionError
      else
        var percent := d as real / 100.0;
        var spp := e as real / percent;
        Computed(Rates(percent / (e as real / 3600.0), spp, spp * 100.0))
  }

  /**
    The estimate is the all-placeholder triple exactly while every reading equals the
    first one; the first change always yields a real estimate.
   */
  lemma UndefinedUntilFirstChange(h: seq<int>, rate: int)
    requires |h| >= 1 && rate > 0
    ensures RatesOf(WindowAfter(h, rate)) == Undefined <==> forall k | 0 <= k < |h| :: h[k] == h[0]
  {
    SteadyHistory(h);
    FirstChangeIsLeast(h);
    var w := WindowAfter(h, rate);
    RatesMeaning(w);
    if LastChange(h[..|h| - 1]).Some? {
      ChangesSnoc(h[..|h| - 1], h[|h| - 1]);
      assert h[..|h| - 1] + [h[|h| - 1]] == h;
      ChangeSpanDivisors(h, rate);
    } else if FirstChange(h).Some? {
      EarlySpanDivisorsNonZero(h, rate);
    }
  }

  /**
    Whether the pass that takes the last reading of `h` raises ZeroDivisionError in the
    unguarded divisions of the loop.
   */
  predicate PassRaises(h: seq<int>, rate: int)
    requires |h| >= 1
  {
    UnguardedRates(WindowAfter(h, rate)).ZeroDivisionError?
  }

  /**
    Once two change points are known before the last reading, the window runs from the
    first of them to the last reading, over a positive time.
   */
  lemma ChangeWindowAfter(h: seq<int>, rate: int)
    requires |h| >= 1 && rate > 0 && LastChange(h[..|h| - 1]).Some?
    ensures WindowAfter(h, rate).Span? && WindowAfter(h, rate).elapsed > 0
    ensures WindowAfter(h, rate).socDelta == h[FirstChange(h[..|h| - 1]).value] - h[|h| - 1]
  {
    var p := h[..|h| - 1];
    FirstLastSnoc(p, h[|h| - 1]);
    assert p + [h[|h| - 1]] == h;
    LastChangeIsGreatest(h);
    SteadyBetween(h, LastChange(h).value, |h| - 1);
    ChangeSpanDivisors(h, rate);
  }

  /**
    A pass raises exactly when two change points were known before it and its reading is
    back at the reading of the first change.
   */
  lemma PassRaisesMeaning(h: seq<int>, rate: int)
    requires |h| >= 1 && rate > 0
    ensures PassRaises(h, rate) <==>
      LastChange(h[..|h| - 1]).Some? && h[|h| - 1] == h[FirstChange(h[..|h| - 1]).value]
  {
    if LastChange(h[..|h| - 1]).Some? {
      ChangeWindowAfter(h, rate);
    } else if FirstChange(h).Some? {
      EarlySpanDivisorsNonZero(h, rate);
    }
  }

  /** A raising pass needs at least three change points, so no pass before the fourth raises. */
  lemma RaisingNeedsThreeChanges(h: seq<int>, rate: int)
    requires |h| >= 1 && rate > 0 && PassRaises(h, rate)
    ensures |Changes(h)| >= 3 && |h| >= 4
  {
    var p := h[..|h| - 1];
    PassRaisesMeaning(h, rate);
    FirstLastSnoc(p, h[|h| - 1]);
    assert p + [h[|h| - 1]] == h;
    ChangeSpanDivisors(h, rate);
    ChangesSound(h);
    var c := Changes(h);
    assert c[0] < c[1] < c[2];
  }

  // ---------------------------------------------------------------------------------
  // The estimator as the script keeps it: a history and three optional globals

  class ChangeEstimator {
    const sampleRate: int
    var history: seq<int>          // data_soc
    var lastSoc: Option<int>       // median_consumption_last_soc
    var firstChange: Option<nat>   // median_consumption_first_soc_change
    var lastChange: Option<nat>    // median_consumption_last_soc_change

    ghost predicate Valid()
      reads this
    {
      && sampleRate > 0
      && (history == [] ==> lastSoc.None?)
      && (history != [] ==> lastSoc == Some(history[|history| - 1]))
      && firstChange == FirstChange(history)
      && lastChange == LastChange(history)
    }

    constructor (rate: int)
      requires rate > 0
      ensures Valid() && sampleRate == rate && history == []
    {
      sampleRate := rate;
      history := [];
      lastSoc, firstChange, lastChange := None, None, None;
    }

    /**
      One pass of the loop body's estimator part for reading `v`: the globals are updated and
      the window the estimates of this pass are computed from is returned.
     */
    method Observe(v: int) returns (w: Window)
      requires Valid()
      modifies this
      ensures Valid()
      ensures history == old(history) + [v]
      ensures w == WindowAfter(history, sampleRate)
    {
      var i := |history|;
      FirstLastSnoc(history, v);
      history := history + [v];
      assert history[..i] == old(history);
      w := NoWindow;
      if lastSoc.Some? && firstChange.Some? && lastChange.Some? {
        if lastSoc.value != v {
          lastChange := Some(i);
          lastSoc := Some(v);
        }
        var f, l := firstChange.value, lastChange.value;
        w := Span(history[f] - history[l], l * sampleRate - f * sampleRate);
        FactorOut(l, f, sampleRate);
      } else {
        if lastSoc.None? {
          lastSoc := Some(v);
        }
        if firstChange.None? {
          if lastSoc.value != v {
            firstChange := Some(i);
            lastSoc := Some(v);
          }
        } else if lastChange.None? {
          if lastSoc.value != v {
            lastChange := Some(i);
            lastSoc := Some(v);
          }
        }
        if firstChange.Some? {
          var f := firstChange.value;
          w := Span(history[0] - history[f], f * sampleRate);
        }
      }
    }

    /**
      The end values of the summary, divided as `end` writes them: from the change window
      once both change indices are set, otherwise the placeholders.
     */
    method EndEstimate() returns (values: Computed)
      requires Valid()
      ensures values == EndComputed(history, sampleRate)
    {
      values := Computed(Undefined);
      if firstChange.Some? && lastChange.Some? {
        var f, l := firstChange.value, lastChange.value;
        values := UnguardedRates(Span(history[f] - history[l], (l - f) * sampleRate));
      }
    }
  }

  /** The end values of the summary for a history, with the divisions guarded. */
  function EndRates(h: seq<int>, rate: int): Rates {
    if LastChange(h).Some? then RatesOf(ChangeSpan(h, rate)) else Undefined
  }

  /** The end values of the summary for a history, with the divisions as `end` writes them. */
  function EndComputed(h: seq<int>, rate: int): Computed {
    if LastChange(h).Some? then UnguardedRates(ChangeSpan(h, rate)) else Computed(Undefined)
  }

  /**
    `end` never divides by zero after a pass that did not: the end values are then the
    guarded ones. A last pass that brought the second change has exactly two change points,
    whose SoC drop is non-zero.
   */
  lemma EndDividesSafely(h: seq<int>, rate: int)
    requires rate > 0
    requires |h| >= 1 ==> !PassRaises(h, rate)
    ensures EndComputed(h, rate) == Computed(EndRates(h, rate))
  {
    if LastChange(h).Some? {
      var p := h[..|h| - 1];
      ChangesSnoc(p, h[|h| - 1]);
      assert p + [h[|h| - 1]] == h;
      ChangeSpanDivisors(h, rate);
    }
  }

  /**
    The summary's end values repeat the last printed estimate, except on a last sample that
    brought the second change (that sample still printed the early estimate).
   */
  lemma EndRepeatsLastEstimate(h: seq<int>, rate: int)
    requires |h| >= 1
    ensures LastChange(h[..|h| - 1]).Some? ==> EndRates(h, rate) == RatesOf(WindowAfter(h, rate))
    ensures LastChange(h[..|h| - 1]).None? && LastChange(h).Some? ==>
      WindowAfter(h, rate) == EarlySpan(h, rate) && EndRates(h, rate) == RatesOf(ChangeSpan(h, rate))
  {
    ChangesSnoc(h[..|h| - 1], h[|h| - 1]);
    assert h[..|h| - 1] + [h[|h| - 1]] == h;
  }

  /**
    The SoC returning to the first change's reading makes the unguarded divisions raise, in
    the loop and in `end`: readings 80.00, 79.00, 78.00, 79.00 at ten-second samples.
   */
  lemma ReturnToFirstChangeReadingDividesByZero()
    ensures var h := [8000, 7900, 7800, 7900];
      && LastChange(h[..3]).Some?
      && WindowAfter(h, 10) == Span(0, 20)
      && UnguardedRates(WindowAfter(h, 10)).ZeroDivisionError?
      && UnguardedRates(ChangeSpan(h, 10)).ZeroDivisionError?
  {
    var h := [8000, 7900, 7800, 7900];
    ReturnChanges();
    assert h[..3] == [8000, 7900, 7800];
  }

  /** The change points of the readings above: every sample after the first is one. */
  lemma ReturnChanges()
    ensures Changes([8000, 7900, 7800]) == [1, 2]
    ensures Changes([8000, 7900, 7800, 7900]) == [1, 2, 3]
  {
    var h1: seq<int> := [8000];
    var h2 := h1 + [7900];
    var h3 := h2 + [7800];
    var h4 := h3 + [7900];
    assert Changes(h1) == [];
    ChangesSnoc(h1, 7900);
    ChangesSnoc(h2, 7800);
    ChangesSnoc(h3, 7900);
    assert h3 == [8000, 7900, 7800];
    assert h4 == [8000, 7900, 7800, 7900];
  }

  /**
    Readings 80, 80, 80, 78, 78, 78, 75 percent at ten-second samples: the first change is
    sample 3, the second is sample 6, which still prints the early rate of 240 %/h (from
    sample 0 to sample 3); the end summary reports 360 %/h (from sample 3 to sample 6).
   */
  lemma SecondChangeStillPrintsEarlyRate()
    ensures var h := [8000, 8000, 8000, 7800, 7800, 7800, 7500];
      && FirstChange(h[..4]) == Some(3)
      && LastChange(h) == Some(6)
      && RatesOf(WindowAfter(h, 10)).consumption == 240.0
      && EndRates(h, 10).consumption == 360.0
  {
    var h := [8000, 8000, 8000, 7800, 7800, 7800, 7500];
    SecondChangeWindows();
    assert LastChange(h).Some?;
    assert EndRates(h, 10) == RatesOf(Span(300, 30));
    assert RatesOf(Span(200, 30)).consumption == 2.0 / (30.0 / 3600.0) == 240.0;
    assert RatesOf(Span(300, 30)).consumption == 3.0 / (30.0 / 3600.0) == 360.0;
  }

  /** The windows of the readings above. */
  lemma SecondChangeWindows()
    ensures var h := [8000, 8000, 8000, 7800, 7800, 7800, 7500];
      && Changes(h[..4]) == [3] && Changes(h[..6]) == [3] && Changes(h) == [3, 6]
      && WindowAfter(h, 10) == Span(200, 30)
      && ChangeSpan(h, 10) == Span(300, 30)
  {
    var h := [8000, 8000, 8000, 7800, 7800, 7800, 7500];
    SecondChanges();
    assert h[..4] == [8000, 8000, 8000, 7800];
    assert h[..6] == [8000, 8000, 8000, 7800, 7800, 7800];
  }

  /** Three equal readings and a lower one: the only change point is sample 3. */
  lemma FirstChangeAtThree()
    ensures Changes([8000, 8000, 8000, 7800]) == [3]
  {
    var h1: seq<int> := [8000];
    var h2 := h1 + [8000];
    var h3 := h2 + [8000];
    var h4 := h3 + [7800];
    assert Changes(h1) == [];
    ChangesSnoc(h1, 8000);
    ChangesSnoc(h2, 8000);
    ChangesSnoc(h3, 7800);
    assert h4 == [8000, 8000, 8000, 7800];
  }

  /** The change points of the readings above and of their prefixes. */
  lemma SecondChanges()
    ensures Changes([8000, 8000, 8000, 7800]) == [3]
    ensures Changes([8000, 8000, 8000, 7800, 7800, 7800]) == [3]
    ensures Changes([8000, 8000, 8000, 7800, 7800, 7800, 7500]) == [3, 6]
  {
    FirstChangeAtThree();
    var h4: seq<int> := [8000, 8000, 8000, 7800];
    var h5 := h4 + [7800];
    var h6 := h5 + [7800];
    var h7 := h6 + [7500];
    ChangesSnoc(h4, 7800);
    ChangesSnoc(h5, 7800);
    ChangesSnoc(h6, 7500);
    assert h6 == [8000, 8000, 8000, 7800, 7800, 7800];
    assert h7 == [8000, 8000, 8000, 7800, 7800, 7800, 7500];
  }

  // ---------------------------------------------------------------------------------
  // The main loop and the session

  /** One pass of the main loop: the reading, the estimates, whether the row was printed, the sleep. */
  datatype Tick = Tick(soc: int, rates: Rates, printed: bool, wait: Option<int>)

  /** The start and end values of the session summary. */
  datatype Summary = Summary(start: Rates, end: Rates)

  datatype Field = Consumption | SecondsPerPercent | SecondsPerFullBattery

  function Pick(r: Rates, f: Field): real {
    match f
    case Consumption => r.consumption
    case SecondsPerPercent => r.spp
    case SecondsPerFullBattery => r.sfb
  }

  /** One estimate's values over the samples taken so far. */
  function Series(ticks: seq<Tick>, f: Field): (s: seq<real>)
    ensures |s| == |ticks|
  {
    if ticks == [] then [] else Series(ticks[..|ticks| - 1], f) + [Pick(ticks[|ticks| - 1].rates, f)]
  }

  /** The capture step keeps each start value equal to the first non-placeholder value of its series. */
  lemma CaptureStep(ticks: seq<Tick>, tick: Tick, f: Field)
    ensures FirstOutside(Series(ticks + [tick], f), {-1.0}) ==
      Capture(FirstOutside(Series(ticks, f), {-1.0}), Pick(tick.rates, f), {-1.0})
  {
    assert (ticks + [tick])[..|ticks|] == ticks;
    CaptureOnce(Series(ticks, f), Pick(tick.rates, f), {-1.0});
  }

  /** The start value the loop's capture steps hold after the passes `ticks`. */
  function Captured(ticks: seq<Tick>, f: Field): Option<real> {
    if ticks == [] then None
    else Capture(Captured(ticks[..|ticks| - 1], f), Pick(ticks[|ticks| - 1].rates, f), {-1.0})
  }

  lemma CapturedSnoc(ticks: seq<Tick>, tick: Tick, f: Field)
    ensures Captured(ticks + [tick], f) == Capture(Captured(ticks, f), Pick(tick.rates, f), {-1.0})
  {
    assert (ticks + [tick])[..|ticks|] == ticks;
  }

  /** The captured value is the first value of the series that is not -1. */
  lemma {:induction false} CapturedIsFirst(ticks: seq<Tick>, f: Field)
    ensures Captured(ticks, f) == FirstOutside(Series(ticks, f), {-1.0})
  {
    if ticks != [] {
      var p, t := ticks[..|ticks| - 1], ticks[|ticks| - 1];
      assert p + [t] == ticks;
      CapturedIsFirst(p, f);
      CaptureStep(p, t, f);
    }
  }

  /** Each start value: the first value of its series that is not -1, or -1 when there is none. */
  function StartRates(ticks: seq<Tick>): Rates {
    Rates(
      FirstOutside(Series(ticks, Consumption), {-1.0}).GetOr(-1.0),
      FirstOutside(Series(ticks, SecondsPerPercent), {-1.0}).GetOr(-1.0),
      FirstOutside(Series(ticks, SecondsPerFullBattery), {-1.0}).GetOr(-1.0))
  }

  /** The start values the loop holds make up `StartRates`. */
  lemma StartRatesFrom(ticks: seq<Tick>)
    ensures StartRates(ticks) == Rates(
      Captured(ticks, Consumption).GetOr(-1.0),
      Captured(ticks, SecondsPerPercent).GetOr(-1.0),
      Captured(ticks, SecondsPerFullBattery).GetOr(-1.0))
  {
    CapturedIsFirst(ticks, Consumption);
    CapturedIsFirst(ticks, SecondsPerPercent);
    CapturedIsFirst(ticks, SecondsPerFullBattery);
  }

  /** What pass `k` of the loop records, `last` telling whether it ended the loop at a threshold. */
  ghost function TickAt(readings: seq<int>, elapsed: seq<int>, sample: int, output: int, k: nat, last: bool): Tick
    requires Runnable(sample, output) && k < |readings| && |elapsed| == |readings|
  {
    Tick(
      readings[k],
      RatesOf(WindowAfter(readings[..k + 1], sample)),
      Emitted(k, sample, output),
      if last then None else Some(Wait(sample, elapsed[k])))
  }

  /**
    `ticks` are the records of the first passes of a run; `atThreshold` says whether the
    last of them stopped at a threshold.
   */
  ghost predicate Records(readings: seq<int>, elapsed: seq<int>, sample: int, output: int, ticks: seq<Tick>, atThreshold: bool)
    requires Runnable(sample, output) && |ticks| <= |readings| && |elapsed| == |readings|
  {
    forall k | 0 <= k < |ticks| :: ticks[k] == TickAt(readings, elapsed, sample, output, k, atThreshold && k == |ticks| - 1)
  }

  /** Appending the record of the next pass to the records of passes that did not stop keeps them records. */
  lemma RecordsExtend(readings: seq<int>, elapsed: seq<int>, sample: int, output: int, ticks: seq<Tick>, tick: Tick, last: bool)
    requires Runnable(sample, output) && |ticks| < |readings| && |elapsed| == |readings|
    requires Records(readings, elapsed, sample, output, ticks, false)
    requires tick == TickAt(readings, elapsed, sample, output, |ticks|, last)
    ensures Records(readings, elapsed, sample, output, ticks + [tick], last)
  {
    var t := ticks + [tick];
    forall k | 0 <= k < |t| ensures t[k] == TickAt(readings, elapsed, sample, output, k, last && k == |t| - 1) {
      if k < |ticks| {
        assert t[k] == ticks[k];
      }
    }
  }

  /**
    How the main loop ends: the interrupt after the last reading, a reading that reaches a
    threshold (`end` is called from the loop), or a ZeroDivisionError raised in a pass, which
    leaves `main` without calling `end`.
   */
  datatype Ending = Interrupted | AtThreshold | DividedByZero

  /** None of the first `n` passes over `readings` raised. */
  ghost predicate NoneRaised(readings: seq<int>, sample: int, n: nat)
    requires n <= |readings|
  {
    forall m | 1 <= m <= n :: !PassRaises(readings[..m], sample)
  }

  /** The passes so far of a run that has not stopped: none raised and none reached a threshold. */
  ghost predicate Prefix(opts: Options, sample: int, output: int, readings: seq<int>, elapsed: seq<int>, ticks: seq<Tick>)
    requires Runnable(sample, output) && |elapsed| == |readings|
  {
    && |ticks| <= |readings|
    && NoneRaised(readings, sample, |ticks|)
    && (forall k | 0 <= k < |ticks| :: !ThresholdReached(readings[k], opts.minimumSoc, opts.maximumSoc))
    && Records(readings, elapsed, sample, output, ticks, false)
  }

  /**
    The completed passes of a whole run of the main loop over `readings` (the battery reads)
    taken at `elapsed` seconds into the session, and how it ended. The loop stops after the
    first reading that reaches a threshold, or in the first pass whose divisions raise; a
    pass that raises records nothing. Otherwise it consumes all readings, the interrupt
    arriving after the last one.
   */
  ghost predicate Ran(opts: Options, sample: int, output: int, readings: seq<int>, elapsed: seq<int>,
                      ticks: seq<Tick>, ending: Ending)
    requires Runnable(sample, output) && |elapsed| == |readings|
  {
    && |ticks| <= |readings|
    && (ending.AtThreshold? ==> |ticks| >= 1 && ThresholdReached(readings[|ticks| - 1], opts.minimumSoc, opts.maximumSoc))
    && (ending.Interrupted? ==> |ticks| == |readings|)
    && (ending.DividedByZero? ==> |ticks| < |readings| && PassRaises(readings[..|ticks| + 1], sample))
    && NoneRaised(readings, sample, |ticks|)
    && (forall k | 0 <= k < |ticks| && (k < |ticks| - 1 || !ending.AtThreshold?) ::
         !ThresholdReached(readings[k], opts.minimumSoc, opts.maximumSoc))
    && Records(readings, elapsed, sample, output, ticks, ending.AtThreshold?)
  }

  /** A run that did not raise, with the summary `end` prints: captured start values and the end estimate. */
  ghost predicate IsRun(opts: Options, sample: int, output: int, readings: seq<int>, elapsed: seq<int>,
                        ticks: seq<Tick>, ending: Ending, summary: Summary)
    requires Runnable(sample, output) && |elapsed| == |readings|
  {
    && Ran(opts, sample, output, readings, elapsed, ticks, ending)
    && !ending.DividedByZero?
    && summary == Summary(StartRates(ticks), EndRates(readings[..|ticks|], sample))
  }

  /** No run is longer than another over the same readings: each stops at the first pass that may stop it. */
  lemma RanLength(opts: Options, sample: int, output: int, readings: seq<int>, elapsed: seq<int>,
                  t1: seq<Tick>, e1: Ending, t2: seq<Tick>, e2: Ending)
    requires Runnable(sample, output) && |elapsed| == |readings|
    requires Ran(opts, sample, output, readings, elapsed, t1, e1)
    requires Ran(opts, sample, output, readings, elapsed, t2, e2)
    ensures |t2| <= |t1|
  {
    if e1.AtThreshold? {
      assert ThresholdReached(readings[|t1| - 1], opts.minimumSoc, opts.maximumSoc);
    } else if e1.DividedByZero? {
      assert PassRaises(readings[..|t1| + 1], sample);
    }
  }

  /** The readings determine the run: its passes and how it ends. */
  lemma RanDeterministic(opts: Options, sample: int, output: int, readings: seq<int>, elapsed: seq<int>,
                         t1: seq<Tick>, e1: Ending, t2: seq<Tick>, e2: Ending)
    requires Runnable(sample, output) && |elapsed| == |readings|
    requires Ran(opts, sample, output, readings, elapsed, t1, e1)
    requires Ran(opts, sample, output, readings, elapsed, t2, e2)
    ensures t1 == t2 && e1 == e2
  {
    RanLength(opts, sample, output, readings, elapsed, t1, e1, t2, e2);
    RanLength(opts, sample, output, readings, elapsed, t2, e2, t1, e1);
    if |t1| >= 1 {
      assert ThresholdReached(readings[|t1| - 1], opts.minimumSoc, opts.maximumSoc) <==> e1.AtThreshold?;
      assert ThresholdReached(readings[|t2| - 1], opts.minimumSoc, opts.maximumSoc) <==> e2.AtThreshold?;
    }
  }

  /** A prefix over all readings is a run ended by the interrupt. */
  lemma PrefixInterrupted(opts: Options, sample: int, output: int, readings: seq<int>, elapsed: seq<int>, ticks: seq<Tick>)
    requires Runnable(sample, output) && |elapsed| == |readings|
    requires Prefix(opts, sample, output, readings, elapsed, ticks) && |ticks| == |readings|
    ensures Ran(opts, sample, output, readings, elapsed, ticks, Interrupted)
  {
  }

  /** A pass that raises ends the run after the passes before it. */
  lemma PrefixRaised(opts: Options, sample: int, output: int, readings: seq<int>, elapsed: seq<int>, ticks: seq<Tick>)
    requires Runnable(sample, output) && |elapsed| == |readings|
    requires Prefix(opts, sample, output, readings, elapsed, ticks) && |ticks| < |readings|
    requires PassRaises(readings[..|ticks| + 1], sample)
    ensures Ran(opts, sample, output, readings, elapsed, ticks, DividedByZero)
  {
  }

  /** A pass that does not raise extends the prefix, or completes the run when it reached a threshold. */
  lemma PassExtends(opts: Options, sample: int, output: int, readings: seq<int>, elapsed: seq<int>,
                    ticks: seq<Tick>, tick: Tick, stop: bool)
    requires Runnable(sample, output) && |elapsed| == |readings|
    requires Prefix(opts, sample, output, readings, elapsed, ticks) && |ticks| < |readings|
    requires !PassRaises(readings[..|ticks| + 1], sample)
    requires stop == ThresholdReached(readings[|ticks|], opts.minimumSoc, opts.maximumSoc)
    requires tick == TickAt(readings, elapsed, sample, output, |ticks|, stop)
    ensures stop ==> Ran(opts, sample, output, readings, elapsed, ticks + [tick], AtThreshold)
    ensures !stop ==> Prefix(opts, sample, output, readings, elapsed, ticks + [tick])
  {
    RecordsExtend(readings, elapsed, sample, output, ticks, tick, stop);
  }

  /** What one pass of the loop comes to: it raised, or it completed with a record and a stop decision. */
  datatype Step = Raised | Passed(tick: Tick, stop: bool)

  /**
    One pass of the loop body: read the battery, update the estimator, divide as written
    (raising on a zero divisor), decide whether this pass prints, and either stop at a
    threshold or compute the wait.
   */
  method Pass(estimator: ChangeEstimator, opts: Options, output: int, readings: seq<int>, elapsed: seq<int>, k: nat)
    returns (step: Step)
    requires Runnable(estimator.sampleRate, output) && k < |readings| && |elapsed| == |readings|
    requires estimator.Valid() && estimator.history == readings[..k]
    modifies estimator
    ensures estimator.Valid() && estimator.history == readings[..k + 1]
    ensures step.Raised? <==> PassRaises(readings[..k + 1], estimator.sampleRate)
    ensures step.Passed? ==>
      && step.stop == ThresholdReached(readings[k], opts.minimumSoc, opts.maximumSoc)
      && step.tick == TickAt(readings, elapsed, estimator.sampleRate, output, k, step.stop)
  {
    var soc := readings[k];
    assert readings[..k + 1] == readings[..k] + [soc];
    var w := estimator.Observe(soc);
    var computed := UnguardedRates(w);
    if computed.ZeroDivisionError? {
      return Raised;
    }
    var printed := Emitted(k, estimator.sampleRate, output);
    var stop := ThresholdReached(soc, opts.minimumSoc, opts.maximumSoc);
    var wait := if stop then None else Some(Wait(estimator.sampleRate, elapsed[k]));
    step := Passed(Tick(soc, computed.rates, printed, wait), stop);
  }

  /** The three capture steps of a pass. */
  lemma CapturedStep(ticks: seq<Tick>, tick: Tick)
    ensures Captured(ticks + [tick], Consumption) == Capture(Captured(ticks, Consumption), tick.rates.consumption, {-1.0})
    ensures Captured(ticks + [tick], SecondsPerPercent) == Capture(Captured(ticks, SecondsPerPercent), tick.rates.spp, {-1.0})
    ensures Captured(ticks + [tick], SecondsPerFullBattery) == Capture(Captured(ticks, SecondsPerFullBattery), tick.rates.sfb, {-1.0})
  {
    CapturedSnoc(ticks, tick, Consumption);
    CapturedSnoc(ticks, tick, SecondsPerPercent);
    CapturedSnoc(ticks, tick, SecondsPerFullBattery);
  }

  /** One pass of the loop after the passes `ticks` that did not stop it: how the run goes on or ends. */
  method Advance(estimator: ChangeEstimator, opts: Options, output: int, readings: seq<int>, elapsed: seq<int>, ticks: seq<Tick>)
    returns (step: Step)
    requires Runnable(estimator.sampleRate, output) && |elapsed| == |readings|
    requires Prefix(opts, estimator.sampleRate, output, readings, elapsed, ticks) && |ticks| < |readings|
    requires estimator.Valid() && estimator.history == readings[..|ticks|]
    modifies estimator
    ensures estimator.Valid() && estimator.history == readings[..|ticks| + 1]
    ensures step.Raised? ==> Ran(opts, estimator.sampleRate, output, readings, elapsed, ticks, DividedByZero)
    ensures step.Passed? && step.stop ==>
      Ran(opts, estimator.sampleRate, output, readings, elapsed, ticks + [step.tick], AtThreshold)
    ensures step.Passed? && !step.stop ==>
      Prefix(opts, estimator.sampleRate, output, readings, elapsed, ticks + [step.tick])
  {
    step := Pass(estimator, opts, output, readings, elapsed, |ticks|);
    if step.Raised? {
      PrefixRaised(opts, estimator.sampleRate, output, readings, elapsed, ticks);
    } else {
      PassExtends(opts, estimator.sampleRate, output, readings, elapsed, ticks, step.tick, step.stop);
    }
  }

  /**
    The `while True` loop of `main` on a fresh estimator: the completed passes, how the
    loop ended, and the three start values captured on the way.
   */
  method Loop(estimator: ChangeEstimator, opts: Options, output: int, readings: seq<int>, elapsed: seq<int>)
    returns (ticks: seq<Tick>, ending: Ending, startConsumption: Option<real>, startSpp: Option<real>, startSfb: Option<real>)
    requires Runnable(estimator.sampleRate, output) && |elapsed| == |readings|
    requires estimator.Valid() && estimator.history == []
    modifies estimator
    ensures Ran(opts, estimator.sampleRate, output, readings, elapsed, ticks, ending)
    ensures estimator.Valid()
    ensures !ending.DividedByZero? ==> estimator.history == readings[..|ticks|]
    ensures ending.DividedByZero? ==> estimator.history == readings[..|ticks| + 1]
    ensures startConsumption == Captured(ticks, Consumption)
    ensures startSpp == Captured(ticks, SecondsPerPercent)
    ensures startSfb == Captured(ticks, SecondsPerFullBattery)
  {
    startConsumption, startSpp, startSfb := None, None, None;
    ticks, ending := [], Interrupted;
    while |ticks| < |readings|
      invariant estimator.Valid()
      invariant Prefix(opts, estimator.sampleRate, output, readings, elapsed, ticks)
      invariant estimator.history == readings[..|ticks|]
      invariant startConsumption == Captured(ticks, Consumption)
      invariant startSpp == Captured(ticks, SecondsPerPercent)
      invariant startSfb == Captured(ticks, SecondsPerFullBattery)
      decreases |readings| - |ticks|
    {
      var step := Advance(estimator, opts, output, readings, elapsed, ticks);
      if step.Raised? {
        ending := DividedByZero;
        break;
      }
      CapturedStep(ticks, step.tick);
      startConsumption := Capture(startConsumption, step.tick.rates.consumption, {-1.0});
      startSpp := Capture(startSpp, step.tick.rates.spp, {-1.0});
      startSfb := Capture(startSfb, step.tick.rates.sfb, {-1.0});
      ticks := ticks + [step.tick];
      if step.stop {
        ending := AtThreshold;
        break;
      }
    }
    if ending.Interrupted? {
      PrefixInterrupted(opts, estimator.sampleRate, output, readings, elapsed, ticks);
    }
  }

  /**
    The main loop, followed by the estimate part of `end` unless a pass raised. `end`
    divides as written, and after a loop that did not raise its divisions never do.
   */
  method MainLoop(opts: Options, sample: int, output: int, readings: seq<int>, elapsed: seq<int>)
    returns (ticks: seq<Tick>, ending: Ending, summary: Summary)
    requires Runnable(sample, output) && |elapsed| == |readings|
    ensures Ran(opts, sample, output, readings, elapsed, ticks, ending)
    ensures !ending.DividedByZero? ==> IsRun(opts, sample, output, readings, elapsed, ticks, ending, summary)
  {
    var estimator := new ChangeEstimator(sample);
    var startConsumption, startSpp, startSfb;
    ticks, ending, startConsumption, startSpp, startSfb := Loop(estimator, opts, output, readings, elapsed);
    summary := Summary(Undefined, Undefined);
    if !ending.DividedByZero? {
      EndDividesSafely(readings[..|ticks|], sample);
      var endValues := estimator.EndEstimate();
      StartRatesFrom(ticks);
      summary := Summary(
        Rates(startConsumption.GetOr(-1.0), startSpp.GetOr(-1.0), startSfb.GetOr(-1.0)),
        endValues.rates);
    }
  }

  /**
    The hooks of `end` in this version: the minimum and maximum hooks run only when the
    percentage `socEnd` read at the end still satisfies their threshold.
   */
  function EndActions(opts: Options, socEnd: int): (r: seq<Action>)
    ensures |r| >= 1 && r[0] == TerminateWorkers && InHookOrder(r)
    ensures forall c :: RunCommand(OnMinimumSoc, c) in r <==>
      opts.minimumSoc.Some? && socEnd <= opts.minimumSoc.value && opts.cmdMinSoc == Some(c)
    ensures forall c :: RunCommand(OnMaximumSoc, c) in r <==>
      opts.maximumSoc.Some? && socEnd >= opts.maximumSoc.value && opts.cmdMaxSoc == Some(c)
    ensures forall c :: RunCommand(OnEnd, c) in r <==> opts.cmdEnd == Some(c)
  {
    var minimumHit := opts.minimumSoc.Some? && socEnd <= opts.minimumSoc.value;
    var maximumHit := opts.maximumSoc.Some? && socEnd >= opts.maximumSoc.value;
    EndActionsShape(opts, minimumHit, maximumHit);
    EndActionsInOrder(opts, minimumHit, maximumHit);
    EndActionsHooks(opts, minimumHit, maximumHit);
    EndActionsWhen(opts, minimumHit, maximumHit)
  }

  /**
    How a session ends: `end_error` (exit code 1); an uncaught exception before the loop
    or in its first pass (with the actions taken before it); a ZeroDivisionError raised in
    a later pass of the loop, after the completed passes `ticks`; or `end` after the loop,
    with the passes, whether the loop stopped at a threshold (rather than at the
    interrupt), the summary and every action taken.
   */
  datatype Outcome =
    | ConfigurationError
    | Crashed(actions: seq<Action>)
    | LoopRaised(ticks: seq<Tick>, actions: seq<Action>)
    | Completed(ticks: seq<Tick>, atThreshold: bool, summary: Summary, actions: seq<Action>)

  /**
    A whole session: `readings` are the battery reads the loop takes before the interrupt
    (or before a threshold or a raising pass stops it), `elapsed` the seconds into the
    session at which they are taken, and `socEnd` the rounded percentage `end` reads.
   */
  method Run(opts: Options, readings: seq<int>, elapsed: seq<int>, socEnd: int) returns (outcome: Outcome)
    requires |elapsed| == |readings|
    ensures ResolvePeriods(opts.sampleRate, opts.outputRate) == ExitCode1 ==> outcome == ConfigurationError
    ensures ResolvePeriods(opts.sampleRate, opts.outputRate) == DivisionByZero ==> outcome == Crashed([])
    ensures ResolvePeriods(opts.sampleRate, opts.outputRate).Resolved? ==>
      var p := ResolvePeriods(opts.sampleRate, opts.outputRate);
      var actions := StartActions(opts) + EndActions(opts, socEnd);
      && InHookOrder(actions)
      && (Runnable(p.sample, p.output) ==>
            match outcome
            case LoopRaised(ticks, acts) =>
              acts == StartActions(opts) && Ran(opts, p.sample, p.output, readings, elapsed, ticks, DividedByZero)
            case Completed(ticks, atThreshold, summary, acts) =>
              && acts == actions
              && IsRun(opts, p.sample, p.output, readings, elapsed, ticks, if atThreshold then AtThreshold else Interrupted, summary)
            case _ => false)
      && (!Runnable(p.sample, p.output) && readings == [] ==>
            outcome == Completed([], false, Summary(Undefined, Undefined), actions))
      && (!Runnable(p.sample, p.output) && readings != [] && (p.sample == 0 || p.output == 0) ==>
            outcome == Crashed(StartActions(opts)))
      && (!Runnable(p.sample, p.output) && readings != [] && p.sample < 0 && p.output != 0 ==>
            if ThresholdReached(readings[0], opts.minimumSoc, opts.maximumSoc) then
              outcome == Completed([Tick(readings[0], Undefined, true, None)], true, Summary(Undefined, Undefined), actions)
            else outcome == Crashed(StartActions(opts)))
  {
    var periods := ResolvePeriods(opts.sampleRate, opts.outputRate);
    if periods == ExitCode1 {
      return ConfigurationError;
    } else if periods == DivisionByZero {
      return Crashed([]);
    }
    var sample, output := periods.sample, periods.output;
    var start := StartActions(opts);
    SessionHookOrder(opts,
      opts.minimumSoc.Some? && socEnd <= opts.minimumSoc.value,
      opts.maximumSoc.Some? && socEnd >= opts.maximumSoc.value);
    var actions := start + EndActions(opts, socEnd);
    if Runnable(sample, output) {
      var ticks, ending, summary := MainLoop(opts, sample, output, readings, elapsed);
      if ending.DividedByZero? {
        // the exception leaves `main`: `end` does not run
        outcome := LoopRaised(ticks, start);
      } else {
        outcome := Completed(ticks, ending.AtThreshold?, summary, actions);
      }
    } else if readings == [] {
      outcome := Completed([], false, Summary(Undefined, Undefined), actions);
    } else if sample == 0 || output == 0 {
      // the output gate divides by zero on the first pass
      outcome := Crashed(start);
    } else if ThresholdReached(readings[0], opts.minimumSoc, opts.maximumSoc) {
      // the first pass prints placeholders and stops before the negative sleep
      outcome := Completed([Tick(readings[0], Undefined, true, None)], true, Summary(Undefined, Undefined), actions);
    } else {
      // the first negative sleep raises
      outcome := Crashed(start);
    }
  }

  /**
    A session with a 20 % minimum, both periods at 5 seconds and a minimum hook, fed the
    readings 25, 22 and 19 percent: the loop stops right after the third reading, and with
    the end reading at 19 % the minimum hook runs.
   */
  method MinimumThresholdSession() returns (outcome: Outcome)
    ensures outcome.Completed? && outcome.atThreshold && |outcome.ticks| == 3
    ensures outcome.actions == [TerminateWorkers, RunCommand(OnMinimumSoc, "shutdown")]
  {
    var opts := Options(Some(5), Some(5), Some(20), None, Some("shutdown"), None, None, None);
    var readings := [2500, 2200, 1900];
    outcome := Run(opts, readings, [0, 5, 10], 19);
    assert ResolvePeriods(opts.sampleRate, opts.outputRate) == Resolved(5, 5);
    forall n | 1 <= n <= |readings| ensures !PassRaises(readings[..n], 5) {
      PassRaisesMeaning(readings[..n], 5);
    }
    assert !ThresholdReached(readings[0], opts.minimumSoc, opts.maximumSoc);
    assert !ThresholdReached(readings[1], opts.minimumSoc, opts.maximumSoc);
    assert ThresholdReached(readings[2], opts.minimumSoc, opts.maximumSoc);
    var ends := EndActions(opts, 19);
    assert ends == [TerminateWorkers, RunCommand(OnMinimumSoc, "shutdown")];
  }

  /**
    A session at ten-second periods with an end hook, fed the readings 80.00, 79.00, 78.00
    and 79.00 percent: the fourth pass raises ZeroDivisionError after three completed passes,
    so neither the workers' termination nor the end hook happens.
   */
  method ReturnToFirstChangeReadingSession() returns (outcome: Outcome)
    ensures outcome.LoopRaised? && |outcome.ticks| == 3 && outcome.actions == []
  {
    var opts := Options(Some(10), Some(10), None, None, None, None, None, Some("notify"));
    var readings := [8000, 7900, 7800, 7900];
    outcome := Run(opts, readings, [0, 10, 20, 30], 79);
    assert ResolvePeriods(opts.sampleRate, opts.outputRate) == Resolved(10, 10);
    forall n | 1 <= n <= 3 ensures !PassRaises(readings[..n], 10) {
      PassRaisesMeaning(readings[..n], 10);
    }
    ReturnToFirstChangeReadingDividesByZero();
    assert readings[..4] == readings;
    assert PassRaises(readings[..4], 10);
  }
}
