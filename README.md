# BatterySoCMonitor in Dafny

BatterySoCMonitor is a command-line script that samples a laptop battery's state of charge
(SoC) at a fixed period. For each sample it:

- prints a row of the reading and a consumption estimate;
- stops when a minimum or maximum SoC is reached, or on an interrupt;
- prints a summary at the end and runs the configured shell hooks.

Two versions of the script are modelled, each in its own module:

- `MonitorV231` (`code/BatterySoCMonitor.py`, version 2.3.1). The estimator remembers
  the last reading and the first and last samples at which the reading changed. It bases
  its estimate on those change points: consumption in percent per hour, seconds per percent
  and seconds per full battery.
- `MonitorV202` (`BatterySoCMonitor.py`, version 2.0.2). The estimator tracks one change
  index, seeded to 2, and prints a single consumption in percent per hour.

Both versions share code, which lives in two modules:

- `HumanForm`: the two formatters, `seconds_to_human_form` and
  `percentage_to_human_form`.
- `Session`: the command-line options the core reads, the period defaulting and
  validation, the drift-compensated wait, the output gate, the min/max termination test,
  the hooks as a list of actions, and the "first value that is not a placeholder" rule for
  summary start values.

`VersionComparison` relates the two versions. `Wrappers` holds `Option`.

Units and representation:

- A SoC reading is an integer in hundredths of a percent. The script rounds the battery
  percentage to two decimals, so two equal readings are equal integers.
- Thresholds are integer percents, and the loop compares `soc <= min * 100`.
- The percentage `end` reads again, for the v2.3.1 threshold hooks, is an integer percent.
- The battery reads and the seconds into the session at which they are taken are input
  sequences.
- An estimate is an exact real. The window it is computed from is the pair (SoC drop,
  elapsed seconds).

Each estimator is a class. Its fields are the script's globals: the history `data_soc`
and the optional last reading and change indices. `Observe` processes one reading, and its
`Valid` invariant ties the fields to functions of the history. Each main loop is a
`while` loop over the readings, proved against a specification of a whole run (`Ran`).
That specification gives:

- the record of every pass: the reading, the estimates, whether the row was printed, and
  the wait;
- where the loop stopped: at the first reading that reaches a threshold, at the interrupt
  after the last reading, or (newer version) in the first pass whose divisions raise
  ZeroDivisionError. That pass records nothing, and `end` then does not run.

## Model

| member | source | states |
|---|---|---|
| HumanForm.DecimalDigits | code/BatterySoCMonitor.py:131 | `str(n)` of a non-negative integer: decimal digits, reading back as `n`, without a leading zero |
| HumanForm.DigitsLength | code/BatterySoCMonitor.py:127-131 | a number has one digit iff it is below 10, at most two iff below 100, at most three iff below 1000 |
| HumanForm.TwoDigitField | code/BatterySoCMonitor.py:127-131 | a clock field (a `'0'` before a value below ten, then `str`) is all digits, reads back as the value, and is exactly two characters below 100 |
| HumanForm.SplitSeconds | code/BatterySoCMonitor.py:126-140 | the minutes and seconds fields are below 60, and hours*3600 + minutes*60 + seconds is the input |
| HumanForm.ClockFields | code/BatterySoCMonitor.py:147 | three digit fields joined by colons form a `H:MM:SS` text whose fields read back as the parts |
| HumanForm.SecondsToHumanForm | code/BatterySoCMonitor.py:122-147 | a negative input gives `00:00:00?`. Any other input gives at least two hour digits, a colon, two minute digits below 60, a colon and two second digits below 60, adding back up to the input. BatterySoCMonitor.py:86-111 is the same code |
| HumanForm.IntegerPartField | code/BatterySoCMonitor.py:161-167 | for 0 <= p0 < 1000 the integer part is three characters: two spaces and a digit below 10, one space and two digits below 100, three digits otherwise, reading back as p0 |
| HumanForm.WrittenHundredths | code/BatterySoCMonitor.py:167-172 | the hundredths as written are two digits, reading ten times a one-digit p1 and p1 otherwise |
| HumanForm.PercentFields | code/BatterySoCMonitor.py:167-172 | the integer part, a point, two digits and `%` make a seven-character percentage text |
| HumanForm.PercentageToHumanForm | code/BatterySoCMonitor.py:157-174 | the text ends in `%`. For 0 <= p0 < 1000 it is seven characters: the padded integer part, `.`, two digits and `%`, where the digits read 10*p1 for a one-digit p1 (the `'0'` comes after it) and p1 otherwise. BatterySoCMonitor.py:114-131 is the same code |
| HumanForm.PercentageToHumanFormIntended | code/BatterySoCMonitor.py:167-172 | corrected formatter: the same seven-character text, with digits that read back as exactly p1 |
| HumanForm.HundredthsMisrendered | code/BatterySoCMonitor.py:167-172 | 12.05 is printed as ` 12.50%`; the corrected formatter prints ` 12.05%` |
| Session.ResolvePeriods | code/BatterySoCMonitor.py:239-249 | neither period set gives (10, 10). One set is copied into the other, so a single period of 0 gives (0, 0); the output gate then divides by zero on the first pass (`MonitorV231.Run`). Both set: a zero sample period raises, output % sample != 0 exits with code 1, and otherwise both are kept, output then being a multiple of sample. BatterySoCMonitor.py:175-185 is the same code |
| Session.Wait | code/BatterySoCMonitor.py:414 | the wait lies in (0, rate], and elapsed + wait is a multiple of rate. No multiple of rate lies strictly between elapsed and elapsed + wait |
| Session.EmittedEvery | code/BatterySoCMonitor.py:387 | for the output gate `Emitted` (`i % (output / sample) == 0`): the divisor is non-zero, and sample i is printed iff i is a multiple of its magnitude |
| Session.EmissionPattern | code/BatterySoCMonitor.py:387 | sample 0 is printed, and every sample is printed when the periods are equal. After a printed sample the next printed one is exactly abs(output/sample) samples later |
| Session.StartActions | code/BatterySoCMonitor.py:259-260 | the start hook runs iff it is configured, with its command, and it is the only action |
| Session.HookIf | code/BatterySoCMonitor.py:478-487 | a guarded hook is at most one action: the hook with its command exactly when the guard holds and the command is configured |
| Session.EndActionsShape | code/BatterySoCMonitor.py:474-487 | `end` first stops the workers; every later action is a hook other than the start hook |
| Session.EndActionsInOrder | code/BatterySoCMonitor.py:477-487 | the hooks of `end` run in the order minimum, maximum, end, each at most once |
| Session.EndActionsHooks | code/BatterySoCMonitor.py:474-487 | for the hook list `EndActionsWhen` of `end`: the minimum and maximum hooks run iff their condition holds and a command is configured; the end hook runs iff configured |
| Session.SessionHookOrder | code/BatterySoCMonitor.py:259-260 | over a whole session the start hook comes before every hook of `end`, and hook order is kept |
| Session.FirstOutsideMeaning | code/BatterySoCMonitor.py:375-380 | the captured start value is absent iff every value of the series is a placeholder. Otherwise it is not a placeholder, and it occurs in the series with only placeholders before it |
| Session.CaptureOnce | code/BatterySoCMonitor.py:375-380 | one capture step on a new sample gives the first non-placeholder value of the longer series: a captured value is never overwritten |
| MonitorV231.ChangesSound | code/BatterySoCMonitor.py:331-360 | every listed change index is a sample whose reading differs from its predecessor, and the indices increase strictly |
| MonitorV231.ChangesComplete | code/BatterySoCMonitor.py:352-360 | every sample whose reading differs from its predecessor is listed |
| MonitorV231.ChangesSnoc | code/BatterySoCMonitor.py:352-360 | a new reading adds its index to the change points iff it differs from the last reading |
| MonitorV231.FirstLastSnoc | code/BatterySoCMonitor.py:331-360 | a new reading sets the first-change index if unset and the reading changed; it then sets or moves the last-change index to itself iff the reading changed and a first change is known |
| MonitorV231.FirstChange | code/BatterySoCMonitor.py:352-355 | the first-change index, when set, is at least 1 and below the history length |
| MonitorV231.LastChange | code/BatterySoCMonitor.py:357-360 | the last-change index, when set, lies strictly after the first-change index and below the history length |
| MonitorV231.FirstChangeIsLeast | code/BatterySoCMonitor.py:352-355 | the first-change index is unset iff no sample changed; otherwise it is a change and it is the least one |
| MonitorV231.LastChangeIsGreatest | code/BatterySoCMonitor.py:331-334 | the last-change index, when set, is the greatest change, after the first. While it is unset, the first change is the only one |
| MonitorV231.EarlySpanDivisorsNonZero | code/BatterySoCMonitor.py:363-371 | the early window (sample 0 to the first change) has a positive time divisor and a non-zero SoC divisor |
| MonitorV231.ChangeSpanDivisors | code/BatterySoCMonitor.py:336-345 | in the change window the time divisor is positive. The SoC divisor is non-zero while exactly two change points are known |
| MonitorV231.RatesMeaning | code/BatterySoCMonitor.py:336-371 | for the guarded estimates `RatesOf` of a window (change window 338-345, early window 364-371): consumption times elapsed hours is the drop in percent; seconds per percent times the drop is the elapsed time; their product is 3600; seconds per full battery is 100 times seconds per percent; no window gives the placeholders |
| MonitorV231.UnguardedRates | code/BatterySoCMonitor.py:336-345 | the divisions as written raise iff a divisor is zero, and otherwise agree with the guarded estimates |
| MonitorV231.PassRaisesMeaning | code/BatterySoCMonitor.py:336-345 | a pass raises ZeroDivisionError (`PassRaises`) iff two change points were known before it and its reading equals the reading at the first change |
| MonitorV231.RaisingNeedsThreeChanges | code/BatterySoCMonitor.py:336-345 | a raising pass needs three change points, so no pass before the fourth raises |
| MonitorV231.UndefinedUntilFirstChange | code/BatterySoCMonitor.py:328-371 | all three estimates are -1 exactly while every reading equals the first |
| MonitorV231.ChangeEstimator.Observe | code/BatterySoCMonitor.py:331-371 | appends the reading; keeps last reading, first change and last change equal to their definitions on the history; returns the window the estimates of this sample use, `WindowAfter`: first to last change once two change points were known before this sample, else sample 0 to the first change, else none |
| MonitorV231.ChangeEstimator.EndEstimate | code/BatterySoCMonitor.py:449-455 | the end values as written (`EndComputed`): -1 unless both indices are set; otherwise the divisions over the first-to-last change window, raising ZeroDivisionError when its SoC drop is zero |
| MonitorV231.EndDividesSafely | code/BatterySoCMonitor.py:452-455 | after a loop none of whose passes raised, `end` does not raise either, and its values are the guarded `EndRates` |
| MonitorV231.EndRepeatsLastEstimate | code/BatterySoCMonitor.py:452-455 | the end values (`EndRates`) repeat the last printed estimate, except after a last sample that brought the second change, which still printed the early estimate |
| MonitorV231.ReturnToFirstChangeReadingDividesByZero | code/BatterySoCMonitor.py:341-345 | readings 80.00, 79.00, 78.00, 79.00 leave a zero SoC drop, and the divisions as written raise in the loop and in `end` |
| MonitorV231.SecondChangeStillPrintsEarlyRate | code/BatterySoCMonitor.py:363-365 | readings 80, 80, 80, 78, 78, 78, 75 at 10 s: sample 6 brings the second change and prints 240 %/h; the end summary reports 360 %/h |
| MonitorV231.CaptureStep | code/BatterySoCMonitor.py:375-380 | each capture step keeps a start value equal to the first non-`-1` value of its series |
| MonitorV231.CapturedIsFirst | code/BatterySoCMonitor.py:375-380 | the start value the loop holds is the first value of its series that is not -1 |
| MonitorV231.StartRatesFrom | code/BatterySoCMonitor.py:457-470 | the summary's start values are the captured values, with -1 for any never captured |
| MonitorV231.PassExtends | code/BatterySoCMonitor.py:404-416 | a pass that does not raise and reaches no threshold extends the run; one that reaches a threshold completes it |
| MonitorV231.RanDeterministic | code/BatterySoCMonitor.py:316-416 | the readings determine the run: two runs over the same readings have the same passes and the same ending |
| MonitorV231.Pass | code/BatterySoCMonitor.py:318-414 | one pass: the estimator takes the reading; the pass raises iff the divisions as written have a zero divisor (`PassRaises`); otherwise it records the estimates, whether the row is printed, and the wait, or stops at a threshold (`ThresholdReached`: soc <= min*100 or soc >= max*100, lines 405-412) |
| MonitorV231.Loop | code/BatterySoCMonitor.py:316-416 | the loop's passes and ending are those of a run: interrupt, threshold, or a pass that raised; on exit the estimator holds the readings taken (including that of a raising pass), and the start values are those captured |
| MonitorV231.MainLoop | code/BatterySoCMonitor.py:316-470 | a run; unless a pass raised, a summary made of the captured start values and the end estimate |
| MonitorV231.EndActions | code/BatterySoCMonitor.py:474-487 | workers stop first and the hooks keep their order. The minimum hook runs iff the minimum is set, the rounded end SoC is at most it, and a command is configured; likewise the maximum hook with at least; the end hook runs iff configured |
| MonitorV231.Run | code/BatterySoCMonitor.py:239-487 | a bad period combination exits with code 1 and a zero sample period raises before the start hook. Runnable periods give a run: one ended by a raising pass has taken only the start hook; any other has its summary and the start-then-end actions in hook order. Each non-runnable case gives the crash or single pass the script performs |
| MonitorV231.ReturnToFirstChangeReadingSession | code/BatterySoCMonitor.py:341 | with ten-second periods and an end hook, readings 80, 79, 78, 79 make the fourth pass raise after three passes, and no end action (not even stopping the workers) happens |
| MonitorV231.MinimumThresholdSession | code/BatterySoCMonitor.py:405-408 | with a 20 % minimum, readings 25, 22, 19 stop the loop at the third pass, and the minimum hook runs after the workers stop |
| MonitorV202.TrackedIndex | BatterySoCMonitor.py:255-271 | the tracked index lies in [2, i], and its reading equals the current reading |
| MonitorV202.TrackedIndexSnoc | BatterySoCMonitor.py:268-271 | a new reading moves the tracked index to itself iff it differs from the last reading |
| MonitorV202.TrackedIndexIsLatestChange | BatterySoCMonitor.py:255-271 | the tracked index is the latest change at sample 3 or later, or 2 when no such change exists |
| MonitorV202.PercentPerHourMeaning | BatterySoCMonitor.py:273 | for `PercentPerHour`: the consumption times the elapsed hours is the drop in percent; it is zero iff there is no drop |
| MonitorV202.ConsumptionMeaning | BatterySoCMonitor.py:273 | for the loop's consumption `ConsumptionAfter`: from sample 2 the divisor is positive; the consumption is the drop from sample 0 to the current reading over the time up to the tracked index, and zero iff the current reading equals the first |
| MonitorV202.LastChangeEstimator.Observe | BatterySoCMonitor.py:254-274 | appends the reading, keeps the remembered reading and tracked index equal to their definitions (unset before sample 2), and returns the consumption, -1 for samples 0 and 1 |
| MonitorV202.CapturedIsFirst | BatterySoCMonitor.py:276-277 | the start consumption the loop holds is the first consumption that is neither 0 nor -1 |
| MonitorV202.PassExtends | BatterySoCMonitor.py:296-307 | a pass that reaches no threshold extends the run; one that does completes it |
| MonitorV202.Pass | BatterySoCMonitor.py:245-305 | one pass: the estimator takes the reading; the pass records the consumption, whether the row is printed, and the wait, or stops at a threshold |
| MonitorV202.Loop | BatterySoCMonitor.py:243-307 | the loop's passes are those of a run, and the start consumption is the one captured |
| MonitorV202.MainLoop | BatterySoCMonitor.py:243-307 | a run, with the start consumption that `end` prints: the first one neither 0 nor -1, else 0 |
| MonitorV202.EndActions | BatterySoCMonitor.py:328-341 | workers stop first; then the minimum, maximum and end hooks each run iff configured, in that order, with no threshold test |
| MonitorV202.Run | BatterySoCMonitor.py:175-341 | the same configuration outcomes as the newer version; an interrupt before any reading raises in `end` before the hooks; runnable periods give a run and the start-then-end actions |
| VersionComparison.NewerEndHooksAreFiltered | code/BatterySoCMonitor.py:477-487 | the newer version's end actions are the older version's with the minimum and maximum hooks possibly dropped |
| VersionComparison.EndHooksAgreeIffThresholdsMet | code/BatterySoCMonitor.py:478-484 | the two versions run the same end actions iff every configured threshold hook has its threshold met by the end reading |
| VersionComparison.EarlyEstimatesAgree | BatterySoCMonitor.py:273 | with exactly one change point, at sample 3 or later, the newer early consumption equals the older one |
| VersionComparison.EarlyEstimatesDiffer | BatterySoCMonitor.py:255-273 | with the first change at sample 1 the two differ: readings 80, 79, 79 at 10 s give 360 %/h in the newer version and 180 %/h in the older |

## Left out

- psutil battery reads: they are the input sequence of readings. The re-read at `end`
  is an input percent in the newer version and unused in the older one. Remaining-seconds
  values (`secsleft`) are not modelled.
- `time()`, `sleep` and `datetime`: the seconds into the session are an input sequence,
  and the wait is returned, not slept.
- `os.system`: a hook is a `RunCommand` action in the returned list. Its exit status is
  ignored, as in the script.
- The `multiprocessing` CPU-load workers: only their termination is modelled, as the
  first action of `end`. They are concurrency with no data exchange.
- `SIGINT`: it is asynchronous. The interrupt is modelled as arriving after the last
  given reading. An interrupt during a pass, or during `end`, is not modelled.
- argparse (the options are a datatype), `platform()`/`system()`, the ANSI line clearing,
  the log file, the console output of `myPrint`, and the header and summary text.
- MonitorV231.RatesOf: does not model `round(x, 2)` or `round(x)` on the estimates, or
  float rounding; estimates are exact reals. A rounded estimate that lands on -1 (the
  placeholder) is therefore not modelled.
- MonitorV202.PercentPerHour: does not model `round(x, 2)` or float rounding; the rate
  is an exact real.
- HumanForm.PercentageToHumanForm: takes the integer part and the hundredths as integers.
  It does not model the float truncation `int((percent - floor(percent)) * 100)`. The
  contract says only "ends in `%`" for a negative or four-digit integer part (negative rates
  and the -1 placeholder are printed through it, and floor of a negative float gives
  misleading text).
- The older version's wall-clock consumption at `end`, from sample 0 to the last sample
  over the measured session time (BatterySoCMonitor.py:326): it is float and clock based.
  Only its crash on an empty history is modelled, in `MonitorV202.Run`.
- The `data_secsleft` and `data_median_*` lists: nothing reads them. Line 383 of
  `code/BatterySoCMonitor.py` appends the consumption to the seconds-per-percent list, a
  slip without effect.
- Python's `exit(1)` in `end_error` is the `ConfigurationError` outcome. An uncaught
  exception is `Crashed` with the actions already taken.

## Findings

| source | as written | input that shows it | evidently intended | confidence | as-written member | corrected member |
|---|---|---|---|---|---|---|
| code/BatterySoCMonitor.py:167-172 | a one-digit hundredths part is written as the digit followed by `'0'` | 12.05 percent is printed as ` 12.50%` | a `'0'` in front of the digit, giving ` 12.05%` | high, not executed | HumanForm.PercentageToHumanForm, HumanForm.HundredthsMisrendered | HumanForm.PercentageToHumanFormIntended |
| code/BatterySoCMonitor.py:341-345 | the seconds-per-percent and seconds-per-full-battery divisions by the SoC drop from the first to the last change are not guarded (also lines 453-455 in `end`) | readings 80.00, 79.00, 78.00, 79.00 at 10 s raise ZeroDivisionError on the fourth sample | a -1 placeholder for a zero drop, as for the other unknown estimates | medium, not executed | MonitorV231.UnguardedRates, MonitorV231.ReturnToFirstChangeReadingDividesByZero, MonitorV231.ReturnToFirstChangeReadingSession | MonitorV231.RatesOf, MonitorV231.RatesMeaning |

The formatter finding affects both versions; BatterySoCMonitor.py:124-129 has the same
code. The formatters are not used by the loop model, because printing is not modelled.

The loop and `end` are modelled as written: a pass whose divisions raise ends the session
(`Outcome.LoopRaised`), and `MonitorV231.ReturnToFirstChangeReadingSession` shows such a
session. The corrected estimates `RatesOf` are what a pass records whenever it does not
raise, and what `end` prints.

Two behaviours of the code worth stating:

- The wait `rate - (elapsed mod rate)` lies in (0, rate]. A sample taken exactly on a tick
  waits a whole period (`Session.Wait`).
- With readings 80, 80, 80, 78, 78, 78, 75 percent at 10-second samples, sample 6 brings
  the second change. That sample still prints the early estimate, 240 %/h, while the end
  summary reports 360 %/h (`MonitorV231.SecondChangeStillPrintsEarlyRate`).
