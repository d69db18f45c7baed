/** The daily and interval runner loops of jobs/jobs.go with timers and
    tickers reduced to integer time (nanoseconds). A loop runs forever; the
    model follows it for as many runs as `durations` gives job run times,
    and reports each run as its (start, end) pair. */
module TimedLoops {
  import opened JobTypes
  import opened FullTime

  /** One synchronous execution of the runner's job. */
  datatype Run = Run(start: int, end: int)

  /** How a loop goroutine ends up: it returned at once after a parse
      error, it panicked before its first run, or it made these runs. */
  datatype LoopOutcome = Stopped | Crashed | Ran(runs: seq<Run>)

  /** Daily runs from the first fire time: each run lasts its duration and
      the 24-hour timer is re-armed only once the run has returned. */
  function DailyRuns(first: int, durations: seq<nat>): seq<Run>
    decreases |durations|
  {
    if durations == [] then []
    else [Run(first, first + durations[0])] + DailyRuns(first + durations[0] + Day, durations[1..])
  }

  /** When a Go timer armed at `now` for `until` fires: a negative
      duration fires at once. */
  function TimerFire(now: int, until: int): (t: int)
    ensures t >= now && (until >= 0 ==> t == now + until)
  {
    if until < 0 then now else now + until
  }

  /** runDaily: parse `at`, wait for the first delay as lines 180-184 of
      jobs/jobs.go compute it, then run and re-arm the timer for 24 hours
      after each run. `now` is the instant the loop starts and
      `localOffset` how far the process's local zone is east of UTC. In a
      UTC process the first fire is the corrected `FirstDelay`. */
  method RunDaily(at: string, now: int, localOffset: int, durations: seq<nat>) returns (o: LoopOutcome)
    ensures ParseAt(at).None? ==> o == Stopped
    ensures ParseAt(at).Some? ==>
              o == Ran(DailyRuns(TimerFire(now, FirstDelayAsWritten(now, localOffset, ParseAt(at).value)), durations))
    ensures ParseAt(at).Some? && localOffset == 0 ==>
              o == Ran(DailyRuns(now + FirstDelay(now, ParseAt(at).value), durations))
  {
    var target := ParseAt(at);
    if target.None? {
      return Stopped;
    }
    var until := FirstDelayAsWritten(now, localOffset, target.value);
    if localOffset == 0 {
      AsWrittenAgreesInUtc(now, target.value);
    }
    var runs := DailyLoop(TimerFire(now, until), durations);
    return Ran(runs);
  }

  /** The timer loop of runDaily from its first fire time. */
  method DailyLoop(first: int, durations: seq<nat>) returns (runs: seq<Run>)
    ensures runs == DailyRuns(first, durations)
  {
    var t := first;
    runs := [];
    for i := 0 to |durations|
      invariant runs + DailyRuns(t, durations[i..]) == DailyRuns(first, durations)
    {
      assert durations[i..][1..] == durations[i + 1..];
      var finished := t + durations[i];
      runs := runs + [Run(t, finished)];
      t := finished + Day;
    }
    assert runs + [] == runs;
  }

  lemma {:induction false} DailyLength(first: int, durations: seq<nat>)
    ensures |DailyRuns(first, durations)| == |durations|
    decreases |durations|
  {
    if durations != [] {
      DailyLength(first + durations[0] + Day, durations[1..]);
    }
  }

  /** Shape of every daily schedule: run `i` lasts its duration and the
      next run starts exactly one day after it ended; so runs never overlap
      and consecutive starts are at least one day apart. */
  lemma {:induction false} DailySpacing(first: int, durations: seq<nat>, i: nat)
    requires i < |durations|
    ensures |DailyRuns(first, durations)| == |durations|
    ensures DailyRuns(first, durations)[i].end == DailyRuns(first, durations)[i].start + durations[i]
    ensures i + 1 < |durations| ==>
              DailyRuns(first, durations)[i + 1].start == DailyRuns(first, durations)[i].end + Day
              && DailyRuns(first, durations)[i + 1].start - DailyRuns(first, durations)[i].start >= Day
    decreases i
  {
    DailyLength(first, durations);
    if i > 0 {
      DailySpacing(first + durations[0] + Day, durations[1..], i - 1);
    } else if |durations| > 1 {
      DailyLength(first + durations[0] + Day, durations[1..]);
    }
  }

  function Sum(ds: seq<nat>): nat
  {
    if ds == [] then 0 else ds[0] + Sum(ds[1..])
  }

  /** Drift: run `i` starts `i` days plus the durations of all earlier runs
      after the first. Only when runs take no time is the schedule a flat
      24-hour grid. */
  lemma {:induction false} DailyDrift(first: int, durations: seq<nat>, i: nat)
    requires i < |durations|
    ensures |DailyRuns(first, durations)| == |durations|
    ensures DailyRuns(first, durations)[i].start == first + i * Day + Sum(durations[..i])
    decreases i
  {
    DailyLength(first, durations);
    if i > 0 {
      DailyDrift(first + durations[0] + Day, durations[1..], i - 1);
      assert durations[..i] == [durations[0]] + durations[1..][..i - 1];
    }
  }

  /** The first daily run of a loop started at `now` comes within a day,
      at the target's UTC time of day, and never before `now`. */
  lemma DailyFirstRunAtTarget(at: string, now: int, durations: seq<nat>)
    requires ParseAt(at).Some? && durations != []
    ensures var runs := DailyRuns(now + FirstDelay(now, ParseAt(at).value), durations);
            now <= runs[0].start < now + Day && runs[0].start % Day == ParseAt(at).value * Second
  {
  }

  /** At 2024-01-01T23:00:00Z (day 19723 of the epoch) a loop whose
      target is midnight UTC first runs at 2024-01-02T00:00:00Z, not at the
      midnight already past. */
  lemma MidnightExample()
    ensures var now := 19723 * Day + 23 * 3600 * Second;
            now + FirstDelay(now, 0) == 19724 * Day
  {
    var now := 19723 * Day + 23 * 3600 * Second;
    var tod := 23 * 3600 * Second;
    assert now == 19723 * Day + tod && 0 <= tod < Day;
    assert now % Day == tod;
  }

  /** "00:00:00", without an offset, is no full-time, so a daily loop
      configured with it stops without running. */
  lemma NoOffsetRejected()
    ensures ParseAt("00:00:00") == None
  {
  }

  lemma MulSign(a: int, p: int)
    requires p > 0
    ensures a >= 1 ==> a * p >= p
    ensures a <= -1 ==> a * p <= -p
  {
  }

  lemma MulModZero(a: int, p: int)
    requires p > 0
    ensures (a * p) % p == 0
  {
    var x := a * p;
    var d := x / p;
    assert x == d * p + x % p;
    assert x % p == (a - d) * p;
    MulSign(a - d, p);
  }

  /** A multiple of `p` above `c * p` is at least `(c + 1) * p`. */
  lemma MultipleAbove(t: int, c: int, p: int)
    requires p > 0 && t % p == 0 && t > c * p
    ensures t >= (c + 1) * p
  {
    var d := t / p;
    assert t == d * p;
    assert (d - c) * p > 0;
    MulSign(d - c, p);
    assert t - (c + 1) * p == (d - c - 1) * p;
    MulSign(d - c - 1, p);
  }

  /** First tick strictly after `s` on the grid of period `p` (ticks at
      p, 2p, 3p, ... after loop start). */
  function NextTick(s: int, p: int): (t: int)
    requires s >= 0 && p > 0
    ensures t > s && t % p == 0 && t - p <= s
  {
    var q := s / p;
    MulModZero(q + 1, p);
    assert s == q * p + s % p;
    assert (q + 1) * p == q * p + p;
    (q + 1) * p
  }

  /** Interval runs from a start `s`: Go's ticker keeps at most one missed
      tick in its channel, so the next run starts at the first tick after
      this run's start, or at once when the run outlasted that tick. */
  function IntervalRuns(p: int, s: int, durations: seq<nat>): seq<Run>
    requires s >= 0 && p > 0
    decreases |durations|
  {
    if durations == [] then []
    else
      var e := s + durations[0];
      var next := NextTick(s, p);
      [Run(s, e)] + IntervalRuns(p, if e > next then e else next, durations[1..])
  }

  /** runInterval: parse `every` with the external duration parser; a parse
      error returns at once; a zero or negative period makes the ticker
      panic; otherwise the first run is at the first tick, one period after
      loop start (time 0). */
  method RunInterval(every: string, parseDuration: string -> Option<int>, durations: seq<nat>)
    returns (o: LoopOutcome)
    ensures parseDuration(every).None? ==> o == Stopped
    ensures parseDuration(every).Some? && parseDuration(every).value <= 0 ==> o == Crashed
    ensures parseDuration(every).Some? && parseDuration(every).value > 0 ==>
              o == Ran(IntervalRuns(parseDuration(every).value, parseDuration(every).value, durations))
  {
    var interval := parseDuration(every);
    if interval.None? {
      return Stopped;
    }
    var p := interval.value;
    if p <= 0 {
      return Crashed;
    }
    var s := p;
    var runs: seq<Run> := [];
    for i := 0 to |durations|
      invariant s >= 0
      invariant runs + IntervalRuns(p, s, durations[i..]) == IntervalRuns(p, p, durations)
    {
      assert durations[i..][1..] == durations[i + 1..];
      var finished := s + durations[i];
      runs := runs + [Run(s, finished)];
      var tick := NextTick(s, p);
      s := if finished > tick then finished else tick;
    }
    assert runs + [] == runs;
    return Ran(runs);
  }

  lemma {:induction false} IntervalLength(p: int, s: int, durations: seq<nat>)
    requires s >= 0 && p > 0
    ensures |IntervalRuns(p, s, durations)| == |durations|
    decreases |durations|
  {
    if durations != [] {
      var e := s + durations[0];
      var next := NextTick(s, p);
      IntervalLength(p, if e > next then e else next, durations[1..]);
    }
  }

  /** Every interval run: it lasts its duration, the next one starts no
      earlier than it ended (no overlap) and either on a tick or exactly
      when this one ended (a tick missed while running); and when the loop
      is at or past tick `c`, run `i` starts no earlier than tick `c + i`. */
  lemma {:induction false} IntervalShape(p: int, s: int, durations: seq<nat>, c: int, i: nat)
    requires p > 0 && s >= 0 && s >= c * p && i < |durations|
    ensures |IntervalRuns(p, s, durations)| == |durations|
    ensures IntervalRuns(p, s, durations)[i].start >= (c + i) * p
    ensures IntervalRuns(p, s, durations)[i].end == IntervalRuns(p, s, durations)[i].start + durations[i]
    ensures i + 1 < |durations| ==>
              var runs := IntervalRuns(p, s, durations);
              runs[i].end <= runs[i + 1].start
              && (runs[i + 1].start == runs[i].end || runs[i + 1].start % p == 0)
    decreases i
  {
    var e := s + durations[0];
    var next := NextTick(s, p);
    var s' := if e > next then e else next;
    MultipleAbove(next, c, p);
    IntervalLength(p, s, durations);
    if i > 0 {
      IntervalShape(p, s', durations[1..], c + 1, i - 1);
      assert (c + 1) + (i - 1) == c + i;
    } else if |durations| > 1 {
      IntervalLength(p, s', durations[1..]);
    }
  }

  /** The loop's own schedule: at most one run per tick and none at loop
      start: run `i` starts no earlier than tick `i + 1`. */
  lemma IntervalAtMostOnePerTick(p: int, durations: seq<nat>, i: nat)
    requires p > 0 && i < |durations|
    ensures |IntervalRuns(p, p, durations)| == |durations|
    ensures IntervalRuns(p, p, durations)[i].start >= (i + 1) * p
  {
    IntervalShape(p, p, durations, 1, i);
  }

  /** Runs shorter than the period keep the schedule on the grid: when the
      loop stands on tick `k`, run `i` starts exactly at tick `k + i`. */
  lemma {:induction false} IntervalOnGridWhenFast(p: int, k: nat, durations: seq<nat>, i: nat)
    requires p > 0 && k >= 1 && i < |durations|
    requires forall j :: 0 <= j < |durations| ==> durations[j] < p
    ensures |IntervalRuns(p, k * p, durations)| == |durations|
    ensures IntervalRuns(p, k * p, durations)[i].start == (k + i) * p
    decreases i
  {
    var s := k * p;
    MulSign(k, p);
    IntervalLength(p, s, durations);
    MulModZero(k, p);
    var next := NextTick(s, p);
    MultipleAbove(next, k, p);
    assert next == (k + 1) * p;
    if i > 0 {
      forall j | 0 <= j < |durations[1..]| ensures durations[1..][j] < p {
        assert durations[1..][j] == durations[j + 1];
      }
      IntervalOnGridWhenFast(p, k + 1, durations[1..], i - 1);
      assert (k + 1) + (i - 1) == k + i;
    }
  }

  /** A tick missed during a long run is delivered as soon as the run
      returns, so two starts can be closer than one period: with period
      100 and runs of 150, 10 and 0, the runs start at 100, 250 and 300. */
  lemma IntervalLateTick()
    ensures IntervalRuns(100, 100, [150, 10, 0]) == [Run(100, 250), Run(250, 260), Run(300, 300)]
  {
    assert NextTick(100, 100) == 200;
    assert NextTick(250, 100) == 300;
    assert NextTick(300, 100) == 400;
  }
}
