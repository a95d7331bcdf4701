/** The up/down accounting of CheckHost, as values: the counters, the log
    lines, the arithmetic behind each log field, one tick as a function of the
    counters before it, and the replay of a whole sequence of probe results.
    The class in monitor.dfy performs the same steps in place and is proved
    against the functions here. */
module Accounting {

  datatype Option<+T> = None | Some(value: T)

  /** An up streak writes an "OK" record on every 360th tick, counted from 0. */
  const UpLogPeriod: nat := 360

  const SecondsPerMinute: nat := 60
  const SecondsPerHour: nat := 3600
  const SecondsPerDay: nat := 86400

  /** The result column of a log line: the start message, "OK" or "no connection". */
  datatype Label = Start | Connected | NoConnection

  /** The days, hours and minutes columns of a log line. */
  datatype Duration = Duration(days: nat, hours: nat, minutes: nat)

  /** One line of the log file. Date and time columns are clock output and are
      not modelled; labels stand for the localised strings. */
  datatype Line =
    | Header
    | Entry(result: Label, percent: nat, elapsed: Duration)

  /** The four counters of the monitor, all in seconds. */
  datatype Counters = Counters(timeUp: nat, timeDown: nat, totalUp: nat, totalDown: nat)

  function Total(c: Counters): nat {
    c.totalUp + c.totalDown
  }

  // ---------------------------------------------------------------------------
  // Log fields

  lemma DivBounds(x: nat, d: nat)
    requires d > 0
    ensures (x / d) * d <= x < (x / d) * d + d
  {
  }

  lemma MulSucc(d: nat, n: nat)
    ensures d * (n + 1) == d * n + d
  {
  }

  lemma MulMono(a: int, b: int, d: nat)
    ensures a >= b ==> a * d >= b * d
  {
  }

  /** The percent-up column: the integer part of 100 * up / (up + down), and
      100 before any time has been counted. */
  function Percent(up: nat, down: nat): (p: nat)
    ensures p <= 100
    ensures up + down == 0 ==> p == 100
    ensures up + down > 0 ==> p * (up + down) <= 100 * up < (p + 1) * (up + down)
  {
    if up + down > 0 then
      var d := up + down;
      DivBounds(100 * up, d);
      var q := 100 * up / d;
      MulMono(q, 101, d);
      q
    else
      100
  }

  /** The number of seconds a (days, hours, minutes) triple stands for. */
  function Seconds(t: Duration): nat {
    t.days * SecondsPerDay + t.hours * SecondsPerHour + t.minutes * SecondsPerMinute
  }

  predicate WellFormed(t: Duration) {
    t.hours < 24 && t.minutes < 60
  }

  /** The Days, Hours and Minutes of a time span of s whole seconds. */
  function Decompose(s: nat): (t: Duration)
    ensures WellFormed(t)
    ensures Seconds(t) <= s < Seconds(t) + SecondsPerMinute
  {
    var m := s / 60;
    var h := s / 3600;
    assert h == m / 60;
    assert s / 86400 == h / 24;
    Duration(s / 86400, h % 24, m % 60)
  }

  /** A well-formed triple is determined by the seconds it covers. */
  lemma DecomposeUnique(s: nat, t: Duration)
    requires WellFormed(t)
    requires Seconds(t) <= s < Seconds(t) + SecondsPerMinute
    ensures t == Decompose(s)
  {
    var u := Decompose(s);
    var a := t.days * 1440 + t.hours * 60 + t.minutes;
    var b := u.days * 1440 + u.hours * 60 + u.minutes;
    assert Seconds(t) == 60 * a;
    assert Seconds(u) == 60 * b;
    assert a == b;
    assert t.days * 1440 <= a < t.days * 1440 + 1440;
    assert u.days * 1440 <= b < u.days * 1440 + 1440;
    assert t.days == u.days;
    assert t.hours == u.hours;
    assert t.minutes == u.minutes;
  }

  /** Round trip: decomposing the seconds of a well-formed triple gives it back. */
  lemma DecomposeSeconds(t: Duration)
    requires WellFormed(t)
    ensures Decompose(Seconds(t)) == t
  {
    DecomposeUnique(Seconds(t), t);
  }

  /** The record of one tick: its result label and the percent and elapsed
      columns computed from the lifetime totals it is given. */
  function ResultEntry(isSuccess: bool, totalUp: nat, totalDown: nat): (e: Line)
    ensures e.Entry? && e.result == (if isSuccess then Connected else NoConnection)
    ensures e.percent <= 100
    ensures totalUp + totalDown == 0 ==> e.percent == 100
    ensures totalUp + totalDown > 0 ==>
      e.percent * (totalUp + totalDown) <= 100 * totalUp < (e.percent + 1) * (totalUp + totalDown)
    ensures WellFormed(e.elapsed)
    ensures Seconds(e.elapsed) <= totalUp + totalDown < Seconds(e.elapsed) + SecondsPerMinute
  {
    Entry(if isSuccess then Connected else NoConnection,
          Percent(totalUp, totalDown),
          Decompose(totalUp + totalDown))
  }

  /** The start record written when the log is opened: numeric tail 0;0;0;0. */
  const StartEntry: Line := Entry(Start, 0, Duration(0, 0, 0))

  /** The lines written when the log is opened, given the file's length then. */
  function Head(fileLength: nat): (lines: seq<Line>)
    ensures |lines| >= 1 && lines[|lines| - 1] == StartEntry
    ensures Header in lines <==> fileLength < 1
    ensures |lines| == if fileLength < 1 then 2 else 1
  {
    (if fileLength < 1 then [Header] else []) + [StartEntry]
  }

  // ---------------------------------------------------------------------------
  // One tick

  /** The throttle of an up tick, on the up streak before the tick. */
  predicate ShouldLogUp(timeUp: nat, interval: nat)
    requires interval > 0
  {
    (timeUp / interval) % UpLogPeriod == 0
  }

  lemma MulDivCancel(k: nat, d: nat)
    requires d > 0
    ensures (k * d) / d == k
  {
    var q := (k * d) / d;
    DivBounds(k * d, d);
    MulMono(q, k + 1, d);
    MulMono(k, q + 1, d);
    assert (k + 1) * d == k * d + d;
    assert (q + 1) * d == q * d + d;
  }

  /** After k ticks of an up streak, the next up tick writes a record exactly
      when k is a multiple of 360. */
  lemma ShouldLogUpAt(k: nat, interval: nat)
    requires interval > 0
    ensures ShouldLogUp(k * interval, interval) <==> k % UpLogPeriod == 0
  {
    MulDivCancel(k, interval);
  }

  /** The duration shown in the tray status: the up streak if it is running,
      otherwise the down streak. */
  function StatusSeconds(timeUp: nat, timeDown: nat): (r: nat)
    ensures r == timeUp || r == timeDown
    ensures timeUp == 0 || timeDown == 0 ==> r == timeUp + timeDown
  {
    if timeUp > 0 then timeUp else timeDown
  }

  /** Whether a tick tries to write a record: every failure tick does, an
      up tick only when the throttle lets it. */
  predicate Attempts(c: Counters, interval: nat, ok: bool)
    requires interval > 0
  {
    !ok || ShouldLogUp(c.timeUp, interval)
  }

  /** What one tick produces: the counters after it, the record it wrote (if
      any), the streak it reported to the tray and whether a log write threw. */
  datatype Outcome = Outcome(after: Counters, written: Option<Line>, statusSeconds: nat, failed: bool)

  /** One tick with probe result `ok`. `writeFails` says whether a log write
      attempted in this tick throws; a throw skips the increments that follow
      the write but not the streak reset that precedes it. */
  function Next(c: Counters, interval: nat, ok: bool, writeFails: bool): (o: Outcome)
    requires interval > 0
    ensures o.statusSeconds == StatusSeconds(c.timeUp, c.timeDown)
    ensures o.failed <==> writeFails && Attempts(c, interval, ok)
    ensures o.written.Some? <==> !writeFails && Attempts(c, interval, ok)
    ensures o.written.Some? ==> o.written.value == ResultEntry(ok, c.totalUp, c.totalDown)
    ensures o.after.totalUp >= c.totalUp && o.after.totalDown >= c.totalDown
    ensures Total(o.after) == Total(c) + (if o.failed then 0 else interval)
    ensures !o.failed ==> if ok then o.after.totalUp == c.totalUp + interval
                                else o.after.totalDown == c.totalDown + interval
    ensures ok ==> o.after.timeDown == 0
    ensures !ok ==> o.after.timeUp == 0
    ensures !o.failed ==> o.after.timeUp + o.after.timeDown == (if ok then c.timeUp else c.timeDown) + interval
    ensures o.failed ==> o.after == if ok then c.(timeDown := 0) else c.(timeUp := 0)
  {
    var status := StatusSeconds(c.timeUp, c.timeDown);
    var entry := ResultEntry(ok, c.totalUp, c.totalDown);
    if ok then
      var reset := c.(timeDown := 0);
      if !ShouldLogUp(c.timeUp, interval) then
        Outcome(reset.(timeUp := c.timeUp + interval, totalUp := c.totalUp + interval), None, status, false)
      else if writeFails then
        Outcome(reset, None, status, true)
      else
        Outcome(reset.(timeUp := c.timeUp + interval, totalUp := c.totalUp + interval), Some(entry), status, false)
    else
      var reset := c.(timeUp := 0);
      if writeFails then
        Outcome(reset, None, status, true)
      else
        Outcome(reset.(timeDown := c.timeDown + interval, totalDown := c.totalDown + interval), Some(entry), status, false)
  }

  /** The invariant of the counters: at most one streak runs, every counter is a
      whole number of intervals, and a streak never exceeds its total. */
  predicate Consistent(c: Counters, interval: nat) {
    interval > 0 &&
    (c.timeUp == 0 || c.timeDown == 0) &&
    c.timeUp % interval == 0 && c.timeDown % interval == 0 &&
    c.totalUp % interval == 0 && c.totalDown % interval == 0 &&
    c.timeUp <= c.totalUp && c.timeDown <= c.totalDown
  }

  /** The counters at startup are consistent. */
  lemma StartConsistent(interval: nat)
    requires interval > 0
    ensures Consistent(Counters(0, 0, 0, 0), interval)
  {
  }

  lemma AddInterval(x: nat, interval: nat)
    requires interval > 0 && x % interval == 0
    ensures (x + interval) % interval == 0
  {
    var k := x / interval;
    assert x == k * interval;
    assert x + interval == (k + 1) * interval;
    MulDivCancel(k + 1, interval);
  }

  /** Every tick, whether or not its log write throws, keeps the counters consistent. */
  lemma NextConsistent(c: Counters, interval: nat, ok: bool, writeFails: bool)
    requires Consistent(c, interval)
    ensures Consistent(Next(c, interval, ok, writeFails).after, interval)
  {
    AddInterval(c.timeUp, interval);
    AddInterval(c.timeDown, interval);
    AddInterval(c.totalUp, interval);
    AddInterval(c.totalDown, interval);
  }

  /** On a down-to-up tick the tray reports the outage that just ended. */
  lemma StatusAfterOutage(c: Counters, interval: nat, writeFails: bool)
    requires Consistent(c, interval) && c.timeDown > 0
    ensures Next(c, interval, true, writeFails).statusSeconds == c.timeDown
  {
  }

  // ---------------------------------------------------------------------------
  // Replay of a sequence of probe results (every log write succeeding)

  function Successes(probes: seq<bool>): (n: nat)
    ensures n <= |probes|
  {
    if probes == [] then 0 else (if probes[0] then 1 else 0) + Successes(probes[1..])
  }

  function Emitted(o: Outcome): seq<Line> {
    if o.written.Some? then [o.written.value] else []
  }

  datatype Replay = Replay(final: Counters, records: seq<Line>)

  /** The counters and the records after the ticks of `probes`, in order. */
  function Run(c: Counters, interval: nat, probes: seq<bool>): (r: Replay)
    requires interval > 0
    ensures Total(r.final) == Total(c) + interval * |probes|
    ensures r.final.totalUp == c.totalUp + interval * Successes(probes)
    ensures r.final.totalDown == c.totalDown + interval * (|probes| - Successes(probes))
    ensures |r.records| >= |probes| - Successes(probes)
    decreases |probes|
  {
    if probes == [] then
      Replay(c, [])
    else
      var o := Next(c, interval, probes[0], false);
      var rest := Run(o.after, interval, probes[1..]);
      MulSucc(interval, |probes[1..]|);
      MulSucc(interval, Successes(probes[1..]));
      MulSucc(interval, |probes[1..]| - Successes(probes[1..]));
      Replay(rest.final, Emitted(o) + rest.records)
  }

  lemma {:induction false} RunConsistent(c: Counters, interval: nat, probes: seq<bool>)
    requires Consistent(c, interval)
    ensures Consistent(Run(c, interval, probes).final, interval)
    decreases |probes|
  {
    if probes != [] {
      NextConsistent(c, interval, probes[0], false);
      RunConsistent(Next(c, interval, probes[0], false).after, interval, probes[1..]);
    }
  }

  /** The number of multiples of 360 in 0 .. n-1. */
  function LoggedTicks(n: nat): nat {
    (n + UpLogPeriod - 1) / UpLogPeriod
  }

  lemma LoggedTicksStep(k: nat)
    ensures LoggedTicks(k + 1) == LoggedTicks(k) + (if k % UpLogPeriod == 0 then 1 else 0)
  {
  }

  /** An up streak that has lasted k ticks and goes on for |probes| more
      writes one record for each tick number j in k .. k+|probes|-1 that is a
      multiple of 360, and the streak grows by one interval per tick. */
  lemma {:induction false} UpStreak(c: Counters, interval: nat, probes: seq<bool>, k: nat)
    requires interval > 0 && c.timeUp == interval * k
    requires forall i :: 0 <= i < |probes| ==> probes[i]
    ensures Run(c, interval, probes).final.timeUp == c.timeUp + interval * |probes|
    ensures |probes| > 0 ==> Run(c, interval, probes).final.timeDown == 0
    ensures |Run(c, interval, probes).records| == LoggedTicks(k + |probes|) - LoggedTicks(k)
    decreases |probes|
  {
    if probes != [] {
      var o := Next(c, interval, true, false);
      assert interval * k == k * interval;
      ShouldLogUpAt(k, interval);
      assert |Emitted(o)| == if k % UpLogPeriod == 0 then 1 else 0;
      MulSucc(interval, k);
      assert o.after.timeUp == interval * (k + 1);
      UpStreak(o.after, interval, probes[1..], k + 1);
      MulSucc(interval, |probes[1..]|);
      LoggedTicksStep(k);
    }
  }

  /** From the start, or right after a down tick, n up ticks write
      ceil(n / 360) records: the first tick and every 360th after it. */
  lemma UpStreakFromStart(c: Counters, interval: nat, probes: seq<bool>)
    requires interval > 0 && c.timeUp == 0
    requires forall i :: 0 <= i < |probes| ==> probes[i]
    ensures |Run(c, interval, probes).records| == LoggedTicks(|probes|)
    ensures |probes| > 0 ==> Run(c, interval, probes).records[0] == ResultEntry(true, c.totalUp, c.totalDown)
  {
    assert interval * 0 == 0;
    UpStreak(c, interval, probes, 0);
    if |probes| > 0 {
      ShouldLogUpAt(0, interval);
      assert Emitted(Next(c, interval, true, false)) == [ResultEntry(true, c.totalUp, c.totalDown)];
    }
  }

  /** A down streak writes a record on every tick, and grows by one interval per tick. */
  lemma {:induction false} DownStreak(c: Counters, interval: nat, probes: seq<bool>)
    requires interval > 0
    requires forall i :: 0 <= i < |probes| ==> !probes[i]
    ensures Run(c, interval, probes).final.timeDown == c.timeDown + interval * |probes|
    ensures |probes| > 0 ==> Run(c, interval, probes).final.timeUp == 0
    ensures |Run(c, interval, probes).records| == |probes|
    decreases |probes|
  {
    if probes != [] {
      var o := Next(c, interval, false, false);
      DownStreak(o.after, interval, probes[1..]);
      MulSucc(interval, |probes[1..]|);
    }
  }
}
