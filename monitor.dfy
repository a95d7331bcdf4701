/** The monitor object of CheckHost: the four counters it updates in place on
    every timer tick and the log it appends to. Each method is proved against
    the value-level accounting in module Accounting. */
module CheckHost {
  import opened Accounting

  class Monitor {
    /** The check interval in seconds, fixed at startup. */
    const interval: nat

    var timeUp: nat
    var timeDown: nat
    var totalUp: nat
    var totalDown: nat

    /** The lines appended to the log file, oldest first. */
    var log: seq<Line>

    /** The ticks whose increments took place (a tick whose log write threw has none). */
    ghost var completed: nat

    function State(): Counters
      reads this
    {
      Counters(timeUp, timeDown, totalUp, totalDown)
    }

    ghost predicate Valid()
      reads this
    {
      Consistent(State(), interval) && Total(State()) == interval * completed
    }

    /** Startup: all counters at zero, the log opened with its head, then one
        immediate tick with the first probe result. */
    constructor (interval: nat, fileLength: nat, firstOk: bool, firstWriteFails: bool)
      requires interval > 0
      ensures Valid() && this.interval == interval
      ensures var o := Next(Counters(0, 0, 0, 0), interval, firstOk, firstWriteFails);
        State() == o.after && log == Head(fileLength) + Emitted(o)
      ensures completed == if Next(Counters(0, 0, 0, 0), interval, firstOk, firstWriteFails).failed then 0 else 1
    {
      this.interval := interval;
      timeUp, timeDown, totalUp, totalDown := 0, 0, 0, 0;
      log := [];
      completed := 0;
      new;
      WriteLogHead(fileLength);
      StartConsistent(interval);
      assert interval * 0 == 0;
      ghost var head := log;
      var _, _, _ := Tick(firstOk, firstWriteFails);
      assert log == head + Emitted(Next(Counters(0, 0, 0, 0), interval, firstOk, firstWriteFails));
    }

    /** Writes the header row if the file is still empty, then the start record. */
    method WriteLogHead(fileLength: nat)
      modifies this`log
      ensures log == old(log) + Head(fileLength)
    {
      if fileLength < 1 {
        log := log + [Header];
      }
      log := log + [StartEntry];
    }

    /** Appends the record of one tick, computed from the totals it is given.
        `fails` says whether the write throws, in which case nothing is appended. */
    method WriteLogResults(isSuccess: bool, up: nat, down: nat, fails: bool) returns (failed: bool)
      modifies this`log
      ensures failed == fails
      ensures log == old(log) + if fails then [] else [ResultEntry(isSuccess, up, down)]
    {
      var elapsed := Decompose(up + down);
      var percent := Percent(up, down);
      failed := fails;
      if !fails {
        log := log + [Entry(if isSuccess then Connected else NoConnection, percent, elapsed)];
      }
    }

    /** One timer tick with probe result `ok`. Returns the record written (if
        any), the streak length shown in the tray and whether a log write threw. */
    method Tick(ok: bool, writeFails: bool) returns (written: Option<Line>, statusSeconds: nat, failed: bool)
      requires Valid()
      modifies this`timeUp, this`timeDown, this`totalUp, this`totalDown, this`log, this`completed
      ensures Valid()
      ensures var o := Next(old(State()), interval, ok, writeFails);
        State() == o.after && written == o.written && statusSeconds == o.statusSeconds && failed == o.failed
      ensures log == old(log) + Emitted(Next(old(State()), interval, ok, writeFails))
      ensures completed == old(completed) + if failed then 0 else 1
    {
      ghost var before := State();
      statusSeconds := StatusSeconds(timeUp, timeDown);
      written, failed := None, false;
      if ok {
        timeDown := 0;
        if ShouldLogUp(timeUp, interval) {
          failed := WriteLogResults(true, totalUp, totalDown, writeFails);
          if !failed {
            written := Some(ResultEntry(true, totalUp, totalDown));
          }
        }
        if !failed {
          timeUp := timeUp + interval;
          totalUp := totalUp + interval;
        }
      } else {
        timeUp := 0;
        failed := WriteLogResults(false, totalUp, totalDown, writeFails);
        if !failed {
          written := Some(ResultEntry(false, totalUp, totalDown));
          timeDown := timeDown + interval;
          totalDown := totalDown + interval;
        }
      }
      if !failed {
        completed := completed + 1;
        MulSucc(interval, old(completed));
      }
      NextConsistent(before, interval, ok, writeFails);
    }
  }
}
