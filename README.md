# CheckHost accounting, in Dafny

CheckHost is a tray application. On a fixed interval it checks whether a
host name resolves. It tracks how long the host has been continuously up or
down and appends status records to a semicolon-separated log file. This
project models the accounting at its core:

- the four counters: current up streak, current down streak, lifetime up
  total and lifetime down total;
- the tick that updates them from one probe result and decides whether a log
  record is written;
- the fields of a record: the truncated percent-up and the lifetime total
  split into days, hours and minutes;
- the streak shown in the tray status;
- the header decision when the log is opened.

Files:

- `accounting.dfy` (module `Accounting`) holds the accounting as values.
  It defines the counters, the log lines and the arithmetic of each field.
  `Next` is one tick as a function of the counters before it. `Run` replays
  a sequence of probe results. The lemmas prove the invariants and the
  throttling rule.
- `monitor.dfy` (module `CheckHost`) holds the class `Monitor`. It has the
  four counters as fields and the log as a `seq<Line>` that its methods
  append to. `Tick` updates the fields in place the way the timer callback
  does, and its contract ties it to `Accounting.Next`. `Valid()` keeps
  `Consistent`, plus the fact that the two totals sum to the interval times
  the ghost count of completed ticks.

The probe result is an input to `Tick`. So is whether a log write throws
(`writeFails`). As in the source, a throw skips the increments that follow
the write. The reset of the opposite streak, which comes before the write,
has already happened.

The interval must be positive (`requires interval > 0`). The source
constructs its timer from the interval at CheckHost/Program.cs:54, and a
timer refuses an interval that is not positive. So no tick ever runs with a
non-positive interval.

Behaviour worth noting:

- A failure tick always writes a record. The code has no throttle for down
  repeats.
- A failure tick resets the up streak, not the down streak. A success tick
  resets the down streak.
- When a log write throws, the counters are not left as they were. The
  opposite streak has already been reset (lines 126 and 140).
- The tray shows the streak as it was before the tick (lines 124 and 138
  run before the update). On a down-to-up tick it therefore shows the length
  of the outage that just ended.

Replaying a sequence of probe results is deterministic, because `Run` is a
function.

## Model

| member | source | states |
|---|---|---|
| `Accounting.Percent` | CheckHost/Program.cs:105 | percent-up is in 0..100; it is 100 when no time was counted; otherwise it is the unique p with p*(up+down) <= 100*up < (p+1)*(up+down), the truncated ratio |
| `Accounting.Decompose` | CheckHost/Program.cs:104-111 | hours < 24, minutes < 60, and days*86400 + hours*3600 + minutes*60 <= s < that + 60 |
| `Accounting.DecomposeUnique` | CheckHost/Program.cs:111 | any triple with hours < 24 and minutes < 60 that covers s to within a minute is the one Decompose gives |
| `Accounting.DecomposeSeconds` | CheckHost/Program.cs:111 | round trip: decomposing the seconds of a well-formed days/hours/minutes triple gives the triple back |
| `Accounting.ResultEntry` | CheckHost/Program.cs:102-113 | a record carries the OK or no-connection label, a percent in 0..100 truncated from the totals it is given (100 when both are 0), and a day/hour/minute split of up+down |
| `Accounting.Head` | CheckHost/Program.cs:86-100 | opening the log writes the header row iff the file length is < 1, and in both cases ends with exactly one start record with numeric tail 0;0;0;0 |
| `Accounting.ShouldLogUpAt` | CheckHost/Program.cs:129-130 | after k up ticks of a streak, the next up tick writes a record iff k is a multiple of 360 |
| `Accounting.StatusSeconds` | CheckHost/Program.cs:158-164 | the tray duration is one of the two streaks, and it is the running one whenever at most one streak is non-zero |
| `Accounting.StatusAfterOutage` | CheckHost/Program.cs:121-126 | on a down-to-up tick the tray reports the length of the outage that just ended |
| `Accounting.Next` | CheckHost/Program.cs:115-156 | a tick adds exactly interval to the total of its result and nothing to the other; totals never decrease; a success resets the down streak and a failure the up streak; a failure tick always writes a record; a success tick writes one iff the throttle holds on the pre-tick up streak; the record's fields come from the pre-tick totals; a throwing write skips the increments but not the reset |
| `Accounting.StartConsistent` | CheckHost/Program.cs:27-30 | the all-zero startup counters satisfy the invariant |
| `Accounting.NextConsistent` | CheckHost/Program.cs:126-145 | every tick, failing write or not, keeps the invariant: at most one streak non-zero, every counter a multiple of interval, each streak <= its total |
| `Accounting.Run` | CheckHost/Program.cs:115-156 | after any sequence of probe results, the totals sum to the old sum plus interval times the number of ticks; the up total grows by interval per success and the down total by interval per failure; there are at least as many records as failures |
| `Accounting.RunConsistent` | CheckHost/Program.cs:115-156 | the invariant holds after any sequence of ticks |
| `Accounting.UpStreak` | CheckHost/Program.cs:129-133 | n more up ticks after k up ticks grow the up streak by n*interval, leave the down streak 0, and write one record per tick number in k..k+n-1 that is a multiple of 360 |
| `Accounting.UpStreakFromStart` | CheckHost/Program.cs:126-133 | from startup or right after a down tick, n up ticks write ceil(n/360) records, and the first of them carries the pre-streak totals |
| `Accounting.DownStreak` | CheckHost/Program.cs:140-145 | n down ticks grow the down streak by n*interval, leave the up streak 0 and write exactly n records |
| `CheckHost.Monitor.constructor` | CheckHost/Program.cs:32-67 | startup: counters at zero, the log head written, then one immediate tick; the invariant holds afterwards |
| `CheckHost.Monitor.WriteLogHead` | CheckHost/Program.cs:86-100 | appends exactly Head(fileLength) to the log |
| `CheckHost.Monitor.WriteLogResults` | CheckHost/Program.cs:102-113 | appends the record computed from the totals it is given, or nothing when the write throws |
| `CheckHost.Monitor.Tick` | CheckHost/Program.cs:115-156 | the new counters, the written record, the tray duration and the error flag are exactly those of Next on the old counters; the log grows by that record alone; the invariant and the sum = interval * completed ticks are kept |

## Left out

- Tray icon, menu, message boxes, the about dialog, opening the log file, form loading and disposal: presentation with no state of its own.
- Name resolution (`Check`): a network call, modelled as the boolean `ok` given to `Tick`.
- The timer and its disable/enable guard: they serialise callbacks. The model calls `Tick` in sequence. The timer is enabled before the log head and the first tick, and an early concurrent callback is not modelled.
- Dates and times in log lines, and the text of localised labels: clock and library output. A line keeps its label and numeric fields.
- The text format of the tray duration (`TimeSpan.ToString()`): library formatting. The model keeps the seconds value.
- The `Time` argument of `WriteLogResults` is unused by the source and is not modelled.
- 64-bit `long` overflow of the counters, of `100 * TotalTimeUp`, and the overflow limit of `TimeSpan.FromSeconds`: the integers are unbounded. These limits need thousands of years of uptime.
- The `double` cast of the percent: it converts a whole number, so the value stays an integer.
- Exceptions while opening the log file or writing its head: the constructor's error path is not modelled.
- Throws inside the tick other than from the log write are not modelled: the tray-text setter at CheckHost/Program.cs:124 and 138 (it rejects text over 63 characters) and `GetTimeString` would throw before the streak reset and skip it too.
- `CheckHost.Monitor.WriteLogResults`: a throwing write is modelled as appending nothing. A line cut off after its date and time columns is not modelled.
- `Accounting.Run`: replays ticks whose log writes all succeed. Failing writes are covered one tick at a time by `Next`, `NextConsistent` and `Tick`.
