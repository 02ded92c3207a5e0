# cpu_monitor, modelled in Dafny

`cpu_monitor.py` is a terminal monitor for a Linux machine. Once a second it:

- reads the aggregate CPU tick counters, the CPU temperature and the byte counters of the network interfaces;
- shows the CPU usage, the temperature in Celsius and Fahrenheit, and the upload and download rates, colour-coded by severity;
- pings 1.1.1.1 at random intervals of 10 to 40 seconds and shows the average round-trip time or the error;
- logs one line per iteration.

This project models the computational core of that script:

- `Text` (`text.dfy`) holds the Python string operations the script relies on: `split()`, `split(sep)`, `split(sep, 1)`, `strip()`, `splitlines()`, `in` and `str(int)`. Each has lemmas stating what it yields.
- `Readers` (`readers.dfy`) holds `read_cpu_times`, `get_cpu_temp` and `read_network_bytes`. They work on the text or the lines of the kernel files, not on the files. Python's `int()` is a parameter `parseInt: string -> Option<int>`, and every exception the readers can raise is an explicit `ReadError`. `read_network_bytes` keeps its loop as a method, proved against the fold `NetDevTotals`.
- `Presentation` (`presentation.dfy`) holds `color_for_cpu`, `color_for_temp` and the unit-selection loop of `format_bytes_per_sec`. The loop is a method returning the unit index and the scaled value, specified by the predicate `IsScaling`.
- `Ping` (`ping.dfy`) holds the classification half of `run_ping`. It takes the finished process (or the exception it raised) and gives exactly one of an average or an error message. `float()` is a parameter `parseFloat`. The method keeps the source's search loop and is proved against the function `Classify`.
- `Monitor` (`monitor.dfy`) holds the state of the main loop as the class `Monitor`:
  - the previous CPU, network and clock snapshot;
  - the time of the next ping;
  - the last ping result.

  Its constructor is the set-up before the loop. `Tick` is one iteration. `Tick` takes these as parameters: the fresh readings, the clock value `now`, the outcome the ping would have, and the random delay. It returns a `Report` of everything the iteration shows and logs.

## Model

| member | source | states |
|---|---|---|
| Text.StripLeftSpec | cpu_monitor.py:35 | `lstrip()` removes exactly the leading whitespace: the result is a suffix, everything removed is whitespace, and the result is empty or starts with a non-space |
| Text.StripRightSpec | cpu_monitor.py:35 | `rstrip()` removes exactly the trailing whitespace: the result is a prefix, everything removed is whitespace, and the result is empty or ends with a non-space |
| Text.StripEnds | cpu_monitor.py:56 | the result of `strip()` is empty or has a non-space character at both ends |
| Text.StripEmpty | cpu_monitor.py:116 | `strip()` is empty exactly when the string is all whitespace, which is what makes `stderr.strip() or ...` fall back to the exit-code message |
| Text.StripPiece | cpu_monitor.py:56 | `strip()` is a contiguous piece of the string with only whitespace cut away before and after it |
| Text.NonSpaceRunSpec | cpu_monitor.py:42 | the run measured for `split()` is maximal: no whitespace inside, whitespace or the end after it |
| Text.WordsSpec | cpu_monitor.py:42 | `split()` yields non-empty words without whitespace, and yields no words exactly for a blank string |
| Text.WordsRebuild | cpu_monitor.py:42 | the string is the words of `split()` in order, separated by runs of whitespace that are non-empty between two words and possibly empty at either end, so only whitespace is dropped |
| Text.IndexOfSpec | cpu_monitor.py:55 | the index found is that of the first occurrence, and equals the length exactly when the character is absent |
| Text.SplitSpec | cpu_monitor.py:128-129 | no piece of `split(sep)` contains `sep`, and joining the pieces with `sep` gives the string back |
| Text.SplitOnceSpec | cpu_monitor.py:55 | `split(":", 1)` unpacked into two names fails exactly when there is no colon, and otherwise cuts at the first colon |
| Text.SplitWithout | cpu_monitor.py:128 | a string without the separator splits into itself alone |
| Text.SplitHasSecond | cpu_monitor.py:128 | `split(sep)[1]` exists exactly when the separator occurs |
| Text.SplitAfter | cpu_monitor.py:128-129 | splitting at a first separator gives the piece before it followed by the split of what follows |
| Text.FirstWordAfterStrip | cpu_monitor.py:128 | `.strip().split()[0]` of whitespace, a word and a whitespace-led rest is that word |
| Text.ContainsSpec | cpu_monitor.py:121 | substring `in` holds exactly when the substring occurs at some position |
| Text.LineEndSpec | cpu_monitor.py:120 | a line of `splitlines()` ends at the first line boundary |
| Text.SplitLinesSpec | cpu_monitor.py:120 | `splitlines()` yields lines free of line boundaries, and yields none exactly for the empty string |
| Text.SplitLinesRebuild | cpu_monitor.py:120 | the lines of `splitlines()`, each followed by its boundary, give the string back; every boundary is one line-break character or "\r\n", only the last line may lack one, and a "\r" directly followed by "\n" is never cut into two boundaries |
| Text.NatToStringValue | cpu_monitor.py:116 | the decimal digits of a natural number read back to that number |
| Text.IntToStringValue | cpu_monitor.py:116 | `str(returncode)` is decimal notation, signed exactly for negative codes, and reads back to the code |
| Readers.FirstLine | cpu_monitor.py:42 | `readline()` is the prefix of the text up to the first line terminator, which it does not contain |
| Readers.ParseInts | cpu_monitor.py:43 | `list(map(int, parts))` succeeds exactly when every token converts, keeps order and length, and otherwise reports the first token that does not convert |
| Readers.ReadCpuTimes | cpu_monitor.py:39-46 | succeeds exactly when the first line has at least five numeric fields after the label, all integers; idle is field 3 plus field 4 (idle + iowait) and total the sum of all fields; every error is either the first token that is not an integer or, only when all tokens are integers, the missing index 3 or 4 |
| Readers.IdleAtMostTotal | cpu_monitor.py:44-45 | with non-negative counters, 0 <= idle <= total |
| Readers.Celsius | cpu_monitor.py:36 | the temperature in degrees Celsius is the millidegree reading divided by 1000 |
| Readers.ReadCpuTemp | cpu_monitor.py:32-36 | succeeds exactly when the stripped text is an integer, and then yields that many thousandths of a degree; otherwise it reports the stripped text |
| Readers.ParseCounters | cpu_monitor.py:59-61 | a line counts exactly when fields 0 and 8 exist and are integers, and then adds them as rx and tx |
| Readers.ParseDevLine | cpu_monitor.py:55-61 | a line without a colon is an error, an interface named `lo` after stripping is skipped, and any other line counts exactly when its fields 0 and 8 are integers, which are then its rx and tx |
| Readers.ContributionAt | cpu_monitor.py:54-55 | the contribution at position j is that of line j |
| Readers.NetDevTotals | cpu_monitor.py:49-64 | reading the statistics file fails exactly when some line after the two headers is malformed |
| Readers.MalformedAfterHeaders | cpu_monitor.py:54-55 | a malformed contribution after the headers comes from a malformed line after the headers, and the other way round |
| Readers.AccumulateFails | cpu_monitor.py:54-63 | the fold fails exactly when one of the contributions is malformed |
| Readers.AccumulateAt | cpu_monitor.py:56-63 | one iteration of the loop: a skipped line leaves the totals, a counted line adds its rx and tx, a malformed line ends the reading with its error |
| Readers.AccumulateAppend | cpu_monitor.py:54-63 | reading two blocks of lines is reading the first and continuing with the second from its totals |
| Readers.AccumulateShift | cpu_monitor.py:51-52 | starting from other totals shifts a successful result by exactly those totals |
| Readers.ContributionsAppend | cpu_monitor.py:54 | the lines of two blocks contribute in order |
| Readers.ContributionsSplice | cpu_monitor.py:54-55 | a line between two blocks contributes in its place |
| Readers.AccumulateStopsAt | cpu_monitor.py:55-61 | a malformed contribution makes the fold fail, whatever stands before or after it |
| Readers.AccumulateAddsLast | cpu_monitor.py:62-63 | a counted contribution at the end adds its rx and tx to the totals of a successful fold |
| Readers.AccumulateSkipsLoopback | cpu_monitor.py:57-58 | a skipped contribution leaves the fold unchanged, wherever it stands |
| Readers.LoopbackIgnored | cpu_monitor.py:56-58 | the loopback line changes nothing, wherever it stands |
| Readers.MalformedLineFails | cpu_monitor.py:55-61 | one malformed line makes the whole reading fail |
| Readers.CountedLineAdds | cpu_monitor.py:59-63 | a counted line after a successful reading adds exactly its fields 0 and 8 to the totals |
| Readers.HeadersIgnored | cpu_monitor.py:54 | the two header lines never contribute, whatever they hold |
| Readers.ReadNetworkBytes | cpu_monitor.py:49-64 | the loop returns the totals of the fold `NetDevTotals` over the lines after the headers, or the error of the first malformed line |
| Presentation.ColorForCpu | cpu_monitor.py:67-77 | each colour is shown for exactly one band of usage: below 30 plain, [30,50) yellow, [50,70) orange, [70,90) red, 90 and above purple |
| Presentation.CpuColorMonotonic | cpu_monitor.py:67-77 | a higher usage never gets a less alarming colour |
| Presentation.ColorForTemp | cpu_monitor.py:80-88 | each colour is shown for exactly one temperature band: below 60 plain, [60,68) yellow, [68,75) orange, 75 and above red; never purple |
| Presentation.TempColorMonotonic | cpu_monitor.py:80-88 | a higher temperature never gets a less alarming colour |
| Presentation.Clamp | cpu_monitor.py:94 | `max(rate, 0.0)` is non-negative, at least the rate, the rate itself when that is non-negative, and 0 when it is negative |
| Presentation.ScaleRate | cpu_monitor.py:91-98 | the loop picks a unit among the five and a scaled value that times 1024^unit is the clamped rate; the value is below 1024 unless the unit is TB/s, and at least 1 unless the unit is B/s; rates below 1024 stay in B/s unchanged |
| Presentation.Pow1024Monotonic | cpu_monitor.py:93 | a later unit is never smaller than an earlier one |
| Presentation.ScalingBounds | cpu_monitor.py:95-98 | unit u is chosen only for values in [1024^u, 1024^(u+1)), open above for TB/s |
| Presentation.ScalingUnique | cpu_monitor.py:95-98 | the unit and the scaled value are determined by the rate |
| Presentation.ScaleFiveHundred | cpu_monitor.py:95-97 | 500 B/s is shown as 500 B/s |
| Presentation.ScaleTwoKilobytes | cpu_monitor.py:95-98 | 2048 B/s is shown as 2 KB/s |
| Presentation.ScaleOneAndAHalfKilobytes | cpu_monitor.py:95-98 | 1536 B/s is shown as 1.5 KB/s |
| Presentation.ScaleNegative | cpu_monitor.py:94 | a negative rate is shown as 0 B/s |
| Presentation.ScaleHugeStaysTerabytes | cpu_monitor.py:96 | rates of 1024^4 B/s and above stay in TB/s with a value of at least 1 |
| Ping.AsPair | cpu_monitor.py:113-134 | `run_ping` returns exactly one of an average and an error |
| Ping.StatsLineIndex | cpu_monitor.py:119-123 | the summary line found is the first line mentioning `rtt` or `round-trip` |
| Ping.ExitMessage | cpu_monitor.py:116 | the error for a non-zero exit is never empty |
| Ping.SlashField | cpu_monitor.py:129-130 | a second `/`-separated field exists only when the token holds a `/`, and holds none itself |
| Ping.AverageField | cpu_monitor.py:128-130 | an average field is found only in a line with `=`, and holds no `/` |
| Ping.Classify | cpu_monitor.py:112-134 | an exception is reported by its text; a finished process never gets an empty error; an average comes only from a zero exit with a summary line, and is `float()` of that line's average field |
| Ping.RunPing | cpu_monitor.py:103-134 | from the finished process the method returns exactly one of an average and an error, namely the outcome `Classify` defines |
| Ping.RaisedReportsException | cpu_monitor.py:112-113 | an exception is reported by its own text |
| Ping.NonZeroExit | cpu_monitor.py:115-117 | a non-zero exit reports the stripped stderr when it has any non-whitespace, and otherwise "ping exited with" and the code, whatever stdout holds |
| Ping.UnreachableExample | cpu_monitor.py:115-117 | exit code 2 with stderr "Network unreachable\n" reports "Network unreachable" |
| Ping.MessagesDiffer | cpu_monitor.py:125-132 | the two parse errors are different messages |
| Ping.NoStatsLine | cpu_monitor.py:119-125 | a run that exits with 0 is "unable to parse ping output" exactly when no output line mentions `rtt` or `round-trip`, whatever stderr holds |
| Ping.AverageReported | cpu_monitor.py:127-134 | a run that exits with 0 reports an average exactly when its summary line has an average field that `float()` accepts, and the average is `float()` of that field |
| Ping.InvalidAverageReported | cpu_monitor.py:127-132 | a run that exits with 0 is "invalid ping average" exactly when it has a summary line whose average field is missing or not a number |
| Ping.NothingAfterEquals | cpu_monitor.py:128 | a summary line with only whitespace after its `=` yields no average token |
| Ping.SlashFieldOf | cpu_monitor.py:129-130 | the token `x/y/z` yields field `y` |
| Ping.TokenAfterEquals | cpu_monitor.py:128 | the token read is the first word after the only `=` |
| Ping.AverageOfSummary | cpu_monitor.py:127-130 | a summary line `a = x/y/z rest` yields `y`, the average field |
| Ping.LinuxTokenExample | cpu_monitor.py:129-130 | `10.1/12.5/15.0/1.2` yields `12.5` |
| Ping.LinuxSummaryExample | cpu_monitor.py:127-130 | the Linux summary `rtt min/avg/max/mdev = 10.1/12.5/15.0/1.2 ms` yields `12.5` |
| Monitor.Fahrenheit | cpu_monitor.py:164 | F − 32 is 9/5 of C |
| Monitor.FahrenheitIncreasing | cpu_monitor.py:164 | a higher Celsius reading is a higher Fahrenheit reading |
| Monitor.TemperatureExample | cpu_monitor.py:36 | 45000 millidegrees is 45 °C and 113 °F |
| Monitor.CpuUsage | cpu_monitor.py:160 | usage is 0 when no ticks elapsed, and otherwise the non-idle share of the elapsed ticks in percent |
| Monitor.UsageIsPercentage | cpu_monitor.py:157-160 | when idle ticks are part of the elapsed ticks the usage lies in [0,100] |
| Monitor.UsageFallsWithIdle | cpu_monitor.py:160 | more idle ticks never show a higher usage |
| Monitor.UsageExample | cpu_monitor.py:157-160 | 100 idle ticks out of 200 is 50 percent |
| Monitor.CounterDelta | cpu_monitor.py:170-171 | the delta is non-negative, at least the difference, the difference itself when the counter did not go back, and 0 when it went back |
| Monitor.ByteRate | cpu_monitor.py:168-173 | the rate is non-negative; over a positive interval, rate × elapsed is the delta; otherwise it is 0 |
| Monitor.CounterResetRate | cpu_monitor.py:170-173 | a counter that went back shows a rate of 0 |
| Monitor.DownloadRateExample | cpu_monitor.py:170-172 | 102400 bytes received in one second show as 100 KB/s |
| Monitor.UploadRateExample | cpu_monitor.py:171-173 | 51200 bytes sent in one second show as 50 KB/s |
| Monitor.Status | cpu_monitor.py:187-207 | the error is shown exactly when there is a non-empty one; otherwise the average when there is one; otherwise pending |
| Monitor.StatusOfOutcome | cpu_monitor.py:187-207 | an average shows as itself and a non-empty error as itself, but an empty exception text shows as pending |
| Monitor.Monitor.constructor | cpu_monitor.py:141-147 | the first snapshot is stored, no ping result exists yet, and the first ping is due `delay` seconds after the start |
| Monitor.Monitor.Tick | cpu_monitor.py:153-207 | the fresh readings become the snapshot; usage, temperatures, rates, colours and scaled rates are computed against the previous snapshot; when the ping is due its result is stored and the next one is due 10 to 40 seconds later, otherwise the ping state is unchanged; the status shown follows the stored result, which is never both an average and an error |

## Left out

- File access. The readers take the text (CPU statistics, thermal zone) or the lines (network statistics) of the kernel files. An `open()` failure is not modelled.
- `int()` and `float()` are the parameters `parseInt` and `parseFloat`. Which strings they accept, and how they round, is not modelled.
- Floating point. Every rate, usage and temperature is an exact `real`. Rounding, division by a zero float and NaN are not modelled. `CpuUsage` takes integer tick deltas, as the source does.
- Running the ping process. `subprocess.run`, its 15-second timeout and the command line are left out. The finished process, or the exception it raised as its `str()`, is the parameter `exec` of `Tick` and `RunPing`. The process is run synchronously in the source, so an iteration that pings waits for it.
- The clock, the sleep and the random delay. `time.monotonic()` is the parameter `now` of `Tick`. `time.sleep(1)` is left out. `random.uniform(10.0, 40.0)` is the parameter `delay`, required to lie in that range.
- The main loop. `Monitor.Monitor.Tick` is one iteration: `while True`, `KeyboardInterrupt` and the exit are left out.
- Readers.ReadNetworkBytes parses the lines into their contributions before its loop adds them up, where the source parses each line inside the loop. The result, including the error of the first malformed line, is the same, because parsing a line has no effect besides its value.
- `Monitor.Monitor.Tick` takes readings that have already succeeded. A read error escapes `main` and ends the program; that path is not modelled.
- Terminal and log output. The ANSI codes are the `Color` values. The `%7.2f`, `.2f` and `.1f` formatting is left out, as are the screen clearing, the log line layout and the `logging` set-up. `Report` holds the values those lines show.
- `Monitor.Monitor.Tick`: the last ping result is modelled as the pair `(avg, error)`. Status texts such as "Pending..." and "ERROR - ..." are the `PingStatus` cases.
- Python strings are sequences of characters. `IsSpace` lists the characters `str.isspace` accepts; Unicode properties beyond that list are not modelled. `readline()` is `FirstLine` and recognises "\n" and "\r" as terminators.
- The ping error messages are exactly those of the code: "unable to parse ping output" (cpu_monitor.py:125) and "invalid ping average" (cpu_monitor.py:132). An exception with empty text shows as pending, because an empty error string is false in Python (cpu_monitor.py:187, 202).
