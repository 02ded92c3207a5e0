/**
 * The classification half of `run_ping`: what a finished `ping -c 3 -n 1.1.1.1`
 * run means, as exactly one of an average round-trip time in milliseconds
 * or an error message. The process itself is not run here: its outcome is a
 * `ProcessResult`, and Python's `float()` is the parameter `parseFloat`, a
 * partial conversion (`None` where `float()` raises ValueError).
 */
module Ping {
  import opened Wrappers
  import opened Text

  /** A finished `subprocess.run`, or the exception it raised (its `str()` kept). */
  datatype ProcessResult =
    | Completed(returncode: int, stdout: string, stderr: string)
    | Raised(message: string)

  /** What one ping run yields: an average in milliseconds, or an error message. */
  datatype PingOutcome = Average(ms: real) | Failure(message: string)

  const UnparsableOutput: string := "unable to parse ping output"
  const InvalidAverage: string := "invalid ping average"

  /** The source's `(avg_ms, error)` pair for an outcome: exactly one side is present. */
  function AsPair(o: PingOutcome): (p: (Option<real>, Option<string>))
    ensures p.0.Some? != p.1.Some?
    ensures o.Average? ==> p.0 == Some(o.ms)
    ensures o.Failure? ==> p.1 == Some(o.message)
  {
    match o
    case Average(ms) => (Some(ms), None)
    case Failure(msg) => (None, Some(msg))
  }

  /** The summary line: it mentions `rtt` (Linux) or `round-trip` (BSD). */
  predicate IsStatsLine(line: string)
  {
    Contains(line, "rtt") || Contains(line, "round-trip")
  }

  /** Index of the first summary line, or `|lines|` when there is none. */
  function StatsLineIndex(lines: seq<string>): (i: nat)
    ensures i <= |lines|
    ensures i < |lines| ==> IsStatsLine(lines[i])
    ensures forall j :: 0 <= j < i ==> !IsStatsLine(lines[j])
  {
    if lines == [] then 0
    else if IsStatsLine(lines[0]) then 0
    else 1 + StatsLineIndex(lines[1..])
  }

  /** The error reported for a non-zero exit: the stripped stderr, or a message naming the code. */
  function ExitMessage(returncode: int, stderr: string): (m: string)
    ensures m != []
  {
    if Strip(stderr) != [] then Strip(stderr) else "ping exited with " + IntToString(returncode)
  }

  /** `token.split("/")[1]`, or `None` where the indexing raises IndexError. */
  function SlashField(token: string): (r: Option<string>)
    ensures r.Some? ==> '/' in token && '/' !in r.value
  {
    var fields := Split(token, '/');
    SplitHasSecond(token, '/');
    SplitSpec(token, '/');
    if |fields| < 2 then None else Some(fields[1])
  }

  /**
   * `line.split("=")[1].strip().split()[0].split("/")[1]`, or `None` where
   * one of the three indexings raises IndexError.
   */
  function AverageField(line: string): (r: Option<string>)
    ensures r.Some? ==> '=' in line && '/' !in r.value
  {
    var parts := Split(line, '=');
    SplitHasSecond(line, '=');
    if |parts| < 2 then None
    else
      var words := Words(Strip(parts[1]));
      if |words| < 1 then None else SlashField(words[0])
  }

  /** What `run_ping` returns for a process outcome, as a single outcome value. */
  function Classify(exec: ProcessResult, parseFloat: string -> Option<real>): (o: PingOutcome)
    ensures exec.Raised? ==> o == Failure(exec.message)
    ensures exec.Completed? && o.Failure? ==> o.message != []
    ensures o.Average? ==>
      exec.Completed? && exec.returncode == 0
      && (var lines := SplitLines(exec.stdout);
          var i := StatsLineIndex(lines);
          i < |lines| && AverageField(lines[i]).Some?
          && parseFloat(AverageField(lines[i]).value) == Some(o.ms))
  {
    match exec
    case Raised(msg) => Failure(msg)
    case Completed(rc, out, err) =>
      if rc != 0 then Failure(ExitMessage(rc, err))
      else
        var lines := SplitLines(out);
        var i := StatsLineIndex(lines);
        if i == |lines| then Failure(UnparsableOutput)
        else
          match AverageField(lines[i])
          case None => Failure(InvalidAverage)
          case Some(token) =>
            match parseFloat(token)
            case None => Failure(InvalidAverage)
            case Some(ms) => Average(ms)
  }

  /**
   * `run_ping` from the moment the process has finished: the early returns
   * for an exception and a non-zero exit, the search for the summary line,
   * and the extraction of the average.
   */
  method RunPing(exec: ProcessResult, parseFloat: string -> Option<real>)
    returns (avg: Option<real>, error: Option<string>)
    ensures avg.Some? != error.Some?
    ensures (avg, error) == AsPair(Classify(exec, parseFloat))
  {
    match exec {
      case Raised(msg) =>
        return None, Some(msg);
      case Completed(rc, out, err) =>
        if rc != 0 {
          return None, Some(ExitMessage(rc, err));
        }
        var lines := SplitLines(out);
        var statsLine: Option<string> := None;
        var i := 0;
        while i < |lines|
          invariant 0 <= i <= |lines|
          invariant statsLine.None?
          invariant forall j :: 0 <= j < i ==> !IsStatsLine(lines[j])
        {
          if IsStatsLine(lines[i]) {
            statsLine := Some(lines[i]);
            break;
          }
          i := i + 1;
        }
        if statsLine.None? || statsLine.value == [] {
          return None, Some(UnparsableOutput);
        }
        assert i == StatsLineIndex(lines);
        match AverageField(statsLine.value) {
          case None =>
            return None, Some(InvalidAverage);
          case Some(token) =>
            match parseFloat(token) {
              case None =>
                return None, Some(InvalidAverage);
              case Some(ms) =>
                return Some(ms), None;
            }
        }
    }
  }

  // ================================================================ properties

  /** The two parse failures are told apart by their messages. */
  lemma MessagesDiffer()
    ensures UnparsableOutput != InvalidAverage
  {
    assert UnparsableOutput[0] != InvalidAverage[0];
  }

  /** An exception is reported with its own text. */
  lemma RaisedReportsException(message: string, parseFloat: string -> Option<real>)
    ensures Classify(Raised(message), parseFloat) == Failure(message)
  {
  }

  /**
   * A non-zero exit is an error whatever stdout holds: the stripped stderr
   * when it has any non-whitespace, otherwise "ping exited with " and the
   * decimal exit code.
   */
  lemma NonZeroExit(rc: int, out: string, err: string, parseFloat: string -> Option<real>)
    requires rc != 0
    ensures !AllSpace(err) ==> Classify(Completed(rc, out, err), parseFloat) == Failure(Strip(err))
    ensures AllSpace(err) ==>
      Classify(Completed(rc, out, err), parseFloat) == Failure("ping exited with " + IntToString(rc))
  {
    StripEmpty(err);
  }

  /** A ping that exits with code 2 and stderr "Network unreachable" reports exactly that text. */
  lemma UnreachableExample(out: string, parseFloat: string -> Option<real>)
    ensures Classify(Completed(2, out, "Network unreachable\n"), parseFloat) == Failure("Network unreachable")
  {
    var err := "Network unreachable\n";
    assert StripLeft(err) == err;
    assert err[..|err| - 1] == "Network unreachable";
    assert StripRight(err) == "Network unreachable";
  }

  /** A successful run whose output has no summary line is reported as unparsable, and only such a run. */
  lemma NoStatsLine(out: string, err: string, parseFloat: string -> Option<real>)
    ensures Classify(Completed(0, out, err), parseFloat) == Failure(UnparsableOutput)
      ==> !exists k :: 0 <= k < |SplitLines(out)| && IsStatsLine(SplitLines(out)[k])
    ensures (!exists k :: 0 <= k < |SplitLines(out)| && IsStatsLine(SplitLines(out)[k]))
      ==> Classify(Completed(0, out, err), parseFloat) == Failure(UnparsableOutput)
  {
    MessagesDiffer();
    var lines := SplitLines(out);
    var i := StatsLineIndex(lines);
    if i < |lines| {
      assert IsStatsLine(lines[i]);
    }
  }


  /**
   * A successful run whose summary line has no average field, or an average
   * field that is not a number, is reported as "invalid ping average", and
   * only such a run.
   */
  lemma InvalidAverageReported(out: string, err: string, parseFloat: string -> Option<real>)
    ensures var lines := SplitLines(out);
      var i := StatsLineIndex(lines);
      Classify(Completed(0, out, err), parseFloat) == Failure(InvalidAverage)
      <==> i < |lines| && (AverageField(lines[i]).None? || parseFloat(AverageField(lines[i]).value).None?)
  {
    MessagesDiffer();
  }

  /**
   * A successful run reports an average exactly when its summary line has an
   * average field that `float()` accepts, and the average is that number.
   */
  lemma AverageReported(out: string, err: string, parseFloat: string -> Option<real>)
    ensures var lines := SplitLines(out);
      var i := StatsLineIndex(lines);
      Classify(Completed(0, out, err), parseFloat).Average?
      <==> i < |lines| && AverageField(lines[i]).Some? && parseFloat(AverageField(lines[i]).value).Some?
    ensures var lines := SplitLines(out);
      var i := StatsLineIndex(lines);
      Classify(Completed(0, out, err), parseFloat).Average? ==>
        Some(Classify(Completed(0, out, err), parseFloat).ms) == parseFloat(AverageField(lines[i]).value)
  {
  }

  /** With only whitespace after the `=` there is no average to read. */
  lemma NothingAfterEquals(a: string, b: string)
    requires '=' !in a
    requires AllSpace(b)
    ensures AverageField(a + "=" + b) == None
  {
    assert a + "=" + b == a + ['='] + b;
    SplitAfter(a, b, '=');
    forall i | 0 <= i < |b| ensures b[i] != '=' {
      assert IsSpace(b[i]);
    }
    SplitWithout(b, '=');
    StripEmpty(b);
  }

  /** The second `/`-separated field of `x/y/z` is `y`. */
  lemma SlashFieldOf(x: string, y: string, z: string)
    requires '/' !in x && '/' !in y
    ensures SlashField(x + "/" + y + "/" + z) == Some(y)
  {
    assert x + "/" + y + "/" + z == x + ['/'] + (y + ['/'] + z);
    SplitAfter(x, y + ['/'] + z, '/');
    SplitAfter(y, z, '/');
  }

  /** In a line `a = w rest` with a single `=`, the token read is `w`, the first word after the `=`. */
  lemma TokenAfterEquals(a: string, sp: string, w: string, rest: string)
    requires '=' !in a && '=' !in sp && '=' !in w && '=' !in rest
    requires AllSpace(sp) && w != [] && NoSpace(w)
    requires rest == [] || IsSpace(rest[0])
    ensures AverageField(a + "=" + sp + w + rest) == SlashField(w)
  {
    var b := sp + w + rest;
    assert a + "=" + sp + w + rest == a + ['='] + b;
    SplitAfter(a, b, '=');
    SplitWithout(b, '=');
    FirstWordAfterStrip(sp, w, rest);
  }

  /**
   * The average is the second `/`-separated field of the first token after
   * the `=`: a summary line `a = x/y/z rest` yields `y`.
   */
  lemma AverageOfSummary(a: string, sp: string, x: string, y: string, z: string, rest: string)
    requires '=' !in a && '=' !in sp && '=' !in x && '=' !in y && '=' !in z && '=' !in rest
    requires AllSpace(sp) && NoSpace(x) && NoSpace(y) && NoSpace(z)
    requires rest == [] || IsSpace(rest[0])
    requires '/' !in x && '/' !in y
    ensures AverageField(a + "=" + sp + x + "/" + y + "/" + z + rest) == Some(y)
  {
    var w := x + "/" + y + "/" + z;
    assert NoSpace("/");
    NoSpaceConcat(x, "/");
    NoSpaceConcat(x + "/", y);
    NoSpaceConcat(x + "/" + y, "/");
    NoSpaceConcat(x + "/" + y + "/", z);
    assert '=' !in w;
    TokenAfterEquals(a, sp, w, rest);
    assert a + "=" + sp + x + "/" + y + "/" + z + rest == a + "=" + sp + w + rest;
    SlashFieldOf(x, y, z);
  }

  /** The characters of the pieces of the Linux summary line. */
  lemma LinuxSummaryChars()
    ensures '=' !in "rtt min/avg/max/mdev " && '=' !in " " && '=' !in "10.1/12.5/15.0/1.2" && '=' !in " ms"
    ensures AllSpace(" ") && NoSpace("10.1/12.5/15.0/1.2") && IsSpace(" ms"[0])
    ensures '/' !in "10.1" && '/' !in "12.5"
  {
  }

  /** The token `10.1/12.5/15.0/1.2` (min/avg/max/mdev) has average field "12.5". */
  lemma LinuxTokenExample()
    ensures SlashField("10.1/12.5/15.0/1.2") == Some("12.5")
  {
    SlashFieldOf("10.1", "12.5", "15.0/1.2");
    assert "10.1" + "/" + "12.5" + "/" + "15.0/1.2" == "10.1/12.5/15.0/1.2";
  }

  /**
   * The Linux summary line `rtt min/avg/max/mdev = 10.1/12.5/15.0/1.2 ms`,
   * written as its pieces, yields the average field "12.5".
   */
  lemma LinuxSummaryExample()
    ensures AverageField("rtt min/avg/max/mdev " + "=" + " " + "10.1/12.5/15.0/1.2" + " ms") == Some("12.5")
  {
    LinuxSummaryChars();
    TokenAfterEquals("rtt min/avg/max/mdev ", " ", "10.1/12.5/15.0/1.2", " ms");
    LinuxTokenExample();
  }
}
