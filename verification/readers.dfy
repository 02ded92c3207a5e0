/**
 * The metric readers of the monitor, applied to the text of the kernel files
 * instead of the files themselves: the first line of the CPU statistics file,
 * the thermal zone's millidegree reading and the lines of the per-interface
 * network statistics file. Python's `int()` is the parameter `parseInt`, a
 * partial conversion (`None` where `int()` raises ValueError).
 */
module Readers {
  import opened Wrappers
  import opened Text

  /** Why a reading is malformed; each stands for the exception the source lets escape. */
  datatype ReadError =
    | NotAnInteger(token: string)   // ValueError from int()
    | MissingField(index: nat)      // IndexError on the field list
    | MissingColon(line: string)    // ValueError unpacking line.split(":", 1)

  // ================================================================ CPU times

  /** Aggregate CPU ticks: `idle` is idle + iowait, `total` the sum of every field. */
  datatype CpuTimes = CpuTimes(idle: int, total: int)

  /** What `readline()` yields, without its terminator (universal newlines: "\n" or "\r"). */
  function FirstLine(text: string): (line: string)
    ensures line <= text
    ensures '\n' !in line && '\r' !in line
    ensures |line| < |text| ==> text[|line|] == '\n' || text[|line|] == '\r'
  {
    IndexOfSpec(text, '\n');
    IndexOfSpec(text, '\r');
    var n := IndexOf(text, '\n');
    var r := IndexOf(text, '\r');
    text[..if n < r then n else r]
  }

  /** The numeric tokens of the first line: `readline().split()[1:]`, the label dropped. */
  function StatFields(stat: string): seq<string>
  {
    var words := Words(FirstLine(stat));
    if |words| >= 1 then words[1..] else []
  }

  /** Index `i` is the first token that `parseInt` rejects. */
  ghost predicate FirstUnparsable(tokens: seq<string>, parseInt: string -> Option<int>, i: nat)
  {
    i < |tokens| && parseInt(tokens[i]).None?
    && forall j :: 0 <= j < i ==> parseInt(tokens[j]).Some?
  }

  /** `list(map(int, tokens))`: every token converted, or the first token that does not convert. */
  function ParseInts(tokens: seq<string>, parseInt: string -> Option<int>): (r: Result<seq<int>, string>)
    ensures r.Ok? <==> forall i :: 0 <= i < |tokens| ==> parseInt(tokens[i]).Some?
    ensures r.Ok? ==> (|r.value| == |tokens|
      && forall i :: 0 <= i < |tokens| ==> parseInt(tokens[i]) == Some(r.value[i]))
    ensures r.Err? ==> exists i: nat :: FirstUnparsable(tokens, parseInt, i) && tokens[i] == r.error
  {
    if tokens == [] then Ok([])
    else
      match parseInt(tokens[0])
      case None => assert FirstUnparsable(tokens, parseInt, 0); Err(tokens[0])
      case Some(v) =>
        var rest := ParseInts(tokens[1..], parseInt);
        match rest
        case Err(t) =>
          assert exists i: nat :: FirstUnparsable(tokens, parseInt, i) && tokens[i] == t by {
            var i: nat :| FirstUnparsable(tokens[1..], parseInt, i) && tokens[1..][i] == t;
            assert FirstUnparsable(tokens, parseInt, i + 1);
          }
          Err(t)
        case Ok(vs) =>
          assert forall i :: 1 <= i < |tokens| ==> tokens[i] == tokens[1..][i - 1];
          Ok([v] + vs)
  }

  /** Python's `sum()` over integers. */
  function Sum(xs: seq<int>): int
  {
    if xs == [] then 0 else xs[0] + Sum(xs[1..])
  }

  /** Two distinct entries of a list of non-negative integers never exceed its sum. */
  lemma {:induction false} SumAtLeastPair(xs: seq<int>, i: nat, j: nat)
    requires i < |xs| && j < |xs| && i != j
    requires forall k :: 0 <= k < |xs| ==> xs[k] >= 0
    ensures xs[i] + xs[j] <= Sum(xs)
  {
    if i == 0 {
      SumAtLeastOne(xs[1..], j - 1);
    } else if j == 0 {
      SumAtLeastOne(xs[1..], i - 1);
    } else {
      SumAtLeastPair(xs[1..], i - 1, j - 1);
    }
  }

  /** One entry of a list of non-negative integers never exceeds its sum. */
  lemma {:induction false} SumAtLeastOne(xs: seq<int>, i: nat)
    requires i < |xs|
    requires forall k :: 0 <= k < |xs| ==> xs[k] >= 0
    ensures xs[i] <= Sum(xs)
    ensures Sum(xs) >= 0
  {
    if i == 0 {
      if |xs| > 1 { SumAtLeastOne(xs[1..], 0); }
    } else {
      SumAtLeastOne(xs[1..], i - 1);
    }
  }

  /**
   * `read_cpu_times` on the text of the statistics file: idle is the sum of
   * the 4th and 5th numbers after the label, total the sum of all of them;
   * a token that is not an integer, or fewer than five numbers, is an error.
   */
  function ReadCpuTimes(stat: string, parseInt: string -> Option<int>): (r: Result<CpuTimes, ReadError>)
    ensures var f := StatFields(stat);
      r.Ok? <==> |f| >= 5 && forall i :: 0 <= i < |f| ==> parseInt(f[i]).Some?
    ensures var f := StatFields(stat);
      r.Ok? ==> r.value.idle == parseInt(f[3]).value + parseInt(f[4]).value
    ensures r.Ok? ==> r.value.total == Sum(ParseInts(StatFields(stat), parseInt).value)
    ensures r.Err? && r.error.NotAnInteger? ==>
      exists i: nat :: FirstUnparsable(StatFields(stat), parseInt, i) && StatFields(stat)[i] == r.error.token
    ensures r.Err? && r.error.MissingField? ==>
      |StatFields(stat)| < 5 && r.error.index == if |StatFields(stat)| < 4 then 3 else 4
    ensures r.Err? ==> r.error.NotAnInteger? || r.error.MissingField?
    ensures var f := StatFields(stat);
      r.Err? && r.error.MissingField? ==> forall i :: 0 <= i < |f| ==> parseInt(f[i]).Some?
  {
    match ParseInts(StatFields(stat), parseInt)
    case Err(t) => Err(NotAnInteger(t))
    case Ok(times) =>
      if |times| < 4 then Err(MissingField(3))
      else if |times| < 5 then Err(MissingField(4))
      else Ok(CpuTimes(times[3] + times[4], Sum(times)))
  }

  /** With non-negative tick counters (as the kernel reports them), idle never exceeds total. */
  lemma IdleAtMostTotal(stat: string, parseInt: string -> Option<int>)
    requires ReadCpuTimes(stat, parseInt).Ok?
    requires forall t :: t in StatFields(stat) ==> parseInt(t).Some? && parseInt(t).value >= 0
    ensures 0 <= ReadCpuTimes(stat, parseInt).value.idle <= ReadCpuTimes(stat, parseInt).value.total
  {
    var f := StatFields(stat);
    var times := ParseInts(f, parseInt).value;
    forall k | 0 <= k < |times| ensures times[k] >= 0 { assert f[k] in f; }
    SumAtLeastPair(times, 3, 4);
  }

  // ================================================================ temperature

  /** Degrees Celsius from the thermal zone's millidegrees. */
  function Celsius(millideg: int): (c: real)
    ensures c * 1000.0 == millideg as real
  {
    millideg as real / 1000.0
  }

  /**
   * `get_cpu_temp` on the thermal zone's text: the stripped text read as an
   * integer number of millidegrees, in degrees Celsius; text that is not an
   * integer is an error.
   */
  function ReadCpuTemp(text: string, parseInt: string -> Option<int>): (r: Result<real, ReadError>)
    ensures r.Ok? <==> parseInt(Strip(text)).Some?
    ensures r.Ok? ==> r.value * 1000.0 == parseInt(Strip(text)).value as real
    ensures r.Err? ==> r.error == NotAnInteger(Strip(text))
  {
    match parseInt(Strip(text))
    case None => Err(NotAnInteger(Strip(text)))
    case Some(millideg) => Ok(Celsius(millideg))
  }

  // ================================================================ network bytes

  /** Received and transmitted byte counts summed over the counted interfaces. */
  datatype NetBytes = NetBytes(rx: int, tx: int)

  /** What one interface line adds to the totals. */
  datatype LineContribution = Loopback | Counted(rx: int, tx: int) | Malformed(error: ReadError)

  /** The whitespace-separated counters after the first colon of an interface line. */
  function DevFields(line: string): seq<string>
    requires ':' in line
  {
    SplitOnceSpec(line, ':');
    Words(SplitOnce(line, ':').value.1)
  }

  /** The interface name of a line, surrounding whitespace removed. */
  function DevName(line: string): string
    requires ':' in line
  {
    SplitOnceSpec(line, ':');
    Strip(SplitOnce(line, ':').value.0)
  }

  /**
   * The counters part of an interface line: field 0 (rx) and field 8 (tx),
   * failing on the first missing or non-integer field in the order Python
   * evaluates them.
   */
  function ParseCounters(fields: seq<string>, parseInt: string -> Option<int>): (c: LineContribution)
    ensures !c.Loopback?
    ensures c.Counted? <==> (|fields| >= 9 && parseInt(fields[0]).Some? && parseInt(fields[8]).Some?)
    ensures c.Counted? ==> (Some(c.rx) == parseInt(fields[0]) && Some(c.tx) == parseInt(fields[8]))
  {
    if |fields| < 1 then Malformed(MissingField(0))
    else
      match parseInt(fields[0])
      case None => Malformed(NotAnInteger(fields[0]))
      case Some(rx) =>
        if |fields| < 9 then Malformed(MissingField(8))
        else
          match parseInt(fields[8])
          case None => Malformed(NotAnInteger(fields[8]))
          case Some(tx) => Counted(rx, tx)
  }

  /**
   * One iteration of the loop of `read_network_bytes`, as the contribution of
   * that line: a line without a colon is an error, `lo` is skipped whatever
   * follows its colon, and any other line is counted exactly when its fields
   * 0 and 8 are integers, which are then its rx and tx bytes.
   */
  function ParseDevLine(line: string, parseInt: string -> Option<int>): (c: LineContribution)
    ensures ':' !in line <==> c == Malformed(MissingColon(line))
    ensures c.Loopback? <==> ':' in line && DevName(line) == "lo"
    ensures c.Counted? <==>
      (':' in line && DevName(line) != "lo" && |DevFields(line)| >= 9
       && parseInt(DevFields(line)[0]).Some? && parseInt(DevFields(line)[8]).Some?)
    ensures c.Counted? ==>
      Some(c.rx) == parseInt(DevFields(line)[0]) && Some(c.tx) == parseInt(DevFields(line)[8])
  {
    SplitOnceSpec(line, ':');
    match SplitOnce(line, ':')
    case None => Malformed(MissingColon(line))
    case Some((iface, data)) =>
      if Strip(iface) == "lo" then Loopback else ParseCounters(Words(data), parseInt)
  }

  /** What each interface line contributes, line by line. */
  function Contributions(lines: seq<string>, parseInt: string -> Option<int>): (cs: seq<LineContribution>)
    ensures |cs| == |lines|
    decreases |lines|
  {
    if lines == [] then [] else [ParseDevLine(lines[0], parseInt)] + Contributions(lines[1..], parseInt)
  }

  /** Each line contributes at its own position. */
  lemma {:induction false} ContributionAt(lines: seq<string>, parseInt: string -> Option<int>, j: nat)
    requires j < |lines|
    ensures Contributions(lines, parseInt)[j] == ParseDevLine(lines[j], parseInt)
    decreases j
  {
    if j > 0 {
      ContributionAt(lines[1..], parseInt, j - 1);
    }
  }

  /**
   * The totals the source's loop reaches from the running totals `acc` over
   * the contributions of the remaining lines, left to right; the first
   * malformed line ends the reading with its error.
   */
  function Accumulate(acc: NetBytes, cs: seq<LineContribution>): Result<NetBytes, ReadError>
    decreases |cs|
  {
    if cs == [] then Ok(acc)
    else
      match cs[0]
      case Loopback => Accumulate(acc, cs[1..])
      case Counted(rx, tx) => Accumulate(NetBytes(acc.rx + rx, acc.tx + tx), cs[1..])
      case Malformed(e) => Err(e)
  }

  /**
   * What `read_network_bytes` returns for the lines of the statistics file
   * (two header lines skipped); it fails exactly when a line after the
   * headers is malformed.
   */
  function NetDevTotals(lines: seq<string>, parseInt: string -> Option<int>): (r: Result<NetBytes, ReadError>)
    ensures r.Err? ==> exists j :: 2 <= j < |lines| && ParseDevLine(lines[j], parseInt).Malformed?
    ensures (exists j :: 2 <= j < |lines| && ParseDevLine(lines[j], parseInt).Malformed?) ==> r.Err?
  {
    var cs := Contributions(if |lines| >= 2 then lines[2..] else [], parseInt);
    AccumulateFails(NetBytes(0, 0), cs);
    MalformedAfterHeaders(lines, parseInt);
    Accumulate(NetBytes(0, 0), cs)
  }

  /** The contributions after the headers hold a malformed one exactly when a line after the headers is malformed. */
  lemma MalformedAfterHeaders(lines: seq<string>, parseInt: string -> Option<int>)
    ensures var cs := Contributions(if |lines| >= 2 then lines[2..] else [], parseInt);
      (exists j :: 0 <= j < |cs| && cs[j].Malformed?) ==>
        exists j :: 2 <= j < |lines| && ParseDevLine(lines[j], parseInt).Malformed?
    ensures var cs := Contributions(if |lines| >= 2 then lines[2..] else [], parseInt);
      (exists j :: 2 <= j < |lines| && ParseDevLine(lines[j], parseInt).Malformed?) ==>
        exists j :: 0 <= j < |cs| && cs[j].Malformed?
  {
    var body := if |lines| >= 2 then lines[2..] else [];
    var cs := Contributions(body, parseInt);
    if exists j :: 0 <= j < |cs| && cs[j].Malformed? {
      var j :| 0 <= j < |cs| && cs[j].Malformed?;
      ContributionAt(body, parseInt, j);
      assert ParseDevLine(lines[j + 2], parseInt).Malformed?;
    }
    if exists j :: 2 <= j < |lines| && ParseDevLine(lines[j], parseInt).Malformed? {
      var j :| 2 <= j < |lines| && ParseDevLine(lines[j], parseInt).Malformed?;
      ContributionAt(body, parseInt, j - 2);
      assert cs[j - 2].Malformed?;
    }
  }

  /** A reading fails exactly when one of its lines is malformed. */
  lemma {:induction false} AccumulateFails(acc: NetBytes, cs: seq<LineContribution>)
    ensures Accumulate(acc, cs).Err? <==> exists j :: 0 <= j < |cs| && cs[j].Malformed?
    decreases |cs|
  {
    if cs != [] {
      match cs[0]
      case Loopback =>
        AccumulateFails(acc, cs[1..]);
        assert forall j :: 1 <= j < |cs| ==> cs[j] == cs[1..][j - 1];
      case Counted(rx, tx) =>
        AccumulateFails(NetBytes(acc.rx + rx, acc.tx + tx), cs[1..]);
        assert forall j :: 1 <= j < |cs| ==> cs[j] == cs[1..][j - 1];
      case Malformed(e) =>
    }
  }

  /** Continues a reading that has got through one block of lines with the next block. */
  function Then(r: Result<NetBytes, ReadError>, rest: seq<LineContribution>): Result<NetBytes, ReadError>
  {
    match r
    case Err(e) => Err(e)
    case Ok(t) => Accumulate(t, rest)
  }

  /** The fold at position `i`: a skipped line, a counted line, or the error that ends it. */
  lemma AccumulateAt(acc: NetBytes, cs: seq<LineContribution>, i: nat)
    requires i < |cs|
    ensures cs[i].Loopback? ==> Accumulate(acc, cs[i..]) == Accumulate(acc, cs[i + 1..])
    ensures cs[i].Counted? ==>
      Accumulate(acc, cs[i..]) == Accumulate(NetBytes(acc.rx + cs[i].rx, acc.tx + cs[i].tx), cs[i + 1..])
    ensures cs[i].Malformed? ==> Accumulate(acc, cs[i..]) == Err(cs[i].error)
  {
    var rest := cs[i..];
    assert rest[0] == cs[i];
    assert rest[1..] == cs[i + 1..];
  }

  /** Reading two consecutive blocks of lines is reading the first, then the second. */
  lemma {:induction false} AccumulateAppend(acc: NetBytes, a: seq<LineContribution>, b: seq<LineContribution>)
    ensures Accumulate(acc, a + b) == Then(Accumulate(acc, a), b)
    decreases |a|
  {
    if a == [] {
      assert a + b == b;
    } else {
      assert (a + b)[0] == a[0];
      assert (a + b)[1..] == a[1..] + b;
      match a[0]
      case Loopback => AccumulateAppend(acc, a[1..], b);
      case Counted(rx, tx) => AccumulateAppend(NetBytes(acc.rx + rx, acc.tx + tx), a[1..], b);
      case Malformed(e) =>
    }
  }

  /** Starting from other running totals shifts a successful result by exactly those totals. */
  lemma {:induction false} AccumulateShift(acc: NetBytes, cs: seq<LineContribution>)
    ensures Accumulate(acc, cs).Ok? == Accumulate(NetBytes(0, 0), cs).Ok?
    ensures Accumulate(acc, cs).Ok? ==>
      Accumulate(acc, cs).value.rx == acc.rx + Accumulate(NetBytes(0, 0), cs).value.rx
      && Accumulate(acc, cs).value.tx == acc.tx + Accumulate(NetBytes(0, 0), cs).value.tx
    decreases |cs|
  {
    if cs != [] {
      match cs[0]
      case Loopback =>
        AccumulateShift(acc, cs[1..]);
      case Counted(rx, tx) =>
        AccumulateShift(NetBytes(acc.rx + rx, acc.tx + tx), cs[1..]);
        AccumulateShift(NetBytes(rx, tx), cs[1..]);
      case Malformed(e) =>
    }
  }

  /** The contributions of two blocks of lines are those of each block, in order. */
  lemma {:induction false} ContributionsAppend(a: seq<string>, b: seq<string>, parseInt: string -> Option<int>)
    ensures Contributions(a + b, parseInt) == Contributions(a, parseInt) + Contributions(b, parseInt)
    decreases |a|
  {
    if a == [] {
      assert a + b == b;
    } else {
      assert (a + b)[0] == a[0] && (a + b)[1..] == a[1..] + b;
      ContributionsAppend(a[1..], b, parseInt);
    }
  }

  /** A line between two blocks contributes in its place. */
  lemma ContributionsSplice(a: seq<string>, l: string, b: seq<string>, parseInt: string -> Option<int>)
    ensures Contributions(a + [l] + b, parseInt)
         == Contributions(a, parseInt) + [ParseDevLine(l, parseInt)] + Contributions(b, parseInt)
  {
    ContributionsAppend(a + [l], b, parseInt);
    ContributionsAppend(a, [l], parseInt);
    assert Contributions([l], parseInt) == [ParseDevLine(l, parseInt)];
  }

  /** A skipped line leaves the fold as it is, wherever it stands. */
  lemma AccumulateSkipsLoopback(acc: NetBytes, ca: seq<LineContribution>, cb: seq<LineContribution>)
    ensures Accumulate(acc, ca + [Loopback] + cb) == Accumulate(acc, ca + cb)
  {
    assert ca + [Loopback] + cb == ca + ([Loopback] + cb);
    AccumulateAppend(acc, ca, [Loopback] + cb);
    AccumulateAppend(acc, ca, cb);
    assert ([Loopback] + cb)[1..] == cb;
  }

  /** A malformed line ends the fold with an error, whatever comes before or after it. */
  lemma AccumulateStopsAt(acc: NetBytes, ca: seq<LineContribution>, e: ReadError, cb: seq<LineContribution>)
    ensures Accumulate(acc, ca + [Malformed(e)] + cb).Err?
  {
    assert ca + [Malformed(e)] + cb == ca + ([Malformed(e)] + cb);
    AccumulateAppend(acc, ca, [Malformed(e)] + cb);
  }

  /** A counted line at the end adds its bytes to a successful fold. */
  lemma AccumulateAddsLast(acc: NetBytes, ca: seq<LineContribution>, before: NetBytes, rx: int, tx: int)
    requires Accumulate(acc, ca) == Ok(before)
    ensures Accumulate(acc, ca + [Counted(rx, tx)]) == Ok(NetBytes(before.rx + rx, before.tx + tx))
  {
    var last := [Counted(rx, tx)];
    AccumulateAppend(acc, ca, last);
    assert last[0] == Counted(rx, tx) && last[1..] == [];
    assert Accumulate(before, last) == Accumulate(NetBytes(before.rx + rx, before.tx + tx), []);
  }

  /** The loopback interface contributes nothing, wherever its line stands. */
  lemma LoopbackIgnored(a: seq<string>, l: string, b: seq<string>, parseInt: string -> Option<int>)
    requires ':' in l && DevName(l) == "lo"
    ensures Accumulate(NetBytes(0, 0), Contributions(a + [l] + b, parseInt))
         == Accumulate(NetBytes(0, 0), Contributions(a + b, parseInt))
  {
    ContributionsSplice(a, l, b, parseInt);
    ContributionsAppend(a, b, parseInt);
    AccumulateSkipsLoopback(NetBytes(0, 0), Contributions(a, parseInt), Contributions(b, parseInt));
  }

  /** A line without a colon or without valid rx/tx fields makes the whole reading fail. */
  lemma MalformedLineFails(a: seq<string>, l: string, b: seq<string>, parseInt: string -> Option<int>)
    requires ParseDevLine(l, parseInt).Malformed?
    ensures Accumulate(NetBytes(0, 0), Contributions(a + [l] + b, parseInt)).Err?
  {
    ContributionsSplice(a, l, b, parseInt);
    AccumulateStopsAt(NetBytes(0, 0), Contributions(a, parseInt), ParseDevLine(l, parseInt).error, Contributions(b, parseInt));
  }

  /** A line of another interface with integer fields 0 and 8 adds exactly those to rx and tx. */
  lemma CountedLineAdds(a: seq<string>, l: string, parseInt: string -> Option<int>, before: NetBytes)
    requires Accumulate(NetBytes(0, 0), Contributions(a, parseInt)) == Ok(before)
    requires ':' in l && DevName(l) != "lo" && |DevFields(l)| >= 9
    requires parseInt(DevFields(l)[0]).Some? && parseInt(DevFields(l)[8]).Some?
    ensures Accumulate(NetBytes(0, 0), Contributions(a + [l], parseInt))
      == Ok(NetBytes(before.rx + parseInt(DevFields(l)[0]).value, before.tx + parseInt(DevFields(l)[8]).value))
  {
    var c := ParseDevLine(l, parseInt);
    ContributionsAppend(a, [l], parseInt);
    assert Contributions([l], parseInt) == [c];
    AccumulateAddsLast(NetBytes(0, 0), Contributions(a, parseInt), before, c.rx, c.tx);
  }

  /** The two header lines never contribute, whatever they hold. */
  lemma HeadersIgnored(h0: string, h1: string, lines: seq<string>, parseInt: string -> Option<int>)
    ensures NetDevTotals([h0, h1] + lines, parseInt) == Accumulate(NetBytes(0, 0), Contributions(lines, parseInt))
  {
    assert ([h0, h1] + lines)[2..] == lines;
  }

  /**
   * `read_network_bytes` on the lines of the statistics file: the running
   * totals of the source's loop, returned once every line is read; the first
   * malformed line ends the loop with its error. The lines are parsed before
   * the loop adds up what each contributes.
   */
  method ReadNetworkBytes(lines: seq<string>, parseInt: string -> Option<int>)
    returns (r: Result<NetBytes, ReadError>)
    ensures r == NetDevTotals(lines, parseInt)
  {
    var body := if |lines| >= 2 then lines[2..] else [];
    var cs := Contributions(body, parseInt);
    var totalRx, totalTx := 0, 0;
    var i := 0;
    while i < |body|
      invariant 0 <= i <= |body|
      invariant Accumulate(NetBytes(0, 0), cs) == Accumulate(NetBytes(totalRx, totalTx), cs[i..])
    {
      var c := cs[i];
      AccumulateAt(NetBytes(totalRx, totalTx), cs, i);
      match c {
        case Loopback =>
        case Counted(rx, tx) =>
          totalRx := totalRx + rx;
          totalTx := totalTx + tx;
        case Malformed(e) =>
          return Err(e);
      }
      i := i + 1;
    }
    r := Ok(NetBytes(totalRx, totalTx));
  }
}
