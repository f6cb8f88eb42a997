/** The log analyser (analyze_performance.py). It reads the engine's log,
    takes the profit of every line reporting an arbitrage opportunity, keeps
    the running total after each one, and draws that series as a bar chart
    normalised to the range of its values. The file system is a map from
    file names to their lines; Python's float() is a parameter that answers
    None where it raises ValueError. */
module PerfAnalysis {
  import opened Wrappers

  /** The text the profit follows on a reporting line. */
  const MARKER: string := "ARBITRAGE OPPORTUNITY FOUND! Profit: "

  /** The chart's height: the largest bar is one more than this. */
  const HEIGHT: int := 10

  /** The characters of the pattern's [\d.] class. */
  predicate IsNumberChar(c: char) {
    '0' <= c <= '9' || c == '.'
  }

  /** The pattern `marker([\d.]+)` matches at position p: the marker, then
      at least one number character. The script's pattern has MARKER as its
      marker; the matching functions and their lemmas hold for any marker. */
  predicate MatchesAt(marker: string, line: string, p: nat) {
    && p + |marker| < |line|
    && line[p..p + |marker|] == marker
    && IsNumberChar(line[p + |marker|])
  }

  /** The length of the run of number characters starting at `from`. */
  function RunLength(s: string, from: nat): (n: nat)
    requires from <= |s|
    ensures from + n <= |s|
    ensures forall j :: from <= j < from + n ==> IsNumberChar(s[j])
    ensures from + n == |s| || !IsNumberChar(s[from + n])
    decreases |s| - from
  {
    if from == |s| || !IsNumberChar(s[from]) then 0 else 1 + RunLength(s, from + 1)
  }

  /** The leftmost match position at or after `from`, if any. */
  function FirstMatch(marker: string, line: string, from: nat): (p: Option<nat>)
    ensures p.Some? ==> from <= p.value && MatchesAt(marker, line, p.value)
    ensures p.Some? ==> forall q :: from <= q < p.value ==> !MatchesAt(marker, line, q)
    ensures p.None? ==> forall q :: from <= q ==> !MatchesAt(marker, line, q)
    decreases |line| - from
  {
    if from + |marker| >= |line| then None
    else if MatchesAt(marker, line, from) then Some(from)
    else FirstMatch(marker, line, from + 1)
  }

  /** What arb_regex.search(line).group(1) captures: at the leftmost match,
      the whole run of number characters after the marker (the class is
      greedy). None when the line does not match. */
  function Search(marker: string, line: string): (r: Option<string>)
    ensures r.Some? <==> FirstMatch(marker, line, 0).Some?
    ensures r.Some? ==>
      var start := FirstMatch(marker, line, 0).value + |marker|;
      && r.value != []
      && start + |r.value| <= |line|
      && r.value == line[start..start + |r.value|]
      && (forall j :: 0 <= j < |r.value| ==> IsNumberChar(r.value[j]))
      && (start + |r.value| == |line| || !IsNumberChar(line[start + |r.value|]))
  {
    match FirstMatch(marker, line, 0)
    case None => None
    case Some(p) =>
      var start := p + |marker|;
      TokenOfRun(line, start);
      Some(line[start..start + RunLength(line, start)])
  }

  /** The run of number characters at a number character is a nonempty,
      maximal token. */
  lemma TokenOfRun(s: string, start: nat)
    requires start < |s| && IsNumberChar(s[start])
    ensures var t := s[start..start + RunLength(s, start)];
      && t != []
      && start + |t| <= |s|
      && (forall j :: 0 <= j < |t| ==> IsNumberChar(t[j]))
      && (start + |t| == |s| || !IsNumberChar(s[start + |t|]))
  {
    var n := RunLength(s, start);
    var t := s[start..start + n];
    assert forall j :: 0 <= j < |t| ==> t[j] == s[start + j];
  }

  /** A line yields a profit token exactly when the pattern matches
      somewhere in it, and the token comes from a match no other match
      precedes. */
  lemma SearchFindsLeftmostMatch(marker: string, line: string)
    ensures Search(marker, line).Some? <==> exists p: nat :: MatchesAt(marker, line, p)
    ensures Search(marker, line).Some? ==>
      var p := FirstMatch(marker, line, 0).value;
      MatchesAt(marker, line, p) && forall q: nat :: q < p ==> !MatchesAt(marker, line, q)
  {
    var m := FirstMatch(marker, line, 0);
    if m.Some? {
      assert MatchesAt(marker, line, m.value);
    }
  }

  /** The profits of the reporting lines, in file order, or None when float()
      rejects one of them (the first rejection aborts the whole run). */
  function Profits(marker: string, lines: seq<string>, toFloat: string -> Option<real>): Option<seq<real>> {
    if lines == [] then Some([])
    else
      match Profits(marker, lines[..|lines| - 1], toFloat)
      case None => None
      case Some(ps) =>
        match Search(marker, lines[|lines| - 1])
        case None => Some(ps)
        case Some(token) =>
          match toFloat(token)
          case None => None
          case Some(v) => Some(ps + [v])
  }

  /** The token of the first reporting line whose profit float() rejects,
      or None when every captured token converts. */
  function FirstBadToken(marker: string, lines: seq<string>, toFloat: string -> Option<real>): Option<string> {
    if lines == [] then None
    else
      match FirstBadToken(marker, lines[..|lines| - 1], toFloat)
      case Some(t) => Some(t)
      case None =>
        match Search(marker, lines[|lines| - 1])
        case None => None
        case Some(token) => if toFloat(token).None? then Some(token) else None
  }

  /** The profits are missing exactly when some captured token fails to
      convert, and that token is one float() rejects. */
  lemma {:induction false} ProfitsFailExactlyAtBadToken(marker: string, lines: seq<string>, toFloat: string -> Option<real>)
    ensures Profits(marker, lines, toFloat).None? <==> FirstBadToken(marker, lines, toFloat).Some?
    ensures FirstBadToken(marker, lines, toFloat).Some? ==> toFloat(FirstBadToken(marker, lines, toFloat).value).None?
    decreases |lines|
  {
    if lines != [] {
      ProfitsFailExactlyAtBadToken(marker, lines[..|lines| - 1], toFloat);
    }
  }

  function Sum(ps: seq<real>): real {
    if ps == [] then 0.0 else Sum(ps[..|ps| - 1]) + ps[|ps| - 1]
  }

  /** The running totals of a series: entry i is the sum of the first i + 1
      values. */
  function RunningSums(ps: seq<real>): (r: seq<real>)
    ensures |r| == |ps|
    ensures forall i :: 0 <= i < |ps| ==> r[i] == Sum(ps[..i + 1])
  {
    if ps == [] then []
    else
      var init := ps[..|ps| - 1];
      var r := RunningSums(init) + [Sum(ps)];
      assert forall i :: 0 <= i < |init| ==> r[i] == Sum(ps[..i + 1]) by {
        forall i | 0 <= i < |init| ensures r[i] == Sum(ps[..i + 1]) {
          assert init[..i + 1] == ps[..i + 1];
        }
      }
      assert ps[..|ps| - 1 + 1] == ps;
      r
  }

  /** Nonnegative profits make the running total never decrease. */
  lemma RunningSumsMonotone(ps: seq<real>, i: nat, j: nat)
    requires forall k :: 0 <= k < |ps| ==> ps[k] >= 0.0
    requires i <= j < |ps|
    ensures RunningSums(ps)[i] <= RunningSums(ps)[j]
    decreases j - i
  {
    if i < j {
      RunningSumsMonotone(ps, i, j - 1);
      assert ps[..j + 1][..j] == ps[..j];
    }
  }

  /** One more line of the log: a line without a match keeps the profits,
      a match appends its value, and a token float() rejects fails. */
  lemma ProfitsStep(marker: string, lines: seq<string>, i: nat, toFloat: string -> Option<real>, ps: seq<real>)
    requires i < |lines| && Profits(marker, lines[..i], toFloat) == Some(ps)
    ensures Search(marker, lines[i]).None? ==> Profits(marker, lines[..i + 1], toFloat) == Some(ps)
    ensures Search(marker, lines[i]).Some? && toFloat(Search(marker, lines[i]).value).None? ==>
      Profits(marker, lines[..i + 1], toFloat).None?
    ensures Search(marker, lines[i]).Some? && toFloat(Search(marker, lines[i]).value).Some? ==>
      Profits(marker, lines[..i + 1], toFloat) == Some(ps + [toFloat(Search(marker, lines[i]).value).value])
    ensures FirstBadToken(marker, lines[..i], toFloat).None? ==>
      FirstBadToken(marker, lines[..i + 1], toFloat) ==
        (if Search(marker, lines[i]).Some? && toFloat(Search(marker, lines[i]).value).None?
         then Search(marker, lines[i]) else None)
  {
    assert lines[..i + 1][..i] == lines[..i];
  }

  /** A new profit extends the running totals by the old total plus it. */
  lemma RunningSumsSnoc(ps: seq<real>, v: real)
    ensures Sum(ps + [v]) == Sum(ps) + v
    ensures RunningSums(ps + [v]) == RunningSums(ps) + [Sum(ps) + v]
  {
    assert (ps + [v])[..|ps|] == ps;
  }

  /** What parse_log produces. */
  datatype LogResult =
    | Trades(trades: seq<real>)
    /** The file does not exist: a diagnostic is printed and the result is
        an empty list. */
    | FileNotFound
    /** float() raised on a captured token, which nothing catches. */
    | ValueError(token: string)

  /** Reads the log and builds the running PnL series, one entry per
      reporting line. */
  method ParseLog(files: map<string, seq<string>>, filename: string, toFloat: string -> Option<real>)
    returns (r: LogResult)
    ensures filename !in files <==> r == FileNotFound
    ensures filename in files ==>
      match Profits(MARKER, files[filename], toFloat)
      case None => r.ValueError?
      case Some(ps) => r == Trades(RunningSums(ps))
    ensures r.ValueError? ==> toFloat(r.token).None?
    ensures r.ValueError? ==> FirstBadToken(MARKER, files[filename], toFloat) == Some(r.token)
  {
    if filename !in files {
      return FileNotFound;
    }
    r := ScanLog(MARKER, files[filename], toFloat);
  }

  /** The loop of parse_log over the lines of an open file, for the pattern
      with the given marker. */
  method ScanLog(marker: string, lines: seq<string>, toFloat: string -> Option<real>) returns (r: LogResult)
    ensures match Profits(marker, lines, toFloat)
      case None => r.ValueError?
      case Some(ps) => r == Trades(RunningSums(ps))
    ensures r.ValueError? ==> toFloat(r.token).None?
    ensures r.ValueError? ==> FirstBadToken(marker, lines, toFloat) == Some(r.token)
  {
    var cumulativePnl := 0.0;
    var trades := [];
    ghost var ps: seq<real> := [];
    var i := 0;
    while i < |lines|
      invariant 0 <= i <= |lines|
      invariant Profits(marker, lines[..i], toFloat) == Some(ps)
      invariant FirstBadToken(marker, lines[..i], toFloat).None?
      invariant cumulativePnl == Sum(ps)
      invariant trades == RunningSums(ps)
    {
      var found := Search(marker, lines[i]);
      ProfitsStep(marker, lines, i, toFloat, ps);
      if found.Some? {
        var profit := toFloat(found.value);
        if profit.None? {
          ValueErrorPropagates(marker, lines, i + 1, toFloat);
          return ValueError(found.value);
        }
        RunningSumsSnoc(ps, profit.value);
        cumulativePnl := cumulativePnl + profit.value;
        trades := trades + [cumulativePnl];
        ps := ps + [profit.value];
      }
      i := i + 1;
    }
    assert lines[..i] == lines;
    return Trades(trades);
  }

  /** Once a prefix of the log makes float() fail, the whole log does, and
      on the same token. */
  lemma {:induction false} ValueErrorPropagates(marker: string, lines: seq<string>, n: nat, toFloat: string -> Option<real>)
    requires n <= |lines| && Profits(marker, lines[..n], toFloat).None?
    ensures Profits(marker, lines, toFloat).None?
    ensures FirstBadToken(marker, lines, toFloat) == FirstBadToken(marker, lines[..n], toFloat)
    decreases |lines| - n
  {
    if n < |lines| {
      assert lines[..n + 1][..n] == lines[..n];
      ProfitsFailExactlyAtBadToken(marker, lines[..n], toFloat);
      ValueErrorPropagates(marker, lines, n + 1, toFloat);
    } else {
      assert lines[..n] == lines;
    }
  }

  function MaxOf(s: seq<real>): (m: real)
    requires s != []
    ensures (exists i :: 0 <= i < |s| && s[i] == m) && forall i :: 0 <= i < |s| ==> s[i] <= m
  {
    if |s| == 1 then s[0]
    else
      var m := MaxOf(s[..|s| - 1]);
      assert forall i :: 0 <= i < |s| - 1 ==> s[..|s| - 1][i] == s[i];
      if s[|s| - 1] > m then s[|s| - 1] else m
  }

  function MinOf(s: seq<real>): (m: real)
    requires s != []
    ensures (exists i :: 0 <= i < |s| && s[i] == m) && forall i :: 0 <= i < |s| ==> m <= s[i]
  {
    if |s| == 1 then s[0]
    else
      var m := MinOf(s[..|s| - 1]);
      assert forall i :: 0 <= i < |s| - 1 ==> s[..|s| - 1][i] == s[i];
      if s[|s| - 1] < m then s[|s| - 1] else m
  }

  /** The spread the chart is normalised by: max - min, or 1.0 when all
      values are equal. */
  function Range(lo: real, hi: real): (r: real)
    requires lo <= hi
    ensures r > 0.0
    ensures lo != hi ==> r == hi - lo
    ensures lo == hi ==> r == 1.0
  {
    if hi != lo then hi - lo else 1.0
  }

  /** The number of # characters drawn for v, with the series between lo
      and hi: int((v - lo) / range * 10) + 1, where int() is the floor since
      the quotient is not negative. */
  function BarLength(v: real, lo: real, hi: real): int
    requires lo <= v <= hi
  {
    ((v - lo) / Range(lo, hi) * HEIGHT as real).Floor + 1
  }

  lemma ScaledBounds(a: real, r: real)
    requires 0.0 <= a <= r && r > 0.0
    ensures 0.0 <= a / r * HEIGHT as real <= HEIGHT as real
    ensures a == r ==> a / r * HEIGHT as real == HEIGHT as real
  {
    assert a / r <= 1.0;
  }

  /** Every bar has between 1 and 11 characters; the maximum gets 11 when
      the values differ, and every value gets 1 when they are all equal. */
  lemma BarLengthBounds(v: real, lo: real, hi: real)
    requires lo <= v <= hi
    ensures 1 <= BarLength(v, lo, hi) <= HEIGHT + 1
    ensures lo != hi && v == hi ==> BarLength(v, lo, hi) == HEIGHT + 1
    ensures lo == hi ==> BarLength(v, lo, hi) == 1
  {
    ScaledBounds(v - lo, Range(lo, hi));
  }

  lemma QuotientMonotone(a: real, b: real, r: real)
    requires 0.0 <= a <= b && r > 0.0
    ensures a / r * HEIGHT as real <= b / r * HEIGHT as real
  {
    assert a / r <= b / r;
  }

  /** A larger value never gets a shorter bar. */
  lemma BarLengthMonotone(v: real, w: real, lo: real, hi: real)
    requires lo <= v <= w <= hi
    ensures BarLength(v, lo, hi) <= BarLength(w, lo, hi)
  {
    QuotientMonotone(v - lo, w - lo, Range(lo, hi));
  }

  /** The chart of a nonempty series: one bar per value, normalised by the
      series' minimum and maximum. */
  function Chart(trades: seq<real>): (bars: seq<int>)
    requires trades != []
  {
    seq(|trades|, i requires 0 <= i < |trades| => BarLength(trades[i], MinOf(trades), MaxOf(trades)))
  }

  /** The bar lengths print_ascii_chart draws, one per value in order; no
      chart at all for an empty series. */
  method ChartBars(trades: seq<real>) returns (bars: seq<int>)
    ensures trades == [] ==> bars == []
    ensures |bars| == |trades|
    ensures trades != [] ==> bars == Chart(trades)
    ensures forall i :: 0 <= i < |trades| ==> 1 <= bars[i] <= HEIGHT + 1
    ensures forall i, j :: 0 <= i < |trades| && 0 <= j < |trades| && trades[i] <= trades[j] ==> bars[i] <= bars[j]
  {
    bars := [];
    if trades == [] {
      return;
    }
    var maxPnl := MaxOf(trades);
    var minPnl := MinOf(trades);
    var rangePnl := if maxPnl != minPnl then maxPnl - minPnl else 1.0;
    for i := 0 to |trades|
      invariant |bars| == i
      invariant forall k :: 0 <= k < i ==> bars[k] == BarLength(trades[k], minPnl, maxPnl)
    {
      var normalized := ((trades[i] - minPnl) / rangePnl * HEIGHT as real).Floor;
      bars := bars + [normalized + 1];
    }
    assert bars == Chart(trades);
    forall i | 0 <= i < |trades| ensures 1 <= bars[i] <= HEIGHT + 1 {
      BarLengthBounds(trades[i], minPnl, maxPnl);
    }
    forall i, j | 0 <= i < |trades| && 0 <= j < |trades| && trades[i] <= trades[j]
      ensures bars[i] <= bars[j]
    {
      BarLengthMonotone(trades[i], trades[j], minPnl, maxPnl);
    }
  }

  /** What the script ends up doing. */
  datatype Outcome =
    | Usage
    /** "No arbitrage trades found in log.", after the not-found diagnostic
        when the file is missing. */
    | NoTrades(fileMissing: bool)
    /** The trade count, the final PnL and the chart. */
    | Summary(totalTrades: nat, finalPnl: real, bars: seq<int>)
    /** The script stops with an uncaught ValueError. */
    | Crashed

  /** The main entry point over the command line `argv` (program name
      first). */
  method Analyze(argv: seq<string>, files: map<string, seq<string>>, toFloat: string -> Option<real>)
    returns (outcome: Outcome)
    ensures |argv| < 2 <==> outcome == Usage
    ensures |argv| >= 2 && argv[1] !in files ==> outcome == NoTrades(true)
    ensures |argv| >= 2 && argv[1] in files ==>
      match Profits(MARKER, files[argv[1]], toFloat)
      case None => outcome == Crashed
      case Some(ps) =>
        if ps == [] then outcome == NoTrades(false)
        else
          && outcome.Summary?
          && outcome.totalTrades == |ps|
          && outcome.finalPnl == Sum(ps)
          && |outcome.bars| == |ps|
          && outcome.bars == Chart(RunningSums(ps))
          && forall i :: 0 <= i < |ps| ==> 1 <= outcome.bars[i] <= HEIGHT + 1
  {
    if |argv| < 2 {
      return Usage;
    }
    var logFile := argv[1];
    var result := ParseLog(files, logFile, toFloat);
    match result {
      case FileNotFound =>
        outcome := NoTrades(true);
      case ValueError(_) =>
        outcome := Crashed;
      case Trades(trades) =>
        if trades != [] {
          var bars := ChartBars(trades);
          ghost var ps := Profits(MARKER, files[logFile], toFloat).value;
          assert ps[..|ps| - 1 + 1] == ps;
          outcome := Summary(|trades|, trades[|trades| - 1], bars);
        } else {
          outcome := NoTrades(false);
        }
    }
  }
}
