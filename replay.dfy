/** Replay of recorded market data (MarketDataReplay.hpp). A CSV file of
    lines `timestamp,symbol,bid_price,bid_qty,ask_price,ask_qty` is read
    line by line after a header line; each nonempty line becomes a book
    ticker handed to the callback. The file is a sequence of lines, or None
    when it cannot be opened; the number parser std::stod is a parameter
    that answers None where it would throw; the callback is represented by
    whether one is set and by the sequence of tickers it receives. */
module Replay {
  import opened Wrappers
  import opened Types

  /** The index of the first comma of s, or |s| when there is none. */
  function CommaIndex(s: string): (i: nat)
    ensures i <= |s|
    ensures i < |s| ==> s[i] == ','
    ensures forall j :: 0 <= j < i ==> s[j] != ','
  {
    if s == [] || s[0] == ',' then 0 else 1 + CommaIndex(s[1..])
  }

  /** The fields std::getline(ss, segment, ',') yields one after another: the
      text between commas, where an empty line yields no field and a
      trailing comma yields no final empty field. */
  function Fields(line: string): seq<string>
    decreases |line|
  {
    if line == [] then []
    else
      var i := CommaIndex(line);
      if i == |line| then [line] else [line[..i]] + Fields(line[i + 1..])
  }

  /** The fields joined back with commas between them. */
  function Join(parts: seq<string>): string {
    if parts == [] then ""
    else if |parts| == 1 then parts[0]
    else parts[0] + "," + Join(parts[1..])
  }

  function CountCommas(s: string): nat {
    if s == [] then 0 else (if s[0] == ',' then 1 else 0) + CountCommas(s[1..])
  }

  predicate EndsWithComma(s: string) {
    s != [] && s[|s| - 1] == ','
  }

  /** The first comma is the one after a comma-free prefix. */
  lemma CommaAfterPrefix(line: string, k: nat)
    requires k < |line| && line[k] == ','
    requires forall j :: 0 <= j < k ==> line[j] != ','
    ensures CommaIndex(line) == k
  {
  }

  /** A field text followed by a comma is split off as one field. */
  lemma FieldsCons(segment: string, rest: string)
    requires ',' !in segment
    ensures Fields(segment + "," + rest) == [segment] + Fields(rest)
  {
    var line := segment + "," + rest;
    forall j | 0 <= j < |segment| ensures line[j] != ',' {
      assert line[j] == segment[j] && segment[j] in segment;
    }
    CommaAfterPrefix(line, |segment|);
    assert line[..|segment|] == segment;
    assert line[|segment| + 1..] == rest;
  }

  /** The last field: a text without comma is one field, or none when empty. */
  lemma FieldsLast(segment: string)
    requires ',' !in segment
    ensures Fields(segment) == if segment == [] then [] else [segment]
  {
    forall j | 0 <= j < |segment| ensures segment[j] != ',' {
      assert segment[j] in segment;
    }
  }

  /** No field contains the delimiter. */
  lemma {:induction false} FieldsHaveNoComma(line: string)
    ensures forall p :: p in Fields(line) ==> ',' !in p
    decreases |line|
  {
    if line != [] {
      var i := CommaIndex(line);
      if i < |line| {
        FieldsHaveNoComma(line[i + 1..]);
        forall c | c in line[..i] ensures c != ',' {
          var j :| 0 <= j < i && line[..i][j] == c;
        }
      } else {
        forall c | c in line ensures c != ',' {
          var j :| 0 <= j < |line| && line[j] == c;
        }
      }
    }
  }

  lemma CountCommasConcat(a: string, b: string)
    ensures CountCommas(a + b) == CountCommas(a) + CountCommas(b)
  {
    if a != [] {
      assert (a + b)[1..] == a[1..] + b;
      CountCommasConcat(a[1..], b);
    } else {
      assert a + b == b;
    }
  }

  lemma NoCommaCountsZero(s: string)
    requires forall j :: 0 <= j < |s| ==> s[j] != ','
    ensures CountCommas(s) == 0
  {
    if s != [] {
      NoCommaCountsZero(s[1..]);
    }
  }

  /** The last comma of a line is the last comma of what follows its first
      comma, when anything does. */
  lemma EndsWithCommaAfter(line: string, i: nat)
    requires i < |line| - 1
    ensures EndsWithComma(line) == EndsWithComma(line[i + 1..])
  {
  }

  /** Splitting loses only a trailing comma: joining the fields with commas
      gives the line back, once that comma is put back. */
  lemma {:induction false} JoinFields(line: string)
    ensures Join(Fields(line)) + (if EndsWithComma(line) then "," else "") == line
    decreases |line|
  {
    if line != [] {
      var i := CommaIndex(line);
      if i < |line| {
        JoinFields(line[i + 1..]);
        FirstCommaSplit(line, i);
        JoinFieldsStep(line[..i], line[i + 1..], line);
      } else {
        assert Fields(line) == [line];
      }
    }
  }

  /** A line whose first comma is at k is its comma-free first field,
      that comma, and the rest. */
  lemma FirstCommaSplit(line: string, k: nat)
    requires k < |line| && line[k] == ','
    requires forall j :: 0 <= j < k ==> line[j] != ','
    ensures ',' !in line[..k]
    ensures line == line[..k] + "," + line[k + 1..]
  {
    forall c | c in line[..k] ensures c != ',' {
      var j :| 0 <= j < k && line[..k][j] == c;
    }
    assert line == line[..k] + "," + line[k + 1..];
  }

  /** The step of JoinFields at the first comma, given the property for
      the text after it. */
  lemma JoinFieldsStep(head: string, rest: string, line: string)
    requires ',' !in head && line == head + "," + rest
    requires Join(Fields(rest)) + (if EndsWithComma(rest) then "," else "") == rest
    ensures Join(Fields(line)) + (if EndsWithComma(line) then "," else "") == line
  {
    FieldsCons(head, rest);
    if rest != [] {
      assert line[|line| - 1] == rest[|rest| - 1];
      NonemptyHasFields(rest);
    }
    JoinAroundComma(head, rest, line, Fields(rest));
  }

  /** Joining a first field with the fields of what follows its comma. */
  lemma JoinAroundComma(head: string, rest: string, line: string, fs: seq<string>)
    requires line == head + "," + rest
    requires fs == [] <==> rest == []
    requires Join(fs) + (if EndsWithComma(rest) then "," else "") == rest
    requires rest != [] ==> EndsWithComma(line) == EndsWithComma(rest)
    ensures Join([head] + fs) + (if EndsWithComma(line) then "," else "") == line
  {
    if fs != [] {
      JoinCons(head, fs);
    }
  }

  lemma NonemptyHasFields(line: string)
    requires line != []
    ensures Fields(line) != []
  {
  }

  lemma JoinCons(a: string, fs: seq<string>)
    requires fs != []
    ensures Join([a] + fs) == a + "," + Join(fs)
  {
    assert ([a] + fs)[1..] == fs;
  }

  /** The commas of a line around one of them. */
  lemma CommasAround(line: string, i: nat)
    requires i < |line| && line[i] == ','
    ensures CountCommas(line) == CountCommas(line[..i]) + 1 + CountCommas(line[i + 1..])
  {
    assert line == line[..i] + line[i..];
    CountCommasConcat(line[..i], line[i..]);
    assert line[i..][1..] == line[i + 1..];
  }

  /** One field per comma, plus the last one unless the line is empty or
      ends with a comma. */
  lemma {:induction false} FieldCount(line: string)
    ensures |Fields(line)| == CountCommas(line) + (if line == [] || EndsWithComma(line) then 0 else 1)
    decreases |line|
  {
    if line != [] {
      var i := CommaIndex(line);
      NoCommaCountsZero(line[..i]);
      if i < |line| {
        FieldCount(line[i + 1..]);
        CommasAround(line, i);
        if i < |line| - 1 {
          EndsWithCommaAfter(line, i);
        }
      } else {
        assert line[..i] == line;
      }
    }
  }

  /** The step of the splitting loop that meets a comma. */
  lemma SplitAtComma(segment: string, line: string, i: nat)
    requires ',' !in segment && i < |line| && line[i] == ','
    ensures Fields(segment + line[i..]) == [segment] + Fields(line[i + 1..])
  {
    assert segment + line[i..] == segment + "," + line[i + 1..];
    FieldsCons(segment, line[i + 1..]);
  }

  /** The step of the splitting loop that meets any other character. */
  lemma SplitAtOther(segment: string, line: string, i: nat)
    requires ',' !in segment && i < |line| && line[i] != ','
    ensures ',' !in segment + [line[i]]
    ensures Fields((segment + [line[i]]) + line[i + 1..]) == Fields(segment + line[i..])
  {
    assert segment + line[i..] == (segment + [line[i]]) + line[i + 1..];
  }

  /** Splits a line as the loop of std::getline calls does, one character at
      a time. */
  method Split(line: string) returns (parts: seq<string>)
    ensures parts == Fields(line)
  {
    parts := [];
    var segment := "";
    var i := 0;
    assert segment + line[i..] == line;
    while i < |line|
      invariant 0 <= i <= |line|
      invariant ',' !in segment
      invariant parts + Fields(segment + line[i..]) == Fields(line)
    {
      if line[i] == ',' {
        SplitAtComma(segment, line, i);
        assert "" + line[i + 1..] == line[i + 1..];
        parts := parts + [segment];
        segment := "";
      } else {
        SplitAtOther(segment, line, i);
        segment := segment + [line[i]];
      }
      i := i + 1;
    }
    assert segment + line[i..] == segment;
    FieldsLast(segment);
    if segment != [] {
      parts := parts + [segment];
    }
  }

  /** The number parser rejected the field at this index. */
  datatype ParseError = InvalidNumber(field: nat)

  /** The ticker a line's fields describe. With six fields or more, the
      symbol is the second and the four numbers are the third to sixth; the
      first (the timestamp) and any later ones are ignored, as is the update
      id, which keeps the value of `blank`. With fewer, the ticker is left
      as constructed: an empty symbol and the numbers of `blank`. The
      numbers are parsed in field order and the first rejected one is the
      error. */
  function ParseFields(parts: seq<string>, toDouble: string -> Option<real>, blank: BookTicker): (r: Result<BookTicker, ParseError>)
    ensures |parts| < 6 ==> r == Success(blank.(symbol := ""))
    ensures |parts| >= 6 ==> (r.Success? <==> forall i :: 2 <= i < 6 ==> toDouble(parts[i]).Some?)
    ensures |parts| >= 6 && r.Success? ==>
      && r.value.symbol == parts[1]
      && Some(r.value.bestBidPrice) == toDouble(parts[2])
      && Some(r.value.bestBidQty) == toDouble(parts[3])
      && Some(r.value.bestAskPrice) == toDouble(parts[4])
      && Some(r.value.bestAskQty) == toDouble(parts[5])
      && r.value.updateId == blank.updateId
    ensures r.Failure? ==>
      && 2 <= r.error.field < 6 <= |parts|
      && toDouble(parts[r.error.field]).None?
      && forall i :: 2 <= i < r.error.field ==> toDouble(parts[i]).Some?
  {
    if |parts| < 6 then Success(blank.(symbol := ""))
    else
      match toDouble(parts[2])
      case None => Failure(InvalidNumber(2))
      case Some(bidPrice) =>
        match toDouble(parts[3])
        case None => Failure(InvalidNumber(3))
        case Some(bidQty) =>
          match toDouble(parts[4])
          case None => Failure(InvalidNumber(4))
          case Some(askPrice) =>
            match toDouble(parts[5])
            case None => Failure(InvalidNumber(5))
            case Some(askQty) =>
              Success(blank.(symbol := parts[1], bestBidPrice := bidPrice, bestBidQty := bidQty,
                             bestAskPrice := askPrice, bestAskQty := askQty))
  }

  method ParseLine(line: string, toDouble: string -> Option<real>, blank: BookTicker) returns (r: Result<BookTicker, ParseError>)
    ensures r == ParseFields(Fields(line), toDouble, blank)
  {
    var parts := Split(line);
    if |parts| >= 6 {
      var bidPrice := toDouble(parts[2]);
      if bidPrice.None? {
        return Failure(InvalidNumber(2));
      }
      var bidQty := toDouble(parts[3]);
      if bidQty.None? {
        return Failure(InvalidNumber(3));
      }
      var askPrice := toDouble(parts[4]);
      if askPrice.None? {
        return Failure(InvalidNumber(4));
      }
      var askQty := toDouble(parts[5]);
      if askQty.None? {
        return Failure(InvalidNumber(5));
      }
      r := Success(blank.(symbol := parts[1], bestBidPrice := bidPrice.value, bestBidQty := bidQty.value,
                          bestAskPrice := askPrice.value, bestAskQty := askQty.value));
    } else {
      r := Success(blank.(symbol := ""));
    }
  }

  /** The lines after the header; an empty file has no header either. */
  function Body(lines: seq<string>): (body: seq<string>)
    ensures lines != [] ==> [lines[0]] + body == lines
    ensures lines == [] ==> body == []
  {
    if lines == [] then [] else lines[1..]
  }

  /** The tickers the callback receives for these data lines: one per
      nonempty line that parses, in order. */
  function Delivered(lines: seq<string>, toDouble: string -> Option<real>, blank: BookTicker): seq<BookTicker> {
    if lines == [] then []
    else
      var before := Delivered(lines[..|lines| - 1], toDouble, blank);
      var line := lines[|lines| - 1];
      if line == [] then before
      else match ParseFields(Fields(line), toDouble, blank)
        case Success(t) => before + [t]
        case Failure(_) => before
  }

  /** The data lines reported as parse errors: the nonempty lines that fail
      to parse, in order. */
  function Rejected(lines: seq<string>, toDouble: string -> Option<real>, blank: BookTicker): seq<string> {
    if lines == [] then []
    else
      var before := Rejected(lines[..|lines| - 1], toDouble, blank);
      var line := lines[|lines| - 1];
      if line != [] && ParseFields(Fields(line), toDouble, blank).Failure? then before + [line] else before
  }

  /** Replays a file: skips the header line and the empty lines, hands each
      line that parses to the callback, counting only those, and reports
      the lines that do not parse. A file that cannot be opened yields
      nothing, and `isOpen` is false. */
  method RunReplay(file: Option<seq<string>>, hasCallback: bool, toDouble: string -> Option<real>, blank: BookTicker)
    returns (isOpen: bool, delivered: seq<BookTicker>, count: nat, rejected: seq<string>)
    ensures isOpen <==> file.Some?
    ensures file.None? ==> delivered == [] && count == 0 && rejected == []
    ensures file.Some? ==>
      && delivered == (if hasCallback then Delivered(Body(file.value), toDouble, blank) else [])
      && rejected == Rejected(Body(file.value), toDouble, blank)
    ensures count == |delivered|
  {
    delivered, count, rejected := [], 0, [];
    if file.None? {
      return false, delivered, count, rejected;
    }
    isOpen := true;
    var lines := file.value;
    var rest := if lines == [] then [] else lines[1..];
    var i := 0;
    while i < |rest|
      invariant 0 <= i <= |rest|
      invariant delivered == (if hasCallback then Delivered(rest[..i], toDouble, blank) else [])
      invariant rejected == Rejected(rest[..i], toDouble, blank)
      invariant count == |delivered|
    {
      var line := rest[i];
      ReplayStep(rest, i, toDouble, blank);
      if line != [] {
        var ticker := ParseLine(line, toDouble, blank);
        match ticker {
          case Success(t) =>
            if hasCallback {
              delivered := delivered + [t];
              count := count + 1;
            }
          case Failure(_) =>
            rejected := rejected + [line];
        }
      }
      i := i + 1;
    }
    assert rest[..i] == rest;
  }

  /** One more data line: a nonempty line that parses adds its ticker, one
      that does not is rejected, and an empty line changes nothing. */
  lemma ReplayStep(lines: seq<string>, i: nat, toDouble: string -> Option<real>, blank: BookTicker)
    requires i < |lines|
    ensures var r := ParseFields(Fields(lines[i]), toDouble, blank);
      && Delivered(lines[..i + 1], toDouble, blank) ==
        Delivered(lines[..i], toDouble, blank) + (if lines[i] != [] && r.Success? then [r.value] else [])
      && Rejected(lines[..i + 1], toDouble, blank) ==
        Rejected(lines[..i], toDouble, blank) + (if lines[i] != [] && r.Failure? then [lines[i]] else [])
  {
    assert lines[..i + 1][..i] == lines[..i];
  }

  /** Replaying two runs of lines one after the other delivers the tickers
      of the first and then those of the second. */
  lemma {:induction false} DeliveredConcat(a: seq<string>, b: seq<string>, toDouble: string -> Option<real>, blank: BookTicker)
    ensures Delivered(a + b, toDouble, blank) == Delivered(a, toDouble, blank) + Delivered(b, toDouble, blank)
    decreases |b|
  {
    if b == [] {
      assert a + b == a;
    } else {
      assert (a + b)[..|a + b| - 1] == a + b[..|b| - 1];
      DeliveredConcat(a, b[..|b| - 1], toDouble, blank);
    }
  }

  /** Empty lines make no difference to what is delivered. */
  lemma EmptyLineIsSkipped(a: seq<string>, b: seq<string>, toDouble: string -> Option<real>, blank: BookTicker)
    ensures Delivered(a + [""] + b, toDouble, blank) == Delivered(a + b, toDouble, blank)
  {
    DeliveredConcat(a + [""], b, toDouble, blank);
    DeliveredConcat(a, b, toDouble, blank);
    assert (a + [""])[..|a|] == a;
  }

  /** Every line yields at most one ticker or one rejection. */
  lemma {:induction false} AtMostOneTickerPerLine(lines: seq<string>, toDouble: string -> Option<real>, blank: BookTicker)
    ensures |Delivered(lines, toDouble, blank)| + |Rejected(lines, toDouble, blank)| <= |lines|
    decreases |lines|
  {
    if lines != [] {
      AtMostOneTickerPerLine(lines[..|lines| - 1], toDouble, blank);
    }
  }
}
