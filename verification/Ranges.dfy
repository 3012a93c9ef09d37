/** The text of a file's range inside an aggregate, and its two parsers. */
module Ranges {
  import opened Options
  import opened Text

  function SubText(blockText: string, begin: nat, end: nat): (s: string) {
    blockText + "," + RangeText(begin, end)
  }

  function RangeText(begin: nat, end: nat): (s: string) {
    Decimal(begin) + "|" + Decimal(end)
  }

  /** Stream extraction of an int, one character that is no blank, and an int. */
  function ParseRange(s: string): (r: Option<(int, int)>) {
    match ParseInt(s)
    case None => None
    case Some(begin) =>
      var n := NumberEnd(s);
      var k := n + BlanksAhead(s[n..]);
      if k == |s| then None
      else match ParseInt(s[k + 1..])
        case None => None
        case Some(end) => Some((begin, end))
  }

  /** What get makes of the first sub: the range behind the last comma, and the shard list before it. */
  function ClientParse(sub: string): (r: Option<(int, int, string)>) {
    var pos := FindLast(sub, ',');
    if pos == |sub| then Some((0, 0, sub))
    else match ParseRange(sub[pos + 1..])
      case None => None
      case Some((begin, end)) => Some((begin, end, sub[..pos]))
  }

  /** getLastPair: the last comma-separated field, split at its first bar. */
  function NamenodeParse(sub: string): (r: Option<(int, int)>) {
    var pairs := Fields(sub, ',');
    if pairs == [] then None else
      var last := pairs[|pairs| - 1];
      var pos := Find(last, '|');
      if pos == |last| then None
      else match (ParseInt(last[..pos]), ParseInt(last[pos + 1..]))
        case (Some(begin), Some(end)) => Some((begin, end))
        case _ => None
  }

  /** The getline loop of getLastPair. */
  method GetLastPair(input: string) returns (r: Option<(int, int)>)
    ensures r == NamenodeParse(input)
  {
    hide Find, Fields, ParseInt;
    var pairs: seq<string>, rest := [], input;
    ghost var fields := Fields(input, ',');
    assert fields[0..] == fields;
    FieldsOfNothing(',');
    while rest != ""
      invariant |pairs| <= |fields| && Fields(rest, ',') == fields[|pairs|..] && pairs == fields[..|pairs|]
      decreases |rest|
    {
      var i := Find(rest, ',');
      FieldsStep(rest, ',');
      pairs := pairs + [rest[..i]];
      rest := if i == |rest| then "" else rest[i + 1..];
    }
    assert pairs == fields;
    if pairs == [] {
      return None;
    }
    var last := pairs[|pairs| - 1];
    var pos := Find(last, '|');
    if pos == |last| {
      return None;
    }
    var begin, end := ParseInt(last[..pos]), ParseInt(last[pos + 1..]);
    r := if begin.Some? && end.Some? then Some((begin.value, end.value)) else None;
  }

  lemma RangeTextClean(begin: nat, end: nat)
    ensures Clean(RangeText(begin, end), ',') && Find(RangeText(begin, end), '|') == |Decimal(begin)|
  {
    var s, n := RangeText(begin, end), |Decimal(begin)|;
    assert s[..n] == Decimal(begin) && s[n] == '|';
    FindIs(s, '|', n);
  }

  lemma NoBlank(c: char, s: string)
    requires !IsBlank(c)
    ensures BlanksAhead([c] + s) == 0
  {
  }

  /** Two printed numbers with a character between them read as a pair, whatever follows. */
  lemma PairParses(a: nat, c: char, b: nat, rest: string)
    requires a <= INT_MAX && b <= INT_MAX && !IsDigit(c) && !IsBlank(c) && (rest == "" || !IsDigit(rest[0]))
    ensures ParseRange(Decimal(a) + [c] + Decimal(b) + rest) == Some((a, b))
  {
    hide Decimal, ParseInt, NumberEnd, BlanksAhead;
    var tail := [c] + (Decimal(b) + rest);
    var s, n := Decimal(a) + [c] + Decimal(b) + rest, |Decimal(a)|;
    ParsePrinted(a, tail);
    ParsePrinted(b, rest);
    NoBlank(c, Decimal(b) + rest);
    assert s == Decimal(a) + tail && s[n..] == tail && s[n + 1..] == Decimal(b) + rest;
  }

  /** Blanks before the character between the numbers do not matter. */
  lemma BlankBetween(a: nat, blank: char, back: string)
    requires a <= INT_MAX && IsBlank(blank) && (back == "" || !IsDigit(back[0]))
    ensures ParseRange(Decimal(a) + [blank] + back) == ParseRange(Decimal(a) + back)
  {
    hide Decimal, ParseInt, NumberEnd;
    var s, t, n := Decimal(a) + [blank] + back, Decimal(a) + back, |Decimal(a)|;
    ParsePrinted(a, back);
    ParsePrinted(a, [blank] + back);
    assert s == Decimal(a) + ([blank] + back);
    assert s[n..] == [blank] + back && t[n..] == back && ([blank] + back)[1..] == back;
    assert BlanksAhead([blank] + back) == 1 + BlanksAhead(back);
    hide BlanksAhead;
    var k := n + BlanksAhead(back);
    if k < |t| {
      assert s[k + 2..] == t[k + 1..];
    }
  }

  lemma ParseRangePrinted(begin: nat, end: nat)
    requires begin <= INT_MAX && end <= INT_MAX
    ensures ParseRange(RangeText(begin, end)) == Some((begin, end))
  {
    hide Decimal, ParseRange;
    PairParses(begin, '|', end, "");
    assert RangeText(begin, end) == Decimal(begin) + ['|'] + Decimal(end) + "";
  }

  lemma ClientReadsBack(blockText: string, begin: nat, end: nat)
    requires begin <= INT_MAX && end <= INT_MAX
    ensures ClientParse(SubText(blockText, begin, end)) == Some((begin, end, blockText))
  {
    var s, n := SubText(blockText, begin, end), |blockText|;
    RangeTextClean(begin, end);
    ParseRangePrinted(begin, end);
    hide RangeText, ParseRange, FindLast;
    assert s[..n] == blockText && s[n] == ',' && s[n + 1..] == RangeText(begin, end);
    FindLastIs(s, ',', n);
  }

  lemma FieldParses(begin: nat, end: nat)
    requires begin <= INT_MAX && end <= INT_MAX
    ensures var t, m := RangeText(begin, end), |Decimal(begin)|;
      m < |t| && ParseInt(t[..m]) == Some(begin) && ParseInt(t[m + 1..]) == Some(end)
  {
    hide Decimal, ParseInt;
    var t, m := RangeText(begin, end), |Decimal(begin)|;
    ParsePrinted(begin, "");
    ParsePrinted(end, "");
    assert t[..m] == Decimal(begin) == Decimal(begin) + "" && t[m + 1..] == Decimal(end) == Decimal(end) + "";
  }

  lemma NamenodeReadsBack(blockText: string, begin: nat, end: nat)
    requires begin <= INT_MAX && end <= INT_MAX
    ensures NamenodeParse(SubText(blockText, begin, end)) == Some((begin, end))
  {
    hide RangeText, Decimal, Fields, Find, ParseInt;
    var t := RangeText(begin, end);
    RangeTextClean(begin, end);
    FieldParses(begin, end);
    LastField(blockText, t, ',');
    assert SubText(blockText, begin, end) == blockText + [','] + t;
  }

  /** The namenode splits the last field at its first bar; what follows the second number does not matter. */
  lemma FirstBarSplits(blockText: string, begin: nat, end: nat, rest: string)
    requires begin <= INT_MAX && end <= INT_MAX && ',' !in rest && (rest == "" || !IsDigit(rest[0]))
    ensures NamenodeParse(blockText + "," + RangeText(begin, end) + rest) == Some((begin, end))
  {
    hide Decimal, Fields, Find, ParseInt, NumberEnd;
    var t, m := RangeText(begin, end) + rest, |Decimal(begin)|;
    assert t[..m] == Decimal(begin) == Decimal(begin) + "" && t[m] == '|' && t[m + 1..] == Decimal(end) + rest;
    FindIs(t, '|', m);
    ParsePrinted(begin, "");
    ParsePrinted(end, rest);
    LastField(blockText, t, ',');
    assert blockText + "," + RangeText(begin, end) + rest == blockText + [','] + t;
  }

  /** A last field without a bar is refused. */
  lemma NoBarRefused(blockText: string, t: string)
    requires Clean(t, ',') && '|' !in t
    ensures NamenodeParse(blockText + "," + t) == None && NamenodeParse("") == None
  {
    LastField(blockText, t, ',');
    assert blockText + "," + t == blockText + [','] + t;
  }

  /** The client and the namenode both read back the range that was written. */
  lemma RangeReadsBack(blockText: string, begin: nat, end: nat)
    requires begin <= INT_MAX && end <= INT_MAX
    ensures ClientParse(SubText(blockText, begin, end)) == Some((begin, end, blockText))
    ensures NamenodeParse(SubText(blockText, begin, end)) == Some((begin, end))
  {
    ClientReadsBack(blockText, begin, end);
    NamenodeReadsBack(blockText, begin, end);
  }
}
