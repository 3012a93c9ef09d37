/** The text the client and the namenode exchange: decimal numbers and delimiter-separated fields. */
module Text {
  import opened Options

  /** The limits of a 32-bit int. */
  const INT_MAX: nat := 0x7fff_ffff
  const INT_MIN: int := -0x8000_0000

  predicate IsDigit(c: char) {
    '0' <= c <= '9'
  }

  function Digit(d: nat): (c: char)
    requires d < 10
    ensures IsDigit(c)
  {
    '0' + d as char
  }

  function DigitValue(c: char): (d: nat)
    requires IsDigit(c)
    ensures d < 10
  {
    (c - '0') as nat
  }

  /** std::to_string of a non-negative number. */
  function Decimal(n: nat): (s: string)
    ensures s != "" && forall c :: c in s ==> IsDigit(c)
  {
    if n < 10 then [Digit(n)] else Decimal(n / 10) + [Digit(n % 10)]
  }

  function NumberOf(s: string): (n: nat)
    requires forall c :: c in s ==> IsDigit(c)
  {
    if s == "" then 0 else 10 * NumberOf(s[..|s| - 1]) + DigitValue(s[|s| - 1])
  }

  /** How many digits a string starts with. */
  function DigitsAhead(s: string): (n: nat)
    ensures n <= |s| && forall i :: 0 <= i < n ==> IsDigit(s[i])
    ensures n < |s| ==> !IsDigit(s[n])
  {
    if s == "" || !IsDigit(s[0]) then 0 else 1 + DigitsAhead(s[1..])
  }

  /** std::isspace. */
  predicate IsBlank(c: char) {
    c == ' ' || '\t' <= c <= '\r'
  }

  /** The blanks: space, tab, line feed, vertical tab, form feed and carriage return. */
  lemma Blanks(c: char)
    ensures IsBlank(c) <==> c in [' ', '\t', '\n', 11 as char, 12 as char, '\r']
  {
  }

  function BlanksAhead(s: string): (n: nat)
    ensures n <= |s|
  {
    if s == "" || !IsBlank(s[0]) then 0 else 1 + BlanksAhead(s[1..])
  }

  function SignAhead(s: string): (n: nat)
    ensures n <= |s|
  {
    if s != "" && (s[0] == '+' || s[0] == '-') then 1 else 0
  }

  /** Where the digits of a number start: after blanks and one sign. */
  function DigitsAt(s: string): (i: nat)
    ensures i <= |s|
  {
    var i := BlanksAhead(s);
    i + SignAhead(s[i..])
  }

  /** Where a number ends. */
  function NumberEnd(s: string): (i: nat)
    ensures i <= |s|
  {
    var i := DigitsAt(s);
    i + DigitsAhead(s[i..])
  }

  /** std::stoi, and stream extraction of an int: blanks, a sign, digits, then anything. */
  function ParseInt(s: string): (r: Option<int>) {
    var i, n := DigitsAt(s), NumberEnd(s);
    if i == n then None
    else
      var v: int := NumberOf(s[i..n]);
      var signed: int := if i > 0 && s[i - 1] == '-' then -v else v;
      if INT_MIN <= signed <= INT_MAX then Some(signed) else None
  }

  /** std::to_string of an int. */
  function Printed(n: int): (s: string) {
    if n < 0 then "-" + Decimal(-n) else Decimal(n)
  }

  lemma {:induction false} NumberOfDecimal(n: nat)
    ensures NumberOf(Decimal(n)) == n
  {
    if n < 10 {
      assert [Digit(n)][..0] == "";
      assert NumberOf("") == 0;
    } else {
      NumberOfDecimal(n / 10);
      var s := Decimal(n);
      assert s[..|s| - 1] == Decimal(n / 10);
    }
  }

  lemma {:induction false} DigitsAheadOf(s: string, rest: string)
    requires forall c :: c in s ==> IsDigit(c)
    requires rest == "" || !IsDigit(rest[0])
    ensures DigitsAhead(s + rest) == |s|
  {
    if s == "" {
      assert s + rest == rest;
    } else {
      DigitsAheadOf(s[1..], rest);
      assert (s + rest)[1..] == s[1..] + rest;
    }
  }

  /** A printed number reads back, whatever follows it that is no digit. */
  lemma ParsePrinted(n: nat, rest: string)
    requires n <= INT_MAX && (rest == "" || !IsDigit(rest[0]))
    ensures NumberEnd(Decimal(n) + rest) == |Decimal(n)| && ParseInt(Decimal(n) + rest) == Some(n)
  {
    var s := Decimal(n) + rest;
    assert s[0] == Decimal(n)[0] && IsDigit(s[0]);
    assert s[0..] == s;
    DigitsAheadOf(Decimal(n), rest);
    NumberOfDecimal(n);
    assert s[..|Decimal(n)|] == Decimal(n);
  }

  /** Where the digits of a text are, and what follows from it. */
  lemma NumberAt(s: string, at: nat, n: nat, rest: string)
    requires DigitsAt(s) == at && at <= |s| && s[at..] == Decimal(n) + rest && (rest == "" || !IsDigit(rest[0]))
    ensures var m: int := n;
      var v := if at > 0 && s[at - 1] == '-' then -m else m;
      ParseInt(s) == if INT_MIN <= v <= INT_MAX then Some(v) else None
  {
    hide BlanksAhead, SignAhead, DigitsAt, Decimal, NumberOf, DigitsAhead;
    var d := Decimal(n);
    DigitsAheadOf(d, rest);
    NumberOfDecimal(n);
    assert s[at..at + |d|] == s[at..][..|d|] == d;
  }

  lemma SignAt(c: char, s: string)
    requires (c == '+' || c == '-') && s != "" && IsDigit(s[0])
    ensures DigitsAt([c] + s) == 1 && DigitsAt(s) == 0
  {
    assert ([c] + s)[0..] == [c] + s && s[0..] == s;
  }

  /** A number is read with its sign, and refused outside the range of an int. */
  lemma SignedReadsBack(n: int, rest: string)
    requires rest == "" || !IsDigit(rest[0])
    ensures ParseInt(Printed(n) + rest) == if INT_MIN <= n <= INT_MAX then Some(n) else None
    ensures 0 <= n <= INT_MAX ==> ParseInt("+" + Printed(n) + rest) == Some(n)
  {
    hide ParseInt, Decimal, DigitsAt;
    if n < 0 {
      SignedAt('-', -n, rest);
      assert Printed(n) + rest == "-" + (Decimal(-n) + rest);
    } else {
      SignedAt('+', n, rest);
      assert "+" + Printed(n) + rest == "+" + (Decimal(n) + rest);
    }
  }

  lemma SignedAt(c: char, n: nat, rest: string)
    requires (c == '+' || c == '-') && (rest == "" || !IsDigit(rest[0]))
    ensures var m: int := n;
      var v := if c == '-' then -m else m;
      ParseInt([c] + (Decimal(n) + rest)) == if INT_MIN <= v <= INT_MAX then Some(v) else None
    ensures ParseInt(Decimal(n) + rest) == if n <= INT_MAX then Some(n) else None
  {
    hide ParseInt, Decimal, DigitsAt;
    var digits := Decimal(n) + rest;
    var signed := [c] + digits;
    assert digits[0] == Decimal(n)[0];
    SignAt(c, digits);
    assert signed[1..] == digits && digits[0..] == digits;
    NumberAt(signed, 1, n, rest);
    NumberAt(digits, 0, n, rest);
  }

  lemma BlankShifts(c: char, s: string)
    requires IsBlank(c)
    ensures DigitsAt([c] + s) == 1 + DigitsAt(s) && NumberEnd([c] + s) == 1 + NumberEnd(s)
    ensures DigitsAt(s) <= NumberEnd(s)
  {
    hide SignAhead, DigitsAhead;
    var t, i, j := [c] + s, BlanksAhead(s), DigitsAt(s);
    assert t[1..] == s;
    assert BlanksAhead(t) == 1 + i;
    assert t[1 + i..] == s[i..];
    assert t[1 + j..] == s[j..];
  }

  /** Blanks before a number do not matter. */
  lemma BlankSkipped(c: char, s: string)
    requires IsBlank(c)
    ensures ParseInt([c] + s) == ParseInt(s)
  {
    hide DigitsAt, NumberEnd, NumberOf;
    BlankShifts(c, s);
    var t, i, n := [c] + s, DigitsAt(s), NumberEnd(s);
    assert t[1 + i..1 + n] == s[i..n];
    assert i == 0 ==> t[i] != '-';
    assert i > 0 ==> t[i] == s[i - 1];
  }

  /** Position of the first delimiter, or the length. */
  function Find(s: string, d: char): (i: nat)
    ensures i <= |s| && d !in s[..i] && (i < |s| ==> s[i] == d)
  {
    if s == "" || s[0] == d then 0 else
      var j := Find(s[1..], d);
      assert s[..1 + j] == [s[0]] + s[1..][..j];
      1 + j
  }

  lemma {:induction false} FindIs(s: string, d: char, i: nat)
    requires i <= |s| && d !in s[..i] && (i < |s| ==> s[i] == d)
    ensures Find(s, d) == i
  {
    if i != 0 {
      assert s[..i] == [s[0]] + s[1..][..i - 1];
      assert s[0] in s[..i];
      FindIs(s[1..], d, i - 1);
    }
  }

  /** The fields that a getline loop with delimiter `d` yields. */
  function Fields(s: string, d: char): (r: seq<string>)
    decreases |s|
  {
    if s == "" then [] else
      var i := Find(s, d);
      if i == |s| then [s] else [s[..i]] + Fields(s[i + 1..], d)
  }

  lemma FieldsOfNothing(d: char)
    ensures Fields("", d) == []
  {
  }

  /** One round of the getline loop: the field, and what is left of the text. */
  lemma FieldsStep(s: string, d: char)
    requires s != ""
    ensures var i := Find(s, d);
      Fields(s, d) == [s[..i]] + Fields(if i == |s| then "" else s[i + 1..], d)
  {
    assert s[..|s|] == s;
  }

  /** Fields separated by `d`. */
  function Join(fields: seq<string>, d: char): (s: string) {
    if fields == [] then ""
    else if |fields| == 1 then fields[0]
    else fields[0] + [d] + Join(fields[1..], d)
  }

  ghost predicate Clean(s: string, d: char) {
    s != "" && d !in s
  }

  /** Joining non-empty fields free of the delimiter is undone by the getline loop. */
  lemma {:induction false} FieldsOfJoin(fields: seq<string>, d: char)
    requires forall i :: 0 <= i < |fields| ==> Clean(fields[i], d)
    ensures Fields(Join(fields, d), d) == fields
  {
    if fields == [] {
    } else if |fields| == 1 {
      assert Clean(fields[0], d);
      assert fields[0][..|fields[0]|] == fields[0];
      FindIs(fields[0], d, |fields[0]|);
    } else {
      assert Clean(fields[0], d);
      FieldsOfJoin(fields[1..], d);
      var s := Join(fields, d);
      var n := |fields[0]|;
      assert s[..n] == fields[0] && s[n + 1..] == Join(fields[1..], d);
      FindIs(s, d, n);
    }
  }

  /** Appending one more field, as the placement loop's text grows. */
  lemma {:induction false} JoinSnoc(fields: seq<string>, last: string, d: char)
    ensures fields != [] ==> Join(fields + [last], d) == Join(fields, d) + [d] + last
    ensures fields == [] ==> Join(fields + [last], d) == last
  {
    if |fields| == 1 {
      assert (fields + [last])[1..] == [last];
    } else if fields != [] {
      JoinSnoc(fields[1..], last, d);
      assert (fields + [last])[1..] == fields[1..] + [last];
    }
  }

  /** The last field is what follows the last delimiter. */
  lemma {:induction false} LastField(s: string, t: string, d: char)
    requires Clean(t, d)
    ensures var r := Fields(s + [d] + t, d); r != [] && r[|r| - 1] == t
    decreases |s|
  {
    var text := s + [d] + t;
    var i := Find(s, d);
    hide Fields, Find;
    assert text[..i] == s[..i] && text[i] == d;
    FindIs(text, d, i);
    FieldsStep(text, d);
    if i == |s| {
      assert text[i + 1..] == t;
      FindIs(t, d, |t|);
      assert t[..|t|] == t;
      FieldsStep(t, d);
      FieldsOfNothing(d);
    } else {
      LastField(s[i + 1..], t, d);
      assert text[i + 1..] == s[i + 1..] + [d] + t;
    }
  }

  /** Position of the last delimiter, or the length. */
  function FindLast(s: string, d: char): (i: nat)
    ensures i <= |s| && (i < |s| ==> s[i] == d && d !in s[i + 1..]) && (i == |s| ==> d !in s)
  {
    if s == "" then 0
    else if s[|s| - 1] == d then |s| - 1
    else
      var n := |s| - 1;
      var j := FindLast(s[..n], d);
      if j == n then |s| else
        assert s[j + 1..] == s[..n][j + 1..] + [s[n]];
        j
  }

  lemma InTail(s: string, j: nat, i: nat)
    requires j < i < |s|
    ensures s[i] in s[j + 1..]
  {
    assert s[j + 1..][i - j - 1] == s[i];
  }

  lemma FindLastIs(s: string, d: char, i: nat)
    requires i < |s| && s[i] == d && d !in s[i + 1..]
    ensures FindLast(s, d) == i
  {
    var j := FindLast(s, d);
    forall k: nat | i < k < |s| ensures s[k] != d {
      InTail(s, i, k);
    }
    forall k: nat | j < k < |s| ensures s[k] != d {
      InTail(s, j, k);
    }
  }
}
