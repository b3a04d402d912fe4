/**
 * Decimal text of integers, as Ruby's Integer#to_s writes it (an optional
 * '-' followed by digits without leading zeros), and a reader that takes
 * such text apart again: splitting on a separator and reading each field.
 */
module Text {
  import opened Outcome

  predicate IsDigit(c: char) {
    '0' <= c <= '9'
  }

  predicate AllDigits(s: string) {
    forall i :: 0 <= i < |s| ==> IsDigit(s[i])
  }

  function DigitValue(c: char): nat
    requires IsDigit(c)
  {
    c as int - '0' as int
  }

  function DigitChar(d: nat): (c: char)
    requires d < 10
    ensures IsDigit(c) && DigitValue(c) == d
  {
    ('0' as int + d) as char
  }

  /** Digits without a leading zero, unless they are the single digit 0. */
  predicate IsCanonicalDigits(s: string) {
    |s| > 0 && AllDigits(s) && (|s| > 1 ==> s[0] != '0')
  }

  /** Decimal digits of `n`, most significant first. */
  function NatToString(n: nat): (r: string)
    ensures IsCanonicalDigits(r)
    ensures r[0] == '0' <==> n == 0
    decreases n
  {
    if n < 10 then [DigitChar(n)] else NatToString(n / 10) + [DigitChar(n % 10)]
  }

  /** The number a string of digits denotes. */
  function DigitsValue(s: string): nat
    requires AllDigits(s)
  {
    if s == [] then 0 else DigitsValue(s[..|s| - 1]) * 10 + DigitValue(s[|s| - 1])
  }

  lemma {:induction false} NatToStringReadsBack(n: nat)
    ensures DigitsValue(NatToString(n)) == n
    decreases n
  {
    if n >= 10 {
      NatToStringReadsBack(n / 10);
      var r := NatToString(n);
      assert r[..|r| - 1] == NatToString(n / 10);
    }
  }

  /** Canonical digits that do not begin with 0 denote a positive number. */
  lemma {:induction false} LeadingDigitPositive(d: string)
    requires IsCanonicalDigits(d) && d[0] != '0'
    ensures DigitsValue(d) >= 1
    decreases |d|
  {
    if |d| > 1 {
      var front := d[..|d| - 1];
      assert front[0] == d[0];
      LeadingDigitPositive(front);
    }
  }

  /** Canonical digits are exactly what NatToString writes for their value. */
  lemma {:induction false} CanonicalDigitsReadBack(d: string)
    requires IsCanonicalDigits(d)
    ensures NatToString(DigitsValue(d)) == d
    decreases |d|
  {
    var last := d[|d| - 1];
    var front := d[..|d| - 1];
    if |d| == 1 {
      assert front == [];
      assert DigitChar(DigitValue(last)) == last;
    } else {
      assert front[0] == d[0];
      LeadingDigitPositive(front);
      CanonicalDigitsReadBack(front);
      var n := DigitsValue(d);
      assert n / 10 == DigitsValue(front) && n % 10 == DigitValue(last);
      assert DigitChar(DigitValue(last)) == last;
      assert d == front + [last];
    }
  }

  /**
   * A canonical decimal integer literal: digits without a leading zero,
   * optionally after a minus sign that is not followed by 0.
   */
  predicate IsIntLiteral(s: string) {
    if |s| > 0 && s[0] == '-' then IsCanonicalDigits(s[1..]) && s[1] != '0' else IsCanonicalDigits(s)
  }

  function ReadInt(s: string): int
    requires IsIntLiteral(s)
  {
    if s[0] == '-' then -(DigitsValue(s[1..]) as int) else DigitsValue(s)
  }

  /** Integer#to_s: the literal that reads back as `x` and holds no ':'. */
  function IntToString(x: int): (r: string)
    ensures IsIntLiteral(r) && ReadInt(r) == x
    ensures ':' !in r
  {
    if x < 0 then
      NatToStringReadsBack(-x);
      var digits := NatToString(-x);
      assert ("-" + digits)[1..] == digits;
      "-" + digits
    else
      NatToStringReadsBack(x);
      NatToString(x)
  }

  /** Every canonical literal is the one IntToString writes for its value. */
  lemma LiteralReadsBack(s: string)
    requires IsIntLiteral(s)
    ensures IntToString(ReadInt(s)) == s
  {
    if s[0] == '-' {
      LeadingDigitPositive(s[1..]);
      CanonicalDigitsReadBack(s[1..]);
      assert s == "-" + s[1..];
    } else {
      CanonicalDigitsReadBack(s);
    }
  }

  function IndexOf(s: string, c: char): (i: nat)
    requires c in s
    ensures i < |s| && s[i] == c && c !in s[..i]
  {
    if s[0] == c then 0
    else
      var j := IndexOf(s[1..], c);
      assert s[..j + 1] == [s[0]] + s[1..][..j];
      j + 1
  }

  /** The fields of `s` between occurrences of `sep`, empty fields kept. */
  function Split(s: string, sep: char): (r: seq<string>)
    ensures |r| >= 1
    decreases |s|
  {
    if sep !in s then [s]
    else
      var i := IndexOf(s, sep);
      [s[..i]] + Split(s[i + 1..], sep)
  }

  /** The fields joined back together with `sep` between them. */
  function Join(fields: seq<string>, sep: char): string
    requires |fields| >= 1
  {
    if |fields| == 1 then fields[0] else fields[0] + [sep] + Join(fields[1..], sep)
  }

  /** Joining the fields of a split gives back the text. */
  lemma {:induction false} JoinSplit(s: string, sep: char)
    ensures Join(Split(s, sep), sep) == s
    decreases |s|
  {
    if sep in s {
      var i := IndexOf(s, sep);
      var rest := s[i + 1..];
      JoinSplit(rest, sep);
      SplitAtFirst(s, sep);
      JoinCons(s[..i], Split(rest, sep), sep);
      assert s == s[..i] + [sep] + rest;
    }
  }

  lemma SplitAtFirst(s: string, sep: char)
    requires sep in s
    ensures Split(s, sep) == [s[..IndexOf(s, sep)]] + Split(s[IndexOf(s, sep) + 1..], sep)
  {
  }

  lemma JoinCons(field: string, fields: seq<string>, sep: char)
    requires |fields| >= 1
    ensures Join([field] + fields, sep) == field + [sep] + Join(fields, sep)
  {
    assert ([field] + fields)[1..] == fields;
  }

  lemma SplitAfterField(a: string, sep: char, b: string)
    requires sep !in a
    ensures Split(a + [sep] + b, sep) == [a] + Split(b, sep)
  {
    var s := a + [sep] + b;
    assert s[|a|] == sep;
    var i := IndexOf(s, sep);
    assert s[..i] == a;
    assert s[i + 1..] == b;
  }

  /** Reads every field as an integer literal; None when one is not. */
  function ReadAll(fields: seq<string>): (r: Option<seq<int>>)
    ensures r.Some? <==> forall i :: 0 <= i < |fields| ==> IsIntLiteral(fields[i])
    ensures r.Some? ==> |r.value| == |fields|
    ensures r.Some? ==> forall i :: 0 <= i < |fields| ==> r.value[i] == ReadInt(fields[i])
  {
    if fields == [] then Some([])
    else if !IsIntLiteral(fields[0]) then None
    else
      match ReadAll(fields[1..])
      case None => None
      case Some(rest) => Some([ReadInt(fields[0])] + rest)
  }

  /** The integers of a colon-separated text. */
  function ReadFields(text: string): Option<seq<int>> {
    ReadAll(Split(text, ':'))
  }

  /** Splitting three fields joined by ':' gives them back. */
  lemma JoinedFields(a: string, b: string, c: string)
    requires ':' !in a && ':' !in b && ':' !in c
    ensures Split(a + ":" + b + ":" + c, ':') == [a, b, c]
  {
    assert a + ":" + b + ":" + c == a + [':'] + (b + [':'] + c);
    SplitAfterField(a, ':', b + [':'] + c);
    SplitAfterField(b, ':', c);
  }

  lemma JoinThree(a: string, b: string, c: string, sep: char)
    ensures Join([a, b, c], sep) == a + [sep] + b + [sep] + c
  {
    assert [a, b, c][1..] == [b, c];
    assert [b, c][1..] == [c];
    assert Join([c], sep) == c;
    assert a + [sep] + (b + [sep] + c) == a + [sep] + b + [sep] + c;
  }

  /**
   * A text whose ':'-separated fields read back as x, y and z is the one
   * written from their IntToString literals: no other spelling reads as them.
   */
  lemma FieldsReadBack(text: string, x: int, y: int, z: int)
    requires ReadFields(text) == Some([x, y, z])
    ensures text == IntToString(x) + ":" + IntToString(y) + ":" + IntToString(z)
  {
    var fields := Split(text, ':');
    assert |fields| == 3;
    LiteralReadsBack(fields[0]);
    LiteralReadsBack(fields[1]);
    LiteralReadsBack(fields[2]);
    assert fields == [IntToString(x), IntToString(y), IntToString(z)];
    JoinSplit(text, ':');
    JoinThree(fields[0], fields[1], fields[2], ':');
  }

  /** Reading back three integers written by IntToString. */
  lemma ReadThree(x: int, y: int, z: int)
    ensures ReadAll([IntToString(x), IntToString(y), IntToString(z)]) == Some([x, y, z])
  {
    var fx, fy, fz := IntToString(x), IntToString(y), IntToString(z);
    ReadFirst(z, [], []);
    assert [fz] + [] == [fz] && [z] + [] == [z];
    ReadFirst(y, [fz], [z]);
    assert [fy] + [fz] == [fy, fz] && [y] + [z] == [y, z];
    ReadFirst(x, [fy, fz], [y, z]);
    assert [fx] + [fy, fz] == [fx, fy, fz] && [x] + [y, z] == [x, y, z];
  }

  lemma ReadFirst(x: int, rest: seq<string>, values: seq<int>)
    requires ReadAll(rest) == Some(values)
    ensures ReadAll([IntToString(x)] + rest) == Some([x] + values)
  {
    assert ([IntToString(x)] + rest)[1..] == rest;
  }
}
