/** How a number is shown in a cell: two decimals, then trailing zeros and a trailing dot trimmed off. */
module Cell {
  import opened Rfc3339
  import opened Wrappers

  /** A float rounded to hundredths; the sign is kept apart, since a negative zero prints its sign. */
  datatype Hundredths = Hundredths(negative: bool, amount: nat)

  /** `%.2f`. */
  function TwoDecimals(h: Hundredths): string {
    (if h.negative then "-" else "") + Decimal(h.amount / 100) + "." + Two(h.amount % 100)
  }

  /** `strings.TrimRight` for a one-character cut set. */
  function TrimRight(s: string, c: char): string {
    if s != [] && s[|s| - 1] == c then TrimRight(s[..|s| - 1], c) else s
  }

  /** `fmtCell` for a number. */
  function FmtCell(h: Hundredths): string { TrimRight(TrimRight(TwoDecimals(h), '0'), '.') }

  // ---------- reading a cell ----------

  function ReadDigits(s: string): Option<nat> {
    if s == [] then None
    else if !IsDigit(s[|s| - 1]) then None
    else if |s| == 1 then Some(DigitValue(s[0]))
    else
      match ReadDigits(s[..|s| - 1])
      case Some(n) => Some(10 * n + DigitValue(s[|s| - 1]))
      case None => None
  }

  /** The position of the first dot, or the length. */
  function DotAt(s: string): (i: nat)
    ensures i <= |s|
    ensures forall k :: 0 <= k < i ==> s[k] != '.'
    ensures i < |s| ==> s[i] == '.'
  {
    if s == [] || s[0] == '.' then 0 else 1 + DotAt(s[1..])
  }

  /** A whole part, and a rest that is empty or a dot with one or two digits. */
  function ReadParts(whole: string, rest: string): Option<nat> {
    match ReadDigits(whole)
    case None => None
    case Some(n) =>
      if rest == [] then Some(100 * n)
      else if |rest| == 2 && IsDigit(rest[1]) then Some(100 * n + 10 * DigitValue(rest[1]))
      else if |rest| == 3 && IsDigit(rest[1]) && IsDigit(rest[2]) then
        Some(100 * n + 10 * DigitValue(rest[1]) + DigitValue(rest[2]))
      else None
  }

  /** A decimal number with at most two digits after an optional dot. */
  function ReadUnsigned(s: string): Option<nat> { ReadParts(s[..DotAt(s)], s[DotAt(s)..]) }

  function ReadCell(s: string): Option<Hundredths> {
    var negative := s != [] && s[0] == '-';
    match ReadUnsigned(if negative then s[1..] else s)
    case Some(n) => Some(Hundredths(negative, n))
    case None => None
  }

  // ---------- no value is lost ----------

  lemma {:induction false} ReadInvertsDecimal(n: nat)
    ensures ReadDigits(Decimal(n)) == Some(n)
  {
    if n < 10 {
    } else {
      ReadInvertsDecimal(n / 10);
      assert Decimal(n)[..|Decimal(n)| - 1] == Decimal(n / 10);
    }
  }

  /** What follows the whole part once the trimming is done. */
  function Rest(cents: nat): string
    requires cents < 100
  {
    if cents == 0 then []
    else if cents % 10 == 0 then ['.', Digit(cents / 10)]
    else ['.', Digit(cents / 10), Digit(cents % 10)]
  }

  /** The whole part with its sign. */
  function Whole(h: Hundredths): string { (if h.negative then "-" else "") + Decimal(h.amount / 100) }

  lemma TrimLast(s: string, last: char, c: char)
    ensures TrimRight(s + [last], c) == if last == c then TrimRight(s, c) else s + [last]
  {
    assert (s + [last])[..|s|] == s;
  }

  lemma WholeEndsInDigit(h: Hundredths)
    ensures Whole(h) != [] && Whole(h)[|Whole(h)| - 1] != '.'
  {
  }

  lemma TrimBoth(whole: string, d1: char, d2: char)
    requires whole != [] && whole[|whole| - 1] != '.' && IsDigit(d1) && IsDigit(d2)
    ensures
      TrimRight(TrimRight(whole + ['.'] + [d1] + [d2], '0'), '.') ==
        if d2 != '0' then whole + ['.', d1, d2] else if d1 != '0' then whole + ['.', d1] else whole
  {
    hide *;
    var dotted := whole + ['.'];
    var one := dotted + [d1];
    assert whole + ['.', d1] == one && whole + ['.', d1, d2] == one + [d2];
    assert whole + ['.'] + [d1] + [d2] == one + [d2];
    assert d1 != '.' && d2 != '.' by {
      NoDot(d1);
      NoDot(d2);
    }
    TrimLast(one, d2, '0');
    TrimLast(one, d2, '.');
    TrimLast(dotted, d1, '0');
    TrimLast(dotted, d1, '.');
    TrimLast(whole, '.', '0');
    TrimLast(whole, '.', '.');
    TrimNothing(whole, '.');
  }

  lemma NoDot(c: char)
    requires IsDigit(c)
    ensures c != '.'
  {
  }

  lemma TrimNothing(s: string, c: char)
    requires s != [] && s[|s| - 1] != c
    ensures TrimRight(s, c) == s
  {
  }

  /** The trimming drops zeros of the fraction only, and the dot exactly when the fraction is all zeros. */
  lemma Shape(h: Hundredths)
    ensures FmtCell(h) == Whole(h) + Rest(h.amount % 100)
  {
    var whole, cents := Whole(h), h.amount % 100;
    var d1, d2 := Digit(cents / 10), Digit(cents % 10);
    assert TwoDecimals(h) == whole + ['.'] + [d1] + [d2];
    WholeEndsInDigit(h);
    hide Whole, TwoDecimals, TrimRight;
    TrimBoth(whole, d1, d2);
    assert d2 == '0' <==> cents % 10 == 0;
    assert d1 == '0' <==> cents / 10 == 0;
  }

  lemma DotAfterDigits(digits: string, rest: string)
    requires forall i :: 0 <= i < |digits| ==> IsDigit(digits[i])
    requires rest == [] || rest[0] == '.'
    ensures DotAt(digits + rest) == |digits|
    ensures (digits + rest)[..|digits|] == digits && (digits + rest)[|digits|..] == rest
  {
    var s := digits + rest;
    assert forall k :: 0 <= k < |digits| ==> s[k] == digits[k] && s[k] != '.';
    assert rest != [] ==> s[|digits|] == '.';
  }

  lemma ReadInvertsRest(whole: string, n: nat, cents: nat)
    requires ReadDigits(whole) == Some(n) && cents < 100
    ensures ReadParts(whole, Rest(cents)) == Some(100 * n + cents)
  {
    hide ReadDigits, DigitValue, Digit;
  }

  lemma ReadInvertsParts(amount: nat)
    ensures ReadParts(Decimal(amount / 100), Rest(amount % 100)) == Some(amount)
  {
    hide *;
    ReadInvertsDecimal(amount / 100);
    ReadInvertsRest(Decimal(amount / 100), amount / 100, amount % 100);
  }

  lemma ReadInvertsUnsigned(amount: nat)
    ensures ReadUnsigned(Decimal(amount / 100) + Rest(amount % 100)) == Some(amount)
  {
    ReadInvertsParts(amount);
    var digits, rest := Decimal(amount / 100), Rest(amount % 100);
    assert rest == [] || rest[0] == '.';
    hide Decimal, ReadDigits, Rest, ReadParts, DotAt;
    DotAfterDigits(digits, rest);
  }

  /** Every number of hundredths is read back from its cell, sign included, so no digit of value is trimmed. */
  lemma ReadInvertsCell(h: Hundredths)
    ensures ReadCell(FmtCell(h)) == Some(h)
  {
    Shape(h);
    ReadInvertsUnsigned(h.amount);
    var digits := Decimal(h.amount / 100);
    assert IsDigit(digits[0]) && FmtCell(h) == (if h.negative then "-" else "") + digits + Rest(h.amount % 100);
    hide Decimal, Rest, ReadUnsigned, FmtCell;
    ReadSigned(FmtCell(h), h.negative, digits + Rest(h.amount % 100));
  }

  lemma ReadSigned(s: string, negative: bool, unsigned: string)
    requires s == (if negative then "-" else "") + unsigned && unsigned != [] && unsigned[0] != '-'
    ensures ReadCell(s) ==
      match ReadUnsigned(unsigned) case Some(n) => Some(Hundredths(negative, n)) case None => None
  {
    if negative {
      assert s[1..] == unsigned;
    } else {
      assert s == unsigned;
    }
  }

  /** Different numbers have different cells. */
  lemma CellInjective(a: Hundredths, b: Hundredths)
    requires FmtCell(a) == FmtCell(b)
    ensures a == b
  {
    ReadInvertsCell(a);
    ReadInvertsCell(b);
  }

  /** The form is canonical: it ends in a digit, and in a digit other than 0 whenever it has a dot. */
  lemma CellCanonical(h: Hundredths)
    ensures
      var s := FmtCell(h);
      && s != [] && IsDigit(s[|s| - 1])
      && ('.' in s ==> s[|s| - 1] != '0')
  {
    Shape(h);
    if h.amount % 100 == 0 {
      assert FmtCell(h) == Whole(h);
      assert forall i :: 0 <= i < |Whole(h)| ==> Whole(h)[i] != '.';
    }
  }
}
