/**
 Coercion of the `Amount` column's text to a number, in integer cents.

 The accepted syntax is the decimal subset of what a numeric conversion of a
 spreadsheet cell reads: surrounding blanks (space, tab, line breaks, form
 feed), an optional sign, digits and an optional decimal point followed by at
 most two digits, with at least one digit in all. Anything else is unparsable.
 */
module Amount {
  import opened Wrappers
  import opened Text

  predicate IsDigit(c: char)
  {
    '0' <= c <= '9'
  }

  predicate AllDigits(s: string)
  {
    forall i :: 0 <= i < |s| ==> IsDigit(s[i])
  }

  /* Only digits and decimal points. */
  predicate DigitsAndPoints(s: string)
  {
    forall i :: 0 <= i < |s| ==> IsDigit(s[i]) || s[i] == '.'
  }

  /* At least one decimal digit. */
  predicate HasDigit(s: string)
  {
    exists k :: 0 <= k < |s| && IsDigit(s[k])
  }

  /* Only digits and decimal points, after at most one leading sign. */
  predicate SignedChars(t: string)
  {
    forall i :: 0 <= i < |t| ==> IsDigit(t[i]) || t[i] == '.' || (i == 0 && (t[i] == '-' || t[i] == '+'))
  }

  function DigitValue(c: char): (d: nat)
    requires IsDigit(c)
    ensures d <= 9
  {
    c as int - '0' as int
  }

  function DigitChar(d: nat): (c: char)
    requires d <= 9
    ensures IsDigit(c) && DigitValue(c) == d
  {
    ('0' as int + d) as char
  }

  /* The value of a string of decimal digits, most significant first. */
  function DigitsValue(s: string): nat
    requires AllDigits(s)
  {
    if s == [] then 0 else DigitsValue(s[..|s| - 1]) * 10 + DigitValue(s[|s| - 1])
  }

  /* Position of the first '.', or the length when there is none. */
  function IndexOfDot(s: string): (k: nat)
    ensures k <= |s|
    ensures k < |s| ==> s[k] == '.'
    ensures forall i :: 0 <= i < k ==> s[i] != '.'
  {
    if s == [] then 0
    else if s[0] == '.' then 0
    else 1 + IndexOfDot(s[1..])
  }

  /* Cents denoted by the (at most two) digits after the decimal point. */
  function FractionCents(f: string): (c: nat)
    requires AllDigits(f) && |f| <= 2
    ensures c < 100
  {
    if |f| == 0 then 0
    else if |f| == 1 then DigitValue(f[0]) * 10
    else DigitValue(f[0]) * 10 + DigitValue(f[1])
  }

  /* The number with integer digits `whole` and fraction digits `frac`. */
  function DecimalParts(whole: string, frac: string): (r: Option<nat>)
    ensures r.Some? ==> AllDigits(whole) && AllDigits(frac) && |whole| + |frac| > 0 && |frac| <= 2
  {
    if AllDigits(whole) && AllDigits(frac) && |frac| <= 2 && |whole| + |frac| > 0 then
      Some(DigitsValue(whole) * 100 + FractionCents(frac))
    else
      None
  }

  /* An unsigned decimal: digits, then optionally '.' and up to two digits. */
  function ParseUnsigned(s: string): (r: Option<nat>)
    ensures r.Some? ==> |s| > 0 && DigitsAndPoints(s)
    ensures r.Some? ==> Count(s, '.') <= 1
    ensures r.Some? ==> HasDigit(s) && |s| <= IndexOfDot(s) + 3
  {
    var k := IndexOfDot(s);
    var r := DecimalParts(s[..k], if k < |s| then s[k + 1..] else "");
    if r.Some? then
      DotsOfNumber(s, k);
      SomeDigit(s, k);
      r
    else
      r
  }

  /* A number has a digit before or after its point. */
  lemma SomeDigit(s: string, k: nat)
    requires k <= |s|
    requires forall i :: 0 <= i < k ==> IsDigit(s[i])
    requires k < |s| ==> forall i :: k < i < |s| ==> IsDigit(s[i])
    requires k > 0 || k + 1 < |s|
    ensures HasDigit(s)
  {
    if k > 0 {
      assert IsDigit(s[0]);
    } else {
      assert IsDigit(s[k + 1]);
    }
  }

  lemma DotsOfNumber(s: string, k: nat)
    requires k <= |s|
    requires forall i :: 0 <= i < k ==> IsDigit(s[i])
    requires k < |s| ==> s[k] == '.' && forall i :: k < i < |s| ==> IsDigit(s[i])
    ensures DigitsAndPoints(s)
    ensures Count(s, '.') <= 1
  {
    if k == |s| {
      assert '.' !in s;
    } else {
      var w, p, f := s[..k], s[..k + 1], s[k + 1..];
      assert '.' !in w && '.' !in f;
      assert p == w + [s[k]] && s == p + f;
      CountConcat(w, [s[k]], '.');
      CountConcat(p, f, '.');
    }
  }

  /* A number with an optional leading sign: only a sign in front, digits
     and '.' can parse. */
  function ParseSigned(t: string): (r: Option<int>)
    ensures r.Some? ==> |t| > 0
    ensures r.Some? ==> SignedChars(t)
  {
    if |t| > 0 && (t[0] == '-' || t[0] == '+') then
      match ParseUnsigned(t[1..])
      case None => None
      case Some(v) =>
        assert forall i :: 1 <= i < |t| ==> t[i] == t[1..][i - 1];
        var n: int := if t[0] == '-' then -(v as int) else v;
        Some(n)
    else
      ParseUnsigned(t)
  }

  /* The blanks the numeric reader skips around a number: space, tab, line
     feed, vertical tab, form feed and carriage return. The information
     separators that `str.strip()` also removes are not among them. */
  predicate IsNumberSpace(c: char)
  {
    c == ' ' || ('\t' <= c <= '\r')
  }

  /* Some character of `s` is whitespace to `str.strip()` but not a number
     blank: one of the four information separators. */
  predicate HasSeparator(s: string)
  {
    exists k :: 0 <= k < |s| && IsSpace(s[k]) && !IsNumberSpace(s[k])
  }

  /* `pd.to_numeric` on one cell, in cents: `None` when the text, once its
     surrounding blanks are ignored, is not a number. Text holding an
     information separator is never a number: inside it breaks the digits,
     and at either end it is not skipped. */
  function ParseAmount(s: string): Option<int>
  {
    if HasSeparator(s) then None else ParseSigned(Trim(s))
  }

  /* A cell that reads as a number holds only number blanks, digits, '.' and
     signs; in particular no information separator. */
  lemma AmountCharacters(s: string)
    requires ParseAmount(s).Some?
    ensures forall k :: 0 <= k < |s| ==>
      IsNumberSpace(s[k]) || IsDigit(s[k]) || s[k] == '.' || s[k] == '-' || s[k] == '+'
  {
    TrimCutsSpace(s);
    NumberText(s, Trim(s), |s| - |TrimStart(s)|);
  }

  /* Text made of number characters with only number blanks around it. */
  lemma NumberText(s: string, t: string, i: nat)
    requires OccursAt(s, t, i) && SignedChars(t)
    requires SpaceBetween(s, 0, i) && SpaceBetween(s, i + |t|, |s|) && !HasSeparator(s)
    ensures forall k :: 0 <= k < |s| ==>
      IsNumberSpace(s[k]) || IsDigit(s[k]) || s[k] == '.' || s[k] == '-' || s[k] == '+'
  {
    forall k | 0 <= k < |s|
      ensures IsNumberSpace(s[k]) || IsDigit(s[k]) || s[k] == '.' || s[k] == '-' || s[k] == '+'
    {
      if i <= k < i + |t| {
        assert s[k] == t[k - i];
      } else {
        assert IsSpace(s[k]);
      }
    }
  }

  /* Decimal digits of `k`, most significant first, without leading zeros. */
  function DigitString(k: nat): (s: string)
    ensures |s| > 0 && AllDigits(s)
    ensures DigitsValue(s) == k
  {
    if k < 10 then [DigitChar(k)]
    else
      var s := DigitString(k / 10) + [DigitChar(k % 10)];
      assert s[..|s| - 1] == DigitString(k / 10);
      s
  }

  /* A non-negative amount in cents as units, '.', and two cent digits. */
  function UnsignedText(m: nat): (s: string)
    ensures |s| > 0 && IsDigit(s[0]) && IsDigit(s[|s| - 1])
  {
    DigitString(m / 100) + ("." + [DigitChar(m % 100 / 10), DigitChar(m % 100 % 10)])
  }

  /* An amount in cents written as a decimal with two fraction digits, the way
     a spreadsheet cell shows money: "-1234.05" for -123405. */
  function FormatCents(n: int): (s: string)
  {
    if n < 0 then "-" + UnsignedText(-n) else UnsignedText(n)
  }

  /* Every amount a cell can show as a two-decimal number reads back as itself. */
  lemma ParseFormat(n: int)
    ensures ParseAmount(FormatCents(n)) == Some(n)
  {
    var s := FormatCents(n);
    var m := if n < 0 then -n else n;
    UnsignedOfText(m);
    FormatHasNoSeparator(n, m);
    assert Stripped(s);
    TrimIdentity(s);
    SignedForms(s);
    if n < 0 {
      assert s[1..] == UnsignedText(m);
    }
  }

  lemma FormatHasNoSeparator(n: int, m: nat)
    requires m == if n < 0 then -n else n
    requires ParseUnsigned(UnsignedText(m)).Some?
    ensures !HasSeparator(FormatCents(n))
  {
    var u := UnsignedText(m);
    if n < 0 {
      NoSeparatorInNumber("-", u);
    } else {
      NoSeparatorInNumber("", u);
    }
  }

  /* A sign (or nothing) followed by digits and points holds no separator. */
  lemma NoSeparatorInNumber(sign: string, u: string)
    requires sign == "" || sign == "-"
    requires DigitsAndPoints(u)
    ensures !HasSeparator(sign + u)
  {
    var s := sign + u;
    forall k | 0 <= k < |s|
      ensures !IsSpace(s[k])
    {
      if k >= |sign| {
        assert s[k] == u[k - |sign|];
      }
    }
  }

  /* A leading '-' negates the unsigned reading of the rest, a leading '+'
     keeps it, and text that does not start with a sign reads as unsigned. */
  lemma SignedForms(t: string)
    ensures |t| > 0 && t[0] == '-' ==>
      ParseSigned(t) == if ParseUnsigned(t[1..]).Some? then Some(-(ParseUnsigned(t[1..]).value as int)) else None
    ensures |t| > 0 && t[0] == '+' ==> ParseSigned(t) == ParseUnsigned(t[1..])
    ensures t == [] || (t[0] != '-' && t[0] != '+') ==> ParseSigned(t) == ParseUnsigned(t)
  {
  }

  /* A run of digits reads as that many whole units. */
  lemma ParseWhole(w: string)
    requires |w| > 0 && AllDigits(w)
    ensures ParseUnsigned(w) == Some(DigitsValue(w) * 100)
  {
    assert IndexOfDot(w) == |w|;
    assert w[..|w|] == w;
  }

  /* Digits, a point and at most two digits read as units and cents, as long
     as there is a digit on some side of the point ("12.", ".5" and "12.05"). */
  lemma ParseDecimal(w: string, f: string)
    requires AllDigits(w) && AllDigits(f) && |f| <= 2 && |w| + |f| > 0
    ensures ParseUnsigned(w + ("." + f)) == Some(DigitsValue(w) * 100 + FractionCents(f))
  {
    SplitAtDot(w, f);
    DecimalValue(w, f);
  }

  lemma DecimalValue(w: string, f: string)
    requires AllDigits(w) && AllDigits(f) && |f| <= 2 && |w| + |f| > 0
    ensures DecimalParts(w, f) == Some(DigitsValue(w) * 100 + FractionCents(f))
  {
  }

  lemma UnsignedOfText(m: nat)
    ensures ParseUnsigned(UnsignedText(m)) == Some(m)
  {
    var w := DigitString(m / 100);
    var f := [DigitChar(m % 100 / 10), DigitChar(m % 100 % 10)];
    UnsignedOfFormat(w, f);
    CentsDigits(m);
  }

  /* A number of cents is its whole units followed by its two cent digits. */
  lemma CentsDigits(m: nat)
    ensures m / 100 * 100 + m % 100 / 10 * 10 + m % 100 % 10 == m
  {
    var r := m % 100;
    assert m == m / 100 * 100 + r;
    assert r == r / 10 * 10 + r % 10;
  }

  lemma UnsignedOfFormat(w: string, f: string)
    requires |w| > 0 && AllDigits(w) && |f| == 2 && AllDigits(f)
    ensures ParseUnsigned(w + ("." + f)) == Some(DigitsValue(w) * 100 + DigitValue(f[0]) * 10 + DigitValue(f[1]))
  {
    SplitAtDot(w, f);
  }

  lemma SplitAtDot(w: string, f: string)
    requires AllDigits(w)
    ensures ParseUnsigned(w + ("." + f)) == DecimalParts(w, f)
  {
    var u := w + ("." + f);
    DotAfterDigits(w, "." + f);
    assert u[..|w|] == w;
    assert u[|w| + 1..] == f;
  }

  lemma {:induction false} DotAfterDigits(w: string, rest: string)
    requires AllDigits(w) && |rest| > 0 && rest[0] == '.'
    ensures IndexOfDot(w + rest) == |w|
  {
    if w != [] {
      assert (w + rest)[1..] == w[1..] + rest;
      DotAfterDigits(w[1..], rest);
    }
  }
}
