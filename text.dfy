/**
 String helpers used by the expense-report pipeline: removing double quotes,
 splitting on commas (with the semantics of Python's `str.split(",")`),
 whitespace trimming (`str.strip()`), ASCII lower-casing and substring search.
 */
module Text {

  /* Python's `str.isspace()` restricted to ASCII: tab, line feed, vertical tab,
     form feed, carriage return, the four information separators and space. */
  predicate IsSpace(c: char)
  {
    c == ' ' || ('\t' <= c <= '\r') || ('\U{1C}' <= c <= '\U{1F}')
  }

  /* Number of occurrences of `c` in `s`. */
  function Count(s: string, c: char): (n: nat)
    ensures n <= |s|
    ensures n == 0 <==> c !in s
  {
    if s == [] then 0 else (if s[0] == c then 1 else 0) + Count(s[1..], c)
  }

  /* `s.replace('"', "")`: every double-quote character removed, all other
     characters kept in order. */
  function StripQuotes(s: string): (r: string)
    ensures '"' !in r
  {
    if s == [] then []
    else if s[0] == '"' then StripQuotes(s[1..])
    else [s[0]] + StripQuotes(s[1..])
  }

  /* Quote removal works piece by piece, so the kept characters stay in their
     order. */
  lemma {:induction false} StripQuotesConcat(a: string, b: string)
    ensures StripQuotes(a + b) == StripQuotes(a) + StripQuotes(b)
  {
    if a == [] {
      assert a + b == b;
    } else {
      var x, y := StripQuotes(a[1..]), StripQuotes(b);
      StripQuotesConcat(a[1..], b);
      assert (a + b)[0] == a[0] && (a + b)[1..] == a[1..] + b;
      if a[0] != '"' {
        assert [a[0]] + (x + y) == ([a[0]] + x) + y;
      }
    }
  }

  /* Only quotes are removed: the result is shorter by the number of quotes,
     and every other character occurs as often as before. */
  lemma {:induction false} StripQuotesCounts(s: string)
    ensures |StripQuotes(s)| == |s| - Count(s, '"')
    ensures forall c :: c != '"' ==> Count(StripQuotes(s), c) == Count(s, c)
  {
    if s != [] {
      StripQuotesCounts(s[1..]);
    }
  }

  /* Python's `s.split(",")`: the pieces between commas, so an empty string
     gives one empty field and a trailing comma gives a trailing empty field. */
  function Split(s: string): (fields: seq<string>)
    ensures |fields| == Count(s, ',') + 1
    ensures forall i :: 0 <= i < |fields| ==> ',' !in fields[i]
    ensures forall i, c :: 0 <= i < |fields| && c in fields[i] ==> c in s
  {
    if s == [] then [""]
    else
      var rest := Split(s[1..]);
      assert forall c :: c in s[1..] ==> c in s;
      if s[0] == ',' then [""] + rest
      else
        assert forall c :: c in [s[0]] + rest[0] ==> c == s[0] || c in rest[0];
        [[s[0]] + rest[0]] + rest[1..]
  }

  /* `",".join(fields)`. */
  function Join(fields: seq<string>): (s: string)
    requires |fields| > 0
  {
    if |fields| == 1 then fields[0] else fields[0] + "," + Join(fields[1..])
  }

  /* Joining the fields of a split with commas gives back the string. */
  lemma {:induction false} JoinSplit(s: string)
    ensures Join(Split(s)) == s
  {
    if s != [] {
      var rest := Split(s[1..]);
      JoinSplit(s[1..]);
      if s[0] == ',' {
        assert Split(s) == [""] + rest;
        assert Join(Split(s)) == "" + "," + Join(rest);
      } else {
        if |rest| == 1 {
          assert Join(Split(s)) == [s[0]] + rest[0];
        } else {
          assert Split(s)[1..] == rest[1..];
          assert Join(Split(s)) == ([s[0]] + rest[0]) + "," + Join(rest[1..]);
          assert Join(rest) == rest[0] + "," + Join(rest[1..]);
        }
      }
    }
  }

  /* Splitting comma-free fields joined with commas gives back the fields. */
  lemma {:induction false} SplitJoin(fields: seq<string>)
    requires |fields| > 0
    requires forall i :: 0 <= i < |fields| ==> ',' !in fields[i]
    ensures Split(Join(fields)) == fields
  {
    if |fields| == 1 {
      SplitNoComma(fields[0]);
    } else {
      SplitJoin(fields[1..]);
      SplitFieldThenComma(fields[0], Join(fields[1..]));
      assert Join(fields) == fields[0] + ("," + Join(fields[1..]));
    }
  }

  lemma {:induction false} SplitNoComma(s: string)
    requires ',' !in s
    ensures Split(s) == [s]
  {
    if s != [] {
      SplitNoComma(s[1..]);
      assert [s[0]] + s[1..] == s;
    }
  }

  lemma {:induction false} SplitFieldThenComma(f: string, t: string)
    requires ',' !in f
    ensures Split(f + ("," + t)) == [f] + Split(t)
  {
    if f == [] {
      assert f + ("," + t) == "," + t;
      assert ("," + t)[1..] == t;
    } else {
      SplitFieldThenComma(f[1..], t);
      assert (f + ("," + t))[1..] == f[1..] + ("," + t);
      assert [f[0]] + f[1..] == f;
    }
  }

  /* Every character of `s` at a position from `lo` up to `hi` is whitespace. */
  predicate SpaceBetween(s: string, lo: int, hi: int)
  {
    forall k :: lo <= k < hi && 0 <= k < |s| ==> IsSpace(s[k])
  }

  /* `s.lstrip()`: the longest suffix of `s` that does not start with
     whitespace; everything dropped is whitespace. */
  function TrimStart(s: string): (r: string)
    ensures |r| <= |s| && r == s[|s| - |r|..]
    ensures SpaceBetween(s, 0, |s| - |r|)
    ensures r == [] || !IsSpace(r[0])
  {
    if s != [] && IsSpace(s[0]) then TrimStart(s[1..]) else s
  }

  /* `s.rstrip()`: the longest prefix of `s` that does not end with
     whitespace; everything dropped is whitespace. */
  function TrimEnd(s: string): (r: string)
    ensures |r| <= |s| && r == s[..|r|]
    ensures SpaceBetween(s, |r|, |s|)
    ensures r == [] || !IsSpace(r[|r| - 1])
  {
    if s != [] && IsSpace(s[|s| - 1]) then TrimEnd(s[..|s| - 1]) else s
  }

  /* `l` neither begins nor ends with whitespace. */
  predicate Stripped(l: string)
  {
    l == [] || (!IsSpace(l[0]) && !IsSpace(l[|l| - 1]))
  }

  /* `s.strip()`: a piece of `s` with neither leading nor trailing whitespace
     (TrimCutsSpace: where the piece sits and that only whitespace was cut
     off around it; TrimKeepsText: what it keeps). */
  function Trim(s: string): (r: string)
    ensures Stripped(r)
  {
    var t := TrimStart(s);
    var r := TrimEnd(t);
    StrippedPiece(t, r);
    r
  }

  lemma StrippedPiece(t: string, r: string)
    requires t == [] || !IsSpace(t[0])
    requires |r| <= |t| && r == t[..|r|]
    requires r == [] || !IsSpace(r[|r| - 1])
    ensures Stripped(r)
  {
    if r != [] {
      assert r[0] == t[0];
    }
  }

  lemma TrimmedPiece(s: string, t: string, r: string)
    requires |t| <= |s| && t == s[|s| - |t|..]
    requires |r| <= |t| && r == t[..|r|]
    ensures OccursAt(s, r, |s| - |t|)
  {
    assert s[|s| - |t|..][..|r|] == s[|s| - |t|..|s| - |t| + |r|];
  }

  /* What trimming cuts off on either side of the kept piece is whitespace. */
  lemma TrimCutsSpace(s: string)
    ensures OccursAt(s, Trim(s), |s| - |TrimStart(s)|)
    ensures SpaceBetween(s, 0, |s| - |TrimStart(s)|)
    ensures SpaceBetween(s, |s| - |TrimStart(s)| + |Trim(s)|, |s|)
  {
    var t := TrimStart(s);
    var r := TrimEnd(t);
    assert Trim(s) == r;
    TrimmedPiece(s, t, r);
    SpaceAfterPiece(s, t, r);
  }

  lemma SpaceAfterPiece(s: string, t: string, r: string)
    requires |t| <= |s| && t == s[|s| - |t|..]
    requires |r| <= |t| && SpaceBetween(t, |r|, |t|)
    ensures SpaceBetween(s, |s| - |t| + |r|, |s|)
  {
    var i := |s| - |t|;
    forall k | i + |r| <= k < |s|
      ensures IsSpace(s[k])
    {
      assert s[k] == t[k - i];
    }
  }

  /* Trimming removes whitespace only: every other character occurs in the
     result as often as in the input. */
  lemma TrimKeepsText(s: string, c: char)
    requires !IsSpace(c)
    ensures Count(Trim(s), c) == Count(s, c)
  {
    TrimStartKeepsText(s, c);
    TrimEndKeepsText(TrimStart(s), c);
  }

  /* A character absent from a string is absent from its trim. */
  lemma TrimHasNo(s: string, c: char)
    requires c !in s
    ensures c !in Trim(s)
  {
    var t := TrimStart(s);
    NotInSlice(s, c, |s| - |t|, |s|);
    assert s[|s| - |t|..|s|] == t;
    var r := TrimEnd(t);
    NotInSlice(t, c, 0, |r|);
    assert t[0..|r|] == r;
  }

  lemma NotInSlice(s: string, c: char, lo: nat, hi: nat)
    requires c !in s && lo <= hi <= |s|
    ensures c !in s[lo..hi]
  {
    forall k | 0 <= k < hi - lo
      ensures s[lo..hi][k] != c
    {
      assert s[lo..hi][k] == s[lo + k];
    }
  }

  lemma {:induction false} TrimStartKeepsText(s: string, c: char)
    requires !IsSpace(c)
    ensures Count(TrimStart(s), c) == Count(s, c)
  {
    if s != [] && IsSpace(s[0]) {
      TrimStartKeepsText(s[1..], c);
    }
  }

  lemma {:induction false} TrimEndKeepsText(s: string, c: char)
    requires !IsSpace(c)
    ensures Count(TrimEnd(s), c) == Count(s, c)
  {
    if s != [] && IsSpace(s[|s| - 1]) {
      var p := s[..|s| - 1];
      TrimEndKeepsText(p, c);
      CountConcat(p, [s[|s| - 1]], c);
      assert p + [s[|s| - 1]] == s;
    }
  }

  lemma {:induction false} CountConcat(a: string, b: string, c: char)
    ensures Count(a + b, c) == Count(a, c) + Count(b, c)
  {
    if a == [] {
      assert a + b == b;
    } else {
      CountConcat(a[1..], b, c);
      assert (a + b)[1..] == a[1..] + b;
    }
  }

  /* A string with no leading or trailing whitespace is its own trim. */
  lemma TrimIdentity(s: string)
    requires Stripped(s)
    ensures Trim(s) == s
  {
  }

  /* Trimming twice is trimming once. */
  lemma TrimIdempotent(s: string)
    ensures Trim(Trim(s)) == Trim(s)
  {
    TrimIdentity(Trim(s));
  }

  /* ASCII lower-casing of one character. */
  function LowerChar(c: char): (d: char)
    ensures 'A' <= c <= 'Z' ==> 'a' <= d <= 'z' && d as int - c as int == 32
    ensures !('A' <= c <= 'Z') ==> d == c
  {
    if 'A' <= c <= 'Z' then (c as int + 32) as char else c
  }

  /* ASCII lower-casing of a string, character by character. */
  function Lower(s: string): (r: string)
    ensures |r| == |s|
    ensures forall i :: 0 <= i < |s| ==> r[i] == LowerChar(s[i])
  {
    seq(|s|, i requires 0 <= i < |s| => LowerChar(s[i]))
  }

  /* Lower-casing gives a lower-case letter exactly from that letter or from
     its upper-case form, 32 code points below it. */
  lemma LowerCharIs(c: char, d: char)
    requires 'a' <= d <= 'z'
    ensures LowerChar(c) == d <==> c == d || c as int == d as int - 32
  {
  }

  /* Lower-casing a piece of a string is the same piece of the lower-cased string. */
  lemma LowerSlice(s: string, i: nat, j: nat)
    requires i <= j <= |s|
    ensures Lower(s[i..j]) == Lower(s)[i..j]
  {
  }

  predicate OccursAt(hay: string, needle: string, i: nat)
  {
    i + |needle| <= |hay| && hay[i..i + |needle|] == needle
  }

  /* `needle in hay`: some position of `hay` starts a copy of `needle`. */
  function Contains(hay: string, needle: string): (b: bool)
    ensures b <==> exists i: nat :: OccursAt(hay, needle, i)
  {
    if |needle| > |hay| then
      assert forall i: nat :: !OccursAt(hay, needle, i);
      false
    else if hay[..|needle|] == needle then
      assert OccursAt(hay, needle, 0);
      true
    else
      var b := Contains(hay[1..], needle);
      ShiftOccurrence(hay, needle);
      b
  }

  lemma ShiftOccurrence(hay: string, needle: string)
    requires |needle| <= |hay| && hay[..|needle|] != needle
    ensures (exists i: nat :: OccursAt(hay, needle, i)) <==> (exists i: nat :: OccursAt(hay[1..], needle, i))
  {
    if exists i: nat :: OccursAt(hay, needle, i) {
      var i: nat :| OccursAt(hay, needle, i);
      assert i > 0;
      assert hay[1..][i - 1..i - 1 + |needle|] == hay[i..i + |needle|];
      assert OccursAt(hay[1..], needle, i - 1);
    }
    if exists i: nat :: OccursAt(hay[1..], needle, i) {
      var i: nat :| OccursAt(hay[1..], needle, i);
      assert hay[1..][i..i + |needle|] == hay[i + 1..i + 1 + |needle|];
      assert OccursAt(hay, needle, i + 1);
    }
  }
}
