/**
 * String helpers the script gets from Python itself: the substring test
 * `pat in text` and the decimal rendering of an integer inside an f-string.
 */
module Text {

  /** `pat` occurs in `text` starting at offset `i`. */
  ghost predicate OccursAt(text: string, pat: string, i: int)
  {
    0 <= i && i + |pat| <= |text| && text[i..i + |pat|] == pat
  }

  /** Python's `pat in text`: true exactly when `pat` occurs somewhere in `text`. */
  function Contains(text: string, pat: string): (r: bool)
    ensures r <==> exists i :: OccursAt(text, pat, i)
    decreases |text|
  {
    if |pat| > |text| then
      assert forall i :: !OccursAt(text, pat, i);
      false
    else if text[..|pat|] == pat then
      assert OccursAt(text, pat, 0);
      true
    else
      var rest := Contains(text[1..], pat);
      assert forall i :: OccursAt(text[1..], pat, i) <==> OccursAt(text, pat, i + 1) by {
        forall i ensures OccursAt(text[1..], pat, i) <==> OccursAt(text, pat, i + 1) {
          if 0 <= i && i + |pat| <= |text| - 1 {
            assert text[1..][i..i + |pat|] == text[i + 1..i + 1 + |pat|];
          }
        }
      }
      assert rest ==> exists i :: OccursAt(text, pat, i) by {
        if rest {
          var i :| OccursAt(text[1..], pat, i);
          assert OccursAt(text, pat, i + 1);
        }
      }
      assert (exists i :: OccursAt(text, pat, i)) ==> rest by {
        if exists i :: OccursAt(text, pat, i) {
          var i :| OccursAt(text, pat, i);
          assert i != 0;
          assert OccursAt(text[1..], pat, i - 1);
        }
      }
      rest
  }

  /** Any text built around `pat` contains it. */
  lemma ContainsInside(before: string, pat: string, after: string)
    ensures Contains(before + pat + after, pat)
  {
    var text := before + pat + after;
    assert text[|before|..|before| + |pat|] == pat;
    assert OccursAt(text, pat, |before|);
  }

  /** `pat` does not occur in `text` when its first character is missing from every possible starting offset. */
  lemma FirstCharAbsent(text: string, pat: string, starts: nat)
    requires |pat| > 0 && |text| - |pat| < starts
    requires forall i :: 0 <= i < starts && i < |text| ==> text[i] != pat[0]
    ensures !Contains(text, pat)
  {
    forall i ensures !OccursAt(text, pat, i) {
      if 0 <= i && i + |pat| <= |text| {
        assert text[i..i + |pat|][0] == text[i];
      }
    }
  }

  predicate IsDigit(c: char)
  {
    '0' <= c <= '9'
  }

  predicate AllDigits(s: string)
  {
    forall k :: 0 <= k < |s| ==> IsDigit(s[k])
  }

  function DigitChar(d: nat): (c: char)
    requires d < 10
    ensures IsDigit(c)
  {
    (48 + d) as char
  }

  function DigitValue(c: char): (d: nat)
    requires IsDigit(c)
    ensures d < 10 && DigitChar(d) == c
  {
    c as int - 48
  }

  /** Python's `str(n)` / `f"{n}"` for a non-negative integer: its decimal digits, no leading zero. */
  function Decimal(n: nat): (s: string)
    ensures |s| >= 1 && AllDigits(s)
    ensures |s| > 1 ==> s[0] != '0'
    decreases n
  {
    if n < 10 then [DigitChar(n)] else Decimal(n / 10) + [DigitChar(n % 10)]
  }

  /** Reads a string of decimal digits back as a number. */
  function ParseDecimal(s: string): (n: nat)
    requires AllDigits(s)
    decreases |s|
  {
    if s == [] then 0 else ParseDecimal(s[..|s| - 1]) * 10 + DigitValue(s[|s| - 1])
  }

  /** Rendering a number and reading it back gives the number. */
  lemma {:induction false} ParseDecimalOfDecimal(n: nat)
    ensures ParseDecimal(Decimal(n)) == n
    decreases n
  {
    var s := Decimal(n);
    if n < 10 {
      assert s[..|s| - 1] == [];
    } else {
      assert s[..|s| - 1] == Decimal(n / 10);
      ParseDecimalOfDecimal(n / 10);
    }
  }

  /** Distinct numbers render as distinct strings. */
  lemma DecimalInjective(n: nat, m: nat)
    ensures Decimal(n) == Decimal(m) ==> n == m
  {
    ParseDecimalOfDecimal(n);
    ParseDecimalOfDecimal(m);
  }

  /**
   * A run of digits followed by a non-digit splits in only one way: when
   * two such concatenations are equal, their digit runs and their tails are.
   */
  lemma DigitRunSplit(a: string, x: string, b: string, y: string)
    requires AllDigits(a) && AllDigits(b)
    requires |x| > 0 && !IsDigit(x[0]) && |y| > 0 && !IsDigit(y[0])
    requires a + x == b + y
    ensures a == b && x == y
  {
    if |a| < |b| {
      DigitRunEnds(a, x, b, y);
      assert false;
    } else if |b| < |a| {
      DigitRunEnds(b, y, a, x);
      assert false;
    }
    assert a == (a + x)[..|a|] == (b + y)[..|b|] == b;
    assert x == (a + x)[|a|..] == (b + y)[|b|..] == y;
  }

  /** Where a shorter digit run ends, the longer one still has a digit. */
  lemma DigitRunEnds(a: string, x: string, b: string, y: string)
    requires AllDigits(b) && |x| > 0 && |a| < |b|
    ensures IsDigit((b + y)[|a|]) && (a + x)[|a|] == x[0]
  {
  }

  /** Equal strings with a common prefix have equal remainders. */
  lemma CancelPrefix(p: string, a: string, b: string)
    requires p + a == p + b
    ensures a == b
  {
    assert a == (p + a)[|p|..];
    assert b == (p + b)[|p|..];
  }

  /** Each part of a five-part concatenation can be sliced back out of it. */
  lemma FiveParts(a: string, b: string, c: string, d: string, e: string)
    ensures var r := a + b + c + d + e;
      && r[..|a|] == a
      && r[|a|..|a| + |b|] == b
      && r[|a| + |b|..|a| + |b| + |c|] == c
      && r[|a| + |b| + |c|..|r| - |e|] == d
      && r[|r| - |e|..] == e
  {
    var r := a + b + c + d + e;
    assert r == a + (b + (c + (d + e)));
    assert r[..|a|] == a;
    var r1 := b + (c + (d + e));
    assert r[|a|..] == r1;
    assert r1[..|b|] == b;
    var r2 := c + (d + e);
    assert r1[|b|..] == r2;
    assert r2[..|c|] == c;
    assert r2[|c|..] == d + e;
    assert (d + e)[..|d|] == d;
  }

  /** Equal strings with a common suffix have equal beginnings. */
  lemma CancelSuffix(a: string, b: string, q: string)
    requires a + q == b + q
    ensures a == b
  {
    assert a == (a + q)[..|a|];
    assert b == (b + q)[..|b|];
  }
}
