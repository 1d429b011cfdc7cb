/**
  Decimal text of integers, as C's `printf("%d")` writes it, and a reader
  for such text. The reader is a left inverse of the writer: reading back what
  was written recovers the number and the number of characters it took.
 */
module Decimal {
  import opened Wrappers

  predicate IsDigit(c: char) {
    '0' <= c <= '9'
  }

  predicate AllDigits(s: string) {
    forall i :: 0 <= i < |s| ==> IsDigit(s[i])
  }

  function DigitValue(c: char): (d: nat)
    requires IsDigit(c)
    ensures d < 10
  {
    c as int - '0' as int
  }

  function DigitChar(d: nat): (c: char)
    requires d < 10
    ensures IsDigit(c) && DigitValue(c) == d
  {
    ('0' as int + d) as char
  }

  /** The digits of `n`, most significant first, with no leading zero. */
  function DecNat(n: nat): (s: string)
    ensures |s| > 0 && AllDigits(s)
    ensures s[0] == '0' ==> s == "0"
  {
    if n < 10 then [DigitChar(n)] else DecNat(n / 10) + [DigitChar(n % 10)]
  }

  /** What `%d` prints: a minus sign for a negative number, then the digits of its magnitude. */
  function DecInt(n: int): (s: string)
    ensures |s| > 0
    ensures n >= 0 ==> AllDigits(s)
    ensures n < 0 ==> |s| > 1 && s[0] == '-' && AllDigits(s[1..])
  {
    if n < 0 then "-" + DecNat(-n) else DecNat(n)
  }

  /** The number a string of digits denotes. */
  function DigitsValue(s: string): nat
    requires AllDigits(s)
  {
    if s == [] then 0 else DigitsValue(s[..|s| - 1]) * 10 + DigitValue(s[|s| - 1])
  }

  /** The length of the longest run of digits at the start of `s`. */
  function DigitRun(s: string): (k: nat)
    ensures k <= |s| && AllDigits(s[..k])
    ensures k < |s| ==> !IsDigit(s[k])
  {
    if s == [] || !IsDigit(s[0]) then 0 else 1 + DigitRun(s[1..])
  }

  /** A number read from the front of a string, and how many characters it took. */
  datatype Parsed = Parsed(value: int, used: nat)

  /** Reads the longest run of digits at the front of `s`; fails if there is none. */
  function ParseNat(s: string): (r: Option<Parsed>)
    ensures r.None? <==> (s == [] || !IsDigit(s[0]))
    ensures r.Some? ==> 0 < r.value.used <= |s| && r.value.value >= 0
    ensures r.Some? ==> r.value.used == |s| || !IsDigit(s[r.value.used])
  {
    var k := DigitRun(s);
    if k == 0 then None else Some(Parsed(DigitsValue(s[..k]), k))
  }

  /** Reads an optional minus sign followed by digits from the front of `s`. */
  function ParseInt(s: string): (r: Option<Parsed>)
    ensures r.Some? ==> 0 < r.value.used <= |s|
    ensures r.Some? && r.value.value < 0 ==> s[0] == '-'
  {
    if |s| > 0 && s[0] == '-' then
      var p :- ParseNat(s[1..]);
      Some(Parsed(-p.value, p.used + 1))
    else
      ParseNat(s)
  }

  lemma {:induction false} DecNatValue(n: nat)
    ensures DigitsValue(DecNat(n)) == n
  {
    if n >= 10 {
      DecNatValue(n / 10);
      var s := DecNat(n);
      assert s[..|s| - 1] == DecNat(n / 10);
    }
  }

  /** A run of digits followed by a non-digit (or by nothing) is read whole. */
  lemma {:induction false} DigitRunOf(d: string, rest: string)
    requires AllDigits(d)
    requires rest == [] || !IsDigit(rest[0])
    ensures DigitRun(d + rest) == |d|
  {
    if d != [] {
      assert (d + rest)[1..] == d[1..] + rest;
      DigitRunOf(d[1..], rest);
    }
  }

  /** Reading back what `DecNat` wrote gives the number and the length of its text. */
  lemma {:induction false} ParseNatRoundTrip(n: nat, rest: string)
    requires rest == [] || !IsDigit(rest[0])
    ensures ParseNat(DecNat(n) + rest) == Some(Parsed(n, |DecNat(n)|))
  {
    var d := DecNat(n);
    DigitRunOf(d, rest);
    assert (d + rest)[..|d|] == d;
    DecNatValue(n);
  }

  /** Reading back what `%d` wrote gives the number and the length of its text. */
  lemma {:induction false} ParseIntRoundTrip(n: int, rest: string)
    requires rest == [] || !IsDigit(rest[0])
    ensures ParseInt(DecInt(n) + rest) == Some(Parsed(n, |DecInt(n)|))
  {
    if n < 0 {
      NegativeRoundTrip(n, rest);
    } else {
      var s := DecNat(n) + rest;
      assert s[0] == DecNat(n)[0];
      ParseNatRoundTrip(n, rest);
    }
  }

  /** The negative case of ParseIntRoundTrip: a '-' sign before the digits of -n. */
  lemma {:induction false} NegativeRoundTrip(n: int, rest: string)
    requires n < 0
    requires rest == [] || !IsDigit(rest[0])
    ensures ParseInt(DecInt(n) + rest) == Some(Parsed(n, |DecInt(n)|))
  {
    var d := DecNat(-n);
    var s := ['-'] + (d + rest);
    assert DecInt(n) + rest == s;
    assert s[1..] == d + rest;
    ParseNatRoundTrip(-n, rest);
    assert ParseNat(s[1..]) == Some(Parsed(-n, |d|));
  }
}
