/**
 * Decimal integer text, as read by Go's `strconv.Atoi`: an optional `+` or `-`
 * followed by one or more ASCII digits, nothing else (no spaces, no
 * underscores). Integers are unbounded here; the range check of `Atoi` is
 * not modelled.
 */
module Decimal {
  import opened Opt

  predicate IsDigit(c: char) {
    '0' <= c <= '9'
  }

  predicate AllDigits(s: string) {
    forall i :: 0 <= i < |s| ==> IsDigit(s[i])
  }

  predicate IsSign(c: char) {
    c == '+' || c == '-'
  }

  /** The grammar `Atoi` accepts: `[+-]?[0-9]+`. */
  predicate IsDecimal(s: string) {
    if |s| > 0 && IsSign(s[0]) then |s| > 1 && AllDigits(s[1..])
    else |s| > 0 && AllDigits(s)
  }

  function DigitValue(c: char): (d: nat)
    requires IsDigit(c)
    ensures d < 10
  {
    (c as int) - ('0' as int)
  }

  function DigitChar(d: nat): (c: char)
    requires d < 10
    ensures IsDigit(c) && DigitValue(c) == d
  {
    ('0' as int + d) as char
  }

  /** The value of a run of digits, most significant first. */
  function DigitsValue(s: string): nat
    requires AllDigits(s)
  {
    if s == [] then 0 else DigitsValue(s[..|s| - 1]) * 10 + DigitValue(s[|s| - 1])
  }

  /** `strconv.Atoi`: the integer a decimal text denotes, or None on a syntax error. */
  function Atoi(s: string): (r: Option<int>)
    ensures r.Some? <==> IsDecimal(s)
    ensures r.Some? && s[0] == '-' ==> r.value <= 0
    ensures r.Some? && s[0] != '-' ==> r.value >= 0
  {
    if |s| > 0 && IsSign(s[0]) then
      if |s| > 1 && AllDigits(s[1..]) then
        var magnitude: int := DigitsValue(s[1..]);
        Some(if s[0] == '-' then -magnitude else magnitude)
      else None
    else if |s| > 0 && AllDigits(s) then Some(DigitsValue(s))
    else None
  }

  /** Canonical decimal text of a natural number: no sign, no leading zero. */
  function NatToText(n: nat): (s: string)
    decreases n
  {
    if n < 10 then [DigitChar(n)] else NatToText(n / 10) + [DigitChar(n % 10)]
  }

  /** Canonical decimal text of an integer, as `strconv.Itoa` writes it. */
  function Itoa(n: int): string {
    if n < 0 then "-" + NatToText(-n) else NatToText(n)
  }

  lemma {:induction false} NatToTextValue(n: nat)
    ensures |NatToText(n)| > 0 && AllDigits(NatToText(n))
    ensures DigitsValue(NatToText(n)) == n
    decreases n
  {
    if n >= 10 {
      NatToTextValue(n / 10);
      var s := NatToText(n);
      assert s[..|s| - 1] == NatToText(n / 10);
    }
  }

  /** Every integer written by `Itoa` reads back as itself. */
  lemma AtoiItoa(n: int)
    ensures Atoi(Itoa(n)) == Some(n)
  {
    if n < 0 {
      NatToTextValue(-n);
      assert Itoa(n)[1..] == NatToText(-n);
    } else {
      NatToTextValue(n);
    }
  }

  /** Text that holds a character other than a sign or a digit never parses. */
  lemma NonNumericRejected(s: string, i: nat)
    requires i < |s| && !IsDigit(s[i]) && !IsSign(s[i])
    ensures Atoi(s) == None
  {
    if |s| > 0 && IsSign(s[0]) {
      assert s[1..][i - 1] == s[i];
    }
  }

  /** A leading zero does not change the value of a run of digits. */
  lemma {:induction false} LeadingZeroValue(s: string)
    requires AllDigits(s)
    ensures AllDigits("0" + s) && DigitsValue("0" + s) == DigitsValue(s)
    decreases |s|
  {
    if s != [] {
      LeadingZeroValue(s[..|s| - 1]);
      assert ("0" + s)[..|s|] == "0" + s[..|s| - 1];
    }
  }

  /** Non-canonical text reads as its canonical form: "007" as 7, "+5" as 5. */
  lemma AtoiNonCanonical(s: string)
    requires |s| > 0 && !IsSign(s[0])
    ensures Atoi("0" + s) == Atoi(s)
    ensures Atoi("+" + s) == Atoi(s)
  {
    assert ("0" + s)[1..] == s && ("+" + s)[1..] == s;
    if AllDigits(s) {
      LeadingZeroValue(s);
    } else {
      var i :| 0 <= i < |s| && !IsDigit(s[i]);
      assert ("0" + s)[i + 1] == s[i];
    }
  }
}
