/** Decimal rendering of naturals (Rust's `to_string` / `{}` on unsigned
    integers) and the parser that inverts it. */
module Numerals {

  predicate IsDigit(c: char) {
    '0' <= c <= '9'
  }

  function DigitChar(d: nat): (c: char)
    requires d < 10
    ensures IsDigit(c) && c as int - '0' as int == d
  {
    ('0' as int + d) as char
  }

  function DigitValue(c: char): (d: nat)
    requires IsDigit(c)
    ensures d < 10
  {
    c as int - '0' as int
  }

  predicate AllDigits(s: string) {
    forall i :: 0 <= i < |s| ==> IsDigit(s[i])
  }

  /** The decimal text of `n`, most significant digit first, no leading zeros. */
  function Decimal(n: nat): (s: string)
    ensures |s| > 0 && AllDigits(s)
    ensures |s| > 1 ==> s[0] != '0'
    decreases n
  {
    if n < 10 then [DigitChar(n)] else Decimal(n / 10) + [DigitChar(n % 10)]
  }

  /** Left-to-right reading of digits: `acc` is the value read so far. */
  function Accumulate(acc: nat, s: string): nat
    requires AllDigits(s)
    decreases |s|
  {
    if s == [] then acc else Accumulate(acc * 10 + DigitValue(s[0]), s[1..])
  }

  /** The value of a digit string (Rust's `str::parse::<u64>` on digits). */
  function Value(s: string): nat
    requires AllDigits(s)
  {
    Accumulate(0, s)
  }

  lemma {:induction false} AccumulateSnoc(acc: nat, s: string, c: char)
    requires AllDigits(s) && IsDigit(c)
    ensures AllDigits(s + [c])
    ensures Accumulate(acc, s + [c]) == Accumulate(acc, s) * 10 + DigitValue(c)
    decreases |s|
  {
    if s == [] {
      assert [c][1..] == [];
    } else {
      assert (s + [c])[1..] == s[1..] + [c];
      AccumulateSnoc(acc * 10 + DigitValue(s[0]), s[1..], c);
    }
  }

  /** Parsing the rendered text gives the number back. */
  lemma {:induction false} ValueOfDecimal(n: nat)
    ensures Value(Decimal(n)) == n
    decreases n
  {
    if n < 10 {
      var c := DigitChar(n);
      assert Decimal(n) == [c] && [c][1..] == [];
      assert Accumulate(0, [c]) == Accumulate(DigitValue(c), []);
    } else {
      ValueOfDecimal(n / 10);
      AccumulateSnoc(0, Decimal(n / 10), DigitChar(n % 10));
    }
  }

  /** The length of the leading run of digits of `s`. */
  function DigitSpan(s: string): (k: nat)
    ensures k <= |s| && AllDigits(s[..k])
    ensures k < |s| ==> !IsDigit(s[k])
    decreases |s|
  {
    if s == [] || !IsDigit(s[0]) then 0
    else
      var k := 1 + DigitSpan(s[1..]);
      assert forall i :: 1 <= i < k ==> s[..k][i] == s[1..][..k - 1][i - 1];
      k
  }

  /** A digit string followed by a non-digit (or nothing) is read up to that character. */
  lemma {:induction false} DigitSpanOfDigits(d: string, rest: string)
    requires AllDigits(d)
    requires rest == [] || !IsDigit(rest[0])
    ensures DigitSpan(d + rest) == |d|
    decreases |d|
  {
    if d != [] {
      assert (d + rest)[1..] == d[1..] + rest;
      DigitSpanOfDigits(d[1..], rest);
    }
  }

  lemma Pieces<T>(d: seq<T>, c: T, rest: seq<T>)
    ensures d + [c] + rest == d + ([c] + rest)
    ensures (d + [c] + rest)[..|d|] == d && (d + [c] + rest)[|d|] == c && (d + [c] + rest)[|d| + 1..] == rest
  {
  }

  /** A number written in decimal and followed by a non-digit reads back as
      that number, and the text after it starts at the non-digit. */
  lemma DecimalThen(n: nat, c: char, rest: string)
    requires !IsDigit(c)
    ensures var s := Decimal(n) + [c] + rest;
            DigitSpan(s) == |Decimal(n)| && Value(s[..|Decimal(n)|]) == n
            && s[|Decimal(n)|] == c && s[|Decimal(n)| + 1..] == rest
  {
    var d := Decimal(n);
    Pieces(d, c, rest);
    DigitSpanOfDigits(d, [c] + rest);
    ValueOfDecimal(n);
  }
}
