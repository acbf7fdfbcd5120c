/** Numerals in bases 2 to 16, and the digit loops that print them. */
module Numerals {

  type Base = b: nat | 2 <= b <= 16 witness 10

  const DIGITS: string := "0123456789abcdef"

  function Digit(d: nat): (c: char)
    requires d < 16
    ensures c == DIGITS[d] && c != '\0'
  {
    if d < 10 then '0' + d as char else 'a' + (d - 10) as char
  }

  /** The value of a digit, 16 when the character is not one. */
  function DigitValue(c: char): (d: nat)
    ensures d <= 16 && (d < 16 ==> Digit(d) == c)
  {
    if '0' <= c <= '9' then (c - '0') as nat
    else if 'a' <= c <= 'f' then (c - 'a') as nat + 10
    else 16
  }

  lemma DigitValueOf(d: nat)
    requires d < 16
    ensures DigitValue(Digit(d)) == d
  {
  }

  function Quotient(v: nat, b: Base): (q: nat)
    ensures v > 0 ==> q < v
  {
    v / b
  }

  function Remainder(v: nat, b: Base): (r: nat)
    ensures r < b
  {
    v % b
  }

  /** Division by the base, both ways. */
  lemma Divide(v: nat, b: Base, q: nat, r: nat)
    requires r < b
    ensures v == q * b + r <==> q == Quotient(v, b) && r == Remainder(v, b)
  {
    assert v == v / b * b + v % b;
    if v == q * b + r { SameQuotient(b, q, r, v / b, v % b); }
  }

  lemma SameQuotient(b: Base, q: nat, r: nat, q': nat, r': nat)
    requires r < b && r' < b && q * b + r == q' * b + r'
    ensures q == q' && r == r'
  {
    NextMultiple(b, q, q');
    NextMultiple(b, q', q);
  }

  lemma NextMultiple(b: nat, q: nat, q': nat)
    ensures q < q' ==> q * b + b <= q' * b
  {
    if q < q' {
      var d := q' - q - 1;
      assert q' * b == (q + 1 + d) * b == q * b + b + d * b;
    }
  }

  /** The digits of a value, none for 0. */
  function Digits(v: nat, b: Base): string {
    if v == 0 then "" else Digits(Quotient(v, b), b) + [Digit(Remainder(v, b))]
  }

  function Numeral(v: nat, b: Base): (s: string)
    ensures s != ""
  {
    if v == 0 then "0" else Digits(v, b)
  }

  predicate IsDigits(s: string, b: Base) {
    forall i :: 0 <= i < |s| ==> DigitValue(s[i]) < b
  }

  /** The value a digit string denotes, reading left to right. */
  function Value(s: string, b: Base): nat {
    if s == "" then 0 else Value(s[..|s| - 1], b) * b + DigitValue(s[|s| - 1])
  }

  lemma ValueSnoc(s: string, c: char, b: Base)
    ensures Value(s + [c], b) == Value(s, b) * b + DigitValue(c)
    ensures IsDigits(s + [c], b) <==> IsDigits(s, b) && DigitValue(c) < b
    ensures Value("", b) == 0 && IsDigits("", b)
  {
    assert (s + [c])[..|s|] == s;
    assert forall i :: 0 <= i < |s| ==> (s + [c])[i] == s[i];
    assert (s + [c])[|s|] == c;
  }

  lemma {:induction false} DigitsValue(v: nat, b: Base)
    ensures IsDigits(Digits(v, b), b) && Value(Digits(v, b), b) == v
    ensures v > 0 ==> Digits(v, b) != "" && Digits(v, b)[0] != '0'
  {
    hide Digit, DigitValue, Quotient, Remainder, Value, IsDigits;
    ValueSnoc("", '0', b);
    if v > 0 {
      var q, d := Quotient(v, b), Remainder(v, b);
      DigitsValue(q, b);
      DigitValueOf(d);
      Divide(v, b, q, d);
      ValueSnoc(Digits(q, b), Digit(d), b);
      if q == 0 { assert d > 0; }
    }
  }

  lemma {:induction false} DigitsUnique(s: string, b: Base)
    requires IsDigits(s, b) && (s != "" ==> s[0] != '0')
    ensures Digits(Value(s, b), b) == s && (s != "" ==> Value(s, b) > 0)
  {
    hide Digit, Quotient, Remainder;
    if s != "" {
      var n := |s| - 1;
      var t, d := s[..n], DigitValue(s[n]);
      DigitsUnique(t, b);
      Divide(Value(s, b), b, Value(t, b), d);
      assert s == t + [s[n]];
      Positive(Value(t, b), b);
    }
  }

  lemma Positive(q: nat, b: Base)
    ensures q > 0 ==> q * b > 0
  {
  }

  /** A numeral denotes its value, and is the only digit string without a leading zero that does. */
  lemma NumeralUnique(v: nat, b: Base, s: string)
    ensures IsDigits(Numeral(v, b), b) && Value(Numeral(v, b), b) == v
    ensures |Numeral(v, b)| > 1 ==> Numeral(v, b)[0] != '0'
    ensures s == Numeral(v, b) <==> s != "" && IsDigits(s, b) && Value(s, b) == v && (|s| > 1 ==> s[0] != '0')
  {
    DigitsValue(v, b);
    if s != "" && IsDigits(s, b) && Value(s, b) == v && (|s| > 1 ==> s[0] != '0') {
      if s[0] == '0' {
        assert s == "0";
      } else {
        DigitsUnique(s, b);
      }
    }
  }

  // ---- how long a numeral is ----

  function Power(m: nat, n: nat): nat { if n == 0 then 1 else m * Power(m, n - 1) }

  lemma {:induction false} PowerAdd(m: nat, i: nat, j: nat)
    ensures Power(m, i + j) == Power(m, i) * Power(m, j)
  {
    if i > 0 {
      PowerAdd(m, i - 1, j);
      assert m * (Power(m, i - 1) * Power(m, j)) == m * Power(m, i - 1) * Power(m, j);
    }
  }

  lemma {:induction false} DigitsLength(v: nat, b: Base, m: nat, n: nat)
    requires 2 <= m <= b && v < Power(m, n)
    ensures |Digits(v, b)| <= n
  {
    hide Digit, Quotient, Remainder;
    if v > 0 {
      Smaller(v, b, m, Power(m, n - 1));
      DigitsLength(Quotient(v, b), b, m, n - 1);
    }
  }

  lemma Smaller(v: nat, b: Base, m: nat, p: nat)
    requires 2 <= m <= b && v < m * p
    ensures Quotient(v, b) < p
  {
    hide Quotient, Remainder;
    var q := Quotient(v, b);
    Divide(v, b, q, Remainder(v, b));
    Scaled(m, b, p, q);
  }

  lemma Scaled(m: nat, b: nat, p: nat, q: nat)
    requires 0 < m <= b && q * b < m * p
    ensures q < p
  {
    if q >= p {
      Monotone(m, b, p, q);
      assert false;
    }
  }

  lemma Monotone(m: nat, b: nat, p: nat, q: nat)
    requires m <= b && p <= q
    ensures m * p <= q * b
  {
    assert m * p <= m * q;
    assert m * q <= b * q;
  }

  lemma WordPowers()
    ensures Power(2, 32) == Power(4, 16) == 0x1_0000_0000
    ensures Power(2, 64) == Power(4, 32) == 0x1_0000_0000_0000_0000
  {
    PowerAdd(2, 4, 4);
    PowerAdd(2, 8, 8);
    PowerAdd(2, 16, 16);
    PowerAdd(2, 32, 32);
    PowerAdd(4, 4, 4);
    PowerAdd(4, 8, 8);
    PowerAdd(4, 16, 16);
    assert Power(2, 4) == 16 && Power(4, 4) == 256;
  }

  /** A word of 32 (or 64) bits never needs more than 32 (or 64) digits, and from base 4 on half that. */
  lemma NumeralLength(v: nat, b: Base, width: nat)
    requires (width == 32 && v < 0x1_0000_0000) || (width == 64 && v < 0x1_0000_0000_0000_0000)
    ensures |Numeral(v, b)| <= width && |Digits(v, b)| <= width
    ensures b >= 4 ==> |Numeral(v, b)| <= width / 2
  {
    WordPowers();
    DigitsLength(v, b, 2, width);
    if b >= 4 { DigitsLength(v, b, 4, width / 2); }
  }

  // ---- the digit loops ----

  function Reverse(s: string): (r: string)
    ensures |r| == |s|
  {
    if s == "" then "" else [s[|s| - 1]] + Reverse(s[..|s| - 1])
  }

  lemma {:induction false} ReverseAt(s: string, k: nat)
    requires k < |s|
    ensures Reverse(s)[k] == s[|s| - 1 - k]
  {
    if k > 0 { ReverseAt(s[..|s| - 1], k - 1); }
  }

  lemma ReverseSnoc(s: string, c: char)
    ensures Reverse(s + [c]) == [c] + Reverse(s) && Reverse("") == ""
  {
    assert (s + [c])[..|s|] == s;
  }

  /** One turn of the first loop: a low digit moves to the scratch array. */
  lemma DigitMoves(v: nat, b: Base, done: string, all: string)
    requires v > 0 && all == Digits(v, b) + Reverse(done)
    ensures |done| < |all| && all == Digits(Quotient(v, b), b) + Reverse(done + [Digit(Remainder(v, b))])
  {
    hide Digit, Quotient, Remainder, Reverse;
    var t, c := Digits(Quotient(v, b), b), Digit(Remainder(v, b));
    ReverseSnoc(done, c);
    Regroup(t, c, Reverse(done));
  }

  lemma Regroup(s: string, c: char, t: string)
    ensures (s + [c]) + t == s + ([c] + t)
  {
  }

  lemma NoDigits(b: Base)
    ensures Digits(0, b) == "" && Reverse("") == ""
  {
  }

  /** The first loop: digits into the scratch array, lowest first. */
  method Collect(val: nat, tmp: array<char>, base: Base) returns (n: nat)
    requires |Digits(val, base)| <= tmp.Length
    modifies tmp
    ensures n <= tmp.Length && Reverse(tmp[..n]) == Digits(val, base)
  {
    hide Digit, Quotient, Remainder, Digits, Reverse;
    NoDigits(base);
    var v: nat := val;
    n := 0;
    while v != 0
      invariant n <= tmp.Length && Digits(val, base) == Digits(v, base) + Reverse(tmp[..n])
      decreases v
    {
      DigitMoves(v, base, tmp[..n], Digits(val, base));
      tmp[n] := Digit(Remainder(v, base));
      assert tmp[..n + 1] == tmp[..n] + [tmp[n]];
      n, v := n + 1, Quotient(v, base);
    }
  }

  /** The second loop: the scratch digits in reverse, then the terminator. */
  method CopyBack(tmp: array<char>, n: nat, buf: array<char>, at: nat)
    requires n <= tmp.Length && at + n < buf.Length && tmp != buf
    modifies buf
    ensures buf[..at] == old(buf[..at]) && buf[at..at + n] == Reverse(tmp[..n]) && buf[at + n] == '\0'
  {
    var i, j := n, 0;
    while i > 0
      invariant 0 <= i && i + j == n && buf[..at] == old(buf[..at])
      invariant forall m :: at <= m < at + j ==> buf[m] == tmp[n - 1 - (m - at)]
    {
      i := i - 1;
      buf[at + j] := tmp[i];
      j := j + 1;
    }
    buf[at + j] := '\0';
    forall k | 0 <= k < n ensures buf[at..at + n][k] == Reverse(tmp[..n])[k] { ReverseAt(tmp[..n], k); }
  }

  /** Print `val` into `buf` from `at`, through a scratch array of `width` characters. */
  method ToStr(val: nat, buf: array<char>, at: nat, base: Base, width: nat)
    requires (width == 32 && val < 0x1_0000_0000) || (width == 64 && val < 0x1_0000_0000_0000_0000)
    requires at + |Numeral(val, base)| < buf.Length
    modifies buf
    ensures buf[..at] == old(buf[..at]) && buf[at..at + |Numeral(val, base)|] == Numeral(val, base)
    ensures buf[at + |Numeral(val, base)|] == '\0'
  {
    hide Digits, Reverse;
    if val == 0 {
      buf[at], buf[at + 1] := '0', '\0';
      return;
    }
    NumeralLength(val, base, width);
    var tmp := new char[width];
    var n := Collect(val, tmp, base);
    CopyBack(tmp, n, buf, at);
  }
}
