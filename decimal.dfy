/** Decimal text of unsigned integers, as Rust's `format!("{}", n)` and
    `format!("{:0>W}", n)` produce it for the duration fields. */
module Decimal {

  /** 10 to the power n. */
  function Pow10(n: nat): (r: nat)
    ensures r >= 1
  {
    if n == 0 then 1 else 10 * Pow10(n - 1)
  }

  predicate IsDigit(c: char) {
    '0' <= c <= '9'
  }

  predicate AllDigits(s: string) {
    forall i :: 0 <= i < |s| ==> IsDigit(s[i])
  }

  function DigitValue(c: char): nat
    requires IsDigit(c)
  {
    c as int - '0' as int
  }

  function DigitChar(d: nat): (c: char)
    requires d < 10
    ensures IsDigit(c) && DigitValue(c) == d
  {
    ('0' as int + d) as char
  }

  /** The number a string of decimal digits denotes, most significant digit first. */
  function Value(s: string): nat
    requires AllDigits(s)
  {
    if s == [] then 0 else Value(s[..|s| - 1]) * 10 + DigitValue(s[|s| - 1])
  }

  /** Rust's `{}` of an unsigned integer: the shortest decimal text of n
      (no sign, no leading zero except for "0" itself). */
  function NatToString(n: nat): (r: string)
    ensures 1 <= |r| && AllDigits(r)
    ensures (r[0] == '0') == (n == 0) && (n == 0 ==> r == "0")
    decreases n
  {
    if n < 10 then [DigitChar(n)] else NatToString(n / 10) + [DigitChar(n % 10)]
  }

  /** Printing then reading back a number gives the number. */
  lemma {:induction false} NatToStringValue(n: nat)
    ensures Value(NatToString(n)) == n
    decreases n
  {
    if n >= 10 {
      var r := NatToString(n);
      assert r[..|r| - 1] == NatToString(n / 10);
      NatToStringValue(n / 10);
    }
  }

  /** The text of n has as many digits as n needs, and no more. */
  lemma {:induction false} NatToStringWidth(n: nat)
    ensures var r := NatToString(n); n < Pow10(|r|) && (1 < |r| ==> Pow10(|r| - 1) <= n)
    decreases n
  {
    if n >= 10 {
      NatToStringWidth(n / 10);
    }
  }

  /** Rust's `{:0>W}`: right-align s in a field of at least w characters, filling with '0'. */
  function PadZero(s: string, w: nat): (r: string)
    ensures |r| == if |s| < w then w else |s|
    ensures r[|r| - |s|..] == s
    ensures forall i :: 0 <= i < |r| - |s| ==> r[i] == '0'
    ensures AllDigits(s) ==> AllDigits(r)
  {
    if w <= |s| then s else seq(w - |s|, _ => '0') + s
  }

  /** The w least significant decimal digits of v, leading zeros included:
      an independent, fixed-width reading of v used to state padding and truncation. */
  function FixedDigits(v: nat, w: nat): (r: string)
    ensures |r| == w && AllDigits(r)
  {
    if w == 0 then [] else FixedDigits(v / 10, w - 1) + [DigitChar(v % 10)]
  }

  /** The fixed-width reading denotes v modulo 10^w. */
  lemma {:induction false} FixedDigitsValue(v: nat, w: nat)
    ensures Value(FixedDigits(v, w)) == v % Pow10(w)
  {
    if w > 0 {
      var r := FixedDigits(v, w);
      assert r[..w - 1] == FixedDigits(v / 10, w - 1);
      FixedDigitsValue(v / 10, w - 1);
      ModSplit(v, Pow10(w - 1));
    }
  }

  /** v with its b least significant decimal digits dropped: v / 10^b. */
  function DropDigits(v: nat, b: nat): nat
  {
    DivIsNat(v, Pow10(b));
    v / Pow10(b)
  }

  // ---------------------------------------------------------------- arithmetic

  lemma DivIsNat(v: nat, p: nat)
    requires 1 <= p
    ensures 0 <= v / p
  {
  }

  lemma DivModUnique(v: nat, m: nat, q: nat, r: nat)
    requires 0 < m && r < m && v == q * m + r
    ensures v / m == q && v % m == r
  {
    QuotientUnique(q, r, v / m, v % m, m);
  }

  lemma QuotientUnique(q: nat, r: nat, q': nat, r': nat, m: nat)
    requires r < m && r' < m && q * m + r == q' * m + r'
    ensures q == q'
  {
    if q' > q {
      MulAtLeast(q' - q, m);
    } else if q > q' {
      MulAtLeast(q - q', m);
    }
  }

  lemma MulAtLeast(k: nat, m: nat)
    requires 1 <= k
    ensures m <= k * m
  {
  }

  /** Peeling the last digit off v and then dividing by m is dividing by 10 m. */
  lemma ModSplit(v: nat, m: nat)
    requires 0 < m
    ensures v % (10 * m) == (v / 10) % m * 10 + v % 10
    ensures v / (10 * m) == (v / 10) / m
  {
    var a, b, d := (v / 10) / m, (v / 10) % m, v % 10;
    assert v / 10 == a * m + b;
    assert v == a * (10 * m) + (b * 10 + d);
    assert b * 10 + d < 10 * m;
    DivModUnique(v, 10 * m, a, b * 10 + d);
  }

  lemma Pow10Monotone(a: nat, b: nat)
    requires a <= b
    ensures Pow10(a) <= Pow10(b)
  {
    if a < b {
      Pow10Monotone(a, b - 1);
    }
  }

  // ------------------------------------------------------------ digit strings

  /** Two digit strings of the same length with the same value are the same string. */
  lemma {:induction false} ValueInjective(s: string, t: string)
    requires AllDigits(s) && AllDigits(t) && |s| == |t|
    requires Value(s) == Value(t)
    ensures s == t
  {
    if s != [] {
      var n := |s| - 1;
      LastDigit(s);
      LastDigit(t);
      ValueInjective(s[..n], t[..n]);
      assert s == s[..n] + [s[n]] && t == t[..n] + [t[n]];
    }
  }

  /** The last digit of a digit string is its value modulo 10; the rest is the quotient. */
  lemma LastDigit(s: string)
    requires s != [] && AllDigits(s)
    ensures Value(s) / 10 == Value(s[..|s| - 1]) && Value(s) % 10 == DigitValue(s[|s| - 1])
  {
    DivModUnique(Value(s), 10, Value(s[..|s| - 1]), DigitValue(s[|s| - 1]));
  }

  /** The value of a digit string is below 10 to the power of its length. */
  lemma {:induction false} ValueBound(s: string)
    requires AllDigits(s)
    ensures Value(s) < Pow10(|s|)
  {
    if s != [] {
      ValueBound(s[..|s| - 1]);
    }
  }

  /** Leading zeros do not change the value of a digit string. */
  lemma {:induction false} LeadingZerosValue(z: nat, s: string)
    requires AllDigits(s)
    ensures AllDigits(seq(z, _ => '0') + s)
    ensures Value(seq(z, _ => '0') + s) == Value(s)
  {
    var t := seq(z, _ => '0') + s;
    if s == [] {
      assert t == seq(z, _ => '0');
      ZerosValue(z);
    } else {
      LeadingZerosValue(z, s[..|s| - 1]);
      assert t[..|t| - 1] == seq(z, _ => '0') + s[..|s| - 1];
    }
  }

  lemma {:induction false} ZerosValue(z: nat)
    ensures AllDigits(seq(z, _ => '0')) && Value(seq(z, _ => '0')) == 0
  {
    if z > 0 {
      ZerosValue(z - 1);
      assert seq(z, _ => '0')[..z - 1] == seq(z - 1, _ => '0');
    }
  }

  /** NatToString is the only canonical spelling: parsing a digit string without
      a superfluous leading zero and printing the value gives the string back. */
  lemma {:induction false} NatToStringOfValue(s: string)
    requires 1 <= |s| && AllDigits(s) && (s[0] == '0' ==> s == "0")
    ensures NatToString(Value(s)) == s
  {
    var n := Value(s);
    var r := NatToString(n);
    NatToStringValue(n);
    NatToStringWidth(n);
    ValueBound(s);
    if |s| > 1 {
      var k := |s| - 1;
      assert s[..k][0] == s[0];
      ValueBound(s[..k]);
      // the leading digit is at least 1, so the value has |s| digits
      LeadingDigitBound(s);
      if |r| < |s| {
        Pow10Monotone(|r|, k);
      } else if |r| > |s| {
        Pow10Monotone(|s|, |r| - 1);
      }
    }
    ValueInjective(r, s);
  }

  /** A digit string without a leading zero and of length k + 1 denotes at least 10^k. */
  lemma {:induction false} LeadingDigitBound(s: string)
    requires 1 < |s| && AllDigits(s) && s[0] != '0'
    ensures Pow10(|s| - 1) <= Value(s)
  {
    var k := |s| - 1;
    if k == 1 {
      assert s[..k] == [s[0]];
    } else {
      assert s[..k][0] == s[0];
      LeadingDigitBound(s[..k]);
    }
  }

  /** Zero-padding the shortest text of v to a width that holds it yields its fixed-width reading. */
  lemma PadZeroIsFixedDigits(v: nat, w: nat)
    requires 1 <= w && v < Pow10(w)
    ensures PadZero(NatToString(v), w) == FixedDigits(v, w)
  {
    var s := NatToString(v);
    var p := PadZero(s, w);
    var f := FixedDigits(v, w);
    NatToStringValue(v);
    NatToStringWidth(v);
    if w < |s| {
      Pow10Monotone(w, |s| - 1);
    }
    assert |p| == w;
    if w > |s| {
      assert p == seq(w - |s|, _ => '0') + s;
      LeadingZerosValue(w - |s|, s);
    }
    assert AllDigits(p) && Value(p) == v;
    DivModUnique(v, Pow10(w), 0, v);
    FixedDigitsValue(v, w);
    ValueInjective(p, f);
  }

  /** Integer division by 10^b keeps the leading digits of a fixed-width reading:
      the first a of a + b digits of v are the a digits of v / 10^b. */
  lemma {:induction false} FixedDigitsPrefix(v: nat, a: nat, b: nat)
    ensures FixedDigits(v, a + b)[..a] == FixedDigits(DropDigits(v, b), a)
  {
    if b > 0 {
      var rest := FixedDigits(v / 10, a + (b - 1));
      assert FixedDigits(v, a + b) == rest + [DigitChar(v % 10)];
      assert (rest + [DigitChar(v % 10)])[..a] == rest[..a];
      FixedDigitsPrefix(v / 10, a, b - 1);
      DropLastDigit(v, b);
    }
  }

  /** Dropping b digits is dropping one digit and then b - 1 more. */
  lemma DropLastDigit(v: nat, b: nat)
    requires 0 < b
    ensures DropDigits(v, b) == DropDigits(v / 10, b - 1)
  {
    ModSplit(v, Pow10(b - 1));
  }

  /** Dropping b digits of a number of at most a + b digits leaves at most a digits. */
  lemma {:induction false} DropDigitsBound(v: nat, a: nat, b: nat)
    requires v < Pow10(a + b)
    ensures DropDigits(v, b) < Pow10(a)
  {
    if b > 0 {
      DropLastDigit(v, b);
      assert v / 10 < Pow10(a + (b - 1));
      DropDigitsBound(v / 10, a, b - 1);
    }
  }
}
