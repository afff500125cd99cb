/** Decimal rendering of integers as JavaScript's `String(n)`, `BigInt#toString()`
    and `String#padStart` produce it, with the reading back that the properties
    about identifiers and balances need. */
module Decimal {

  function Pow10(k: nat): (p: nat)
    ensures p >= 1
  {
    if k == 0 then 1 else 10 * Pow10(k - 1)
  }

  lemma Pow10Values()
    ensures Pow10(1) == 10 && Pow10(2) == 100 && Pow10(7) == 10_000_000 && Pow10(9) == 1_000_000_000
  {
    assert Pow10(1) == 10;
    assert Pow10(2) == 100;
    assert Pow10(3) == 1000;
    assert Pow10(4) == 10_000;
    assert Pow10(5) == 100_000;
    assert Pow10(6) == 1_000_000;
    assert Pow10(7) == 10_000_000;
    assert Pow10(8) == 100_000_000;
  }

  predicate IsDigit(c: char) {
    '0' <= c <= '9'
  }

  predicate AllDigits(s: string) {
    forall i :: 0 <= i < |s| ==> IsDigit(s[i])
  }

  function DigitValue(c: char): (d: nat)
    requires IsDigit(c)
    ensures d < 10
  {
    c as int - '0' as int
  }

  function DigitChar(d: nat): (c: char)
    requires d < 10
    ensures IsDigit(c) && DigitValue(c) == d
  {
    ('0' as int + d) as char
  }

  /** The shortest decimal numeral of `n`, most significant digit first. */
  function NatToString(n: nat): (s: string)
    ensures |s| >= 1 && AllDigits(s)
    decreases n
  {
    if n < 10 then [DigitChar(n)] else NatToString(n / 10) + [DigitChar(n % 10)]
  }

  /** `String(i)` for an integer: a minus sign before the numeral of `-i` when negative. */
  function IntToString(i: int): (s: string)
    ensures |s| >= 1
    ensures (i < 0) == (s[0] == '-')
  {
    if i < 0 then "-" + NatToString(-i) else NatToString(i)
  }

  /** The number a numeral denotes. */
  function ValueOf(s: string): nat
    requires AllDigits(s)
  {
    if s == [] then 0 else ValueOf(s[..|s| - 1]) * 10 + DigitValue(s[|s| - 1])
  }

  lemma {:induction false} NatToStringRoundTrip(n: nat)
    ensures ValueOf(NatToString(n)) == n
    decreases n
  {
    if n >= 10 {
      NatToStringRoundTrip(n / 10);
      var s := NatToString(n);
      assert s[..|s| - 1] == NatToString(n / 10);
    }
  }

  lemma NatToStringInjective(a: nat, b: nat)
    ensures NatToString(a) == NatToString(b) <==> a == b
  {
    NatToStringRoundTrip(a);
    NatToStringRoundTrip(b);
  }

  lemma IntToStringInjective(a: int, b: int)
    ensures IntToString(a) == IntToString(b) <==> a == b
  {
    if IntToString(a) == IntToString(b) {
      if a < 0 {
        assert IntToString(a)[1..] == NatToString(-a);
        assert IntToString(b)[1..] == NatToString(-b);
        NatToStringInjective(-a, -b);
      } else {
        NatToStringInjective(a, b);
      }
    }
  }

  /** The last `w` decimal digits of `n`, with leading zeros. */
  function FixedWidth(n: nat, w: nat): (s: string)
    ensures |s| == w && AllDigits(s)
  {
    if w == 0 then [] else FixedWidth(n / 10, w - 1) + [DigitChar(n % 10)]
  }

  function Repeat(c: char, k: nat): (s: string)
    ensures |s| == k
    ensures forall i :: 0 <= i < k ==> s[i] == c
  {
    if k == 0 then [] else Repeat(c, k - 1) + [c]
  }

  /** `s.padStart(w, [c])`: `s` itself when it is already `w` long, else `c` repeated in front. */
  function PadStart(s: string, w: nat, c: char): (r: string)
    ensures |r| == if |s| >= w then |s| else w
    ensures r[|r| - |s|..] == s
    ensures forall i :: 0 <= i < |r| - |s| ==> r[i] == c
  {
    if |s| >= w then s else Repeat(c, w - |s|) + s
  }

  lemma {:induction false} FixedWidthOfZero(k: nat)
    ensures FixedWidth(0, k) == Repeat('0', k)
  {
    if k > 0 {
      FixedWidthOfZero(k - 1);
    }
  }

  lemma PadStartAppend(s: string, x: char, w: nat, c: char)
    requires w >= 1
    ensures PadStart(s + [x], w, c) == PadStart(s, w - 1, c) + [x]
  {
  }

  /** Padding the numeral of `n < 10^w` to `w` characters with zeros gives its `w`-digit form. */
  lemma {:induction false} PadStartIsFixedWidth(n: nat, w: nat)
    requires 1 <= w && n < Pow10(w)
    ensures PadStart(NatToString(n), w, '0') == FixedWidth(n, w)
    decreases n
  {
    if n < 10 {
      FixedWidthOfZero(w - 1);
    } else {
      assert Pow10(1) == 10;
      assert w >= 2;
      assert n / 10 < Pow10(w - 1);
      PadStartIsFixedWidth(n / 10, w - 1);
      PadStartAppend(NatToString(n / 10), DigitChar(n % 10), w, '0');
    }
  }

  /** Euclidean division has one quotient. */
  lemma DivUnique(x: nat, d: nat, q: nat, r: nat)
    requires d > 0 && r < d && x == d * q + r
    ensures x / d == q
  {
    var q', r' := x / d, x % d;
    assert x == d * q' + r';
    if q' < q {
      assert d * q' + d <= d * q by { MulMono(d, q' + 1, q); }
    } else if q' > q {
      assert d * q + d <= d * q' by { MulMono(d, q + 1, q'); }
    }
  }

  lemma MulMono(d: nat, a: nat, b: nat)
    requires a <= b
    ensures d * a <= d * b
  {
  }

  lemma DivDiv(n: nat, m: nat)
    requires m > 0
    ensures (n / 10) / m == n / (10 * m)
  {
    var t, u := n / 10, n % 10;
    var q, r := t / m, t % m;
    assert t == m * q + r;
    assert n == 10 * t + u;
    assert n == (10 * m) * q + (10 * r + u);
    assert 10 * r + u < 10 * m;
    DivUnique(n, 10 * m, q, 10 * r + u);
  }

  /** The first `a` of the last `a + b` digits are the last `a` digits of `n / 10^b`. */
  lemma {:induction false} FixedWidthPrefix(n: nat, a: nat, b: nat)
    ensures FixedWidth(n, a + b)[..a] == FixedWidth(n / Pow10(b), a)
    decreases b
  {
    if b > 0 {
      FixedWidthPrefix(n / 10, a, b - 1);
      DivDiv(n, Pow10(b - 1));
      assert FixedWidth(n, a + b)[..a] == FixedWidth(n / 10, a + b - 1)[..a];
    }
  }

  /** The numeral of a two-digit number read back. */
  lemma TwoDigitsValue(d: nat)
    requires d < 100
    ensures ValueOf(FixedWidth(d, 2)) == d
  {
    var s := FixedWidth(d, 2);
    var hi := FixedWidth(d / 10, 1);
    assert s == hi + [DigitChar(d % 10)];
    assert s[..1] == hi;
    assert hi == [DigitChar((d / 10) % 10)];
    assert hi[..0] == [];
    assert ValueOf(hi) == (d / 10) % 10 == d / 10;
  }
}
