/** Positional numerals: digit sequences, most significant digit first. */
module Numerals {

  // ---- division by counting, so that proofs unfold it one step at a time ----

  function Quot(n: nat, d: nat): nat
    requires d > 0
  {
    if n < d then 0 else 1 + Quot(n - d, d)
  }

  function Rem(n: nat, d: nat): (r: nat)
    requires d > 0
    ensures r < d
  {
    if n < d then n else Rem(n - d, d)
  }

  lemma {:induction false} QuotRem(n: nat, d: nat)
    requires d > 0
    ensures n == Quot(n, d) * d + Rem(n, d)
    ensures Quot(n, d) <= n && (n > 0 && d > 1 ==> Quot(n, d) < n)
  {
    if n >= d {
      QuotRem(n - d, d);
    }
  }

  /** The quotient and remainder are the only pair of their kind. */
  lemma {:induction false} QuotRemUnique(q: nat, d: nat, r: nat)
    requires r < d
    ensures Quot(q * d + r, d) == q && Rem(q * d + r, d) == r
  {
    if q > 0 {
      QuotRemUnique(q - 1, d, r);
      assert q * d + r - d == (q - 1) * d + r;
      MulMono(1, q, d);
    }
  }

  lemma MulMono(a: nat, b: nat, c: nat)
    requires a <= b
    ensures a * c <= b * c && c * a <= c * b
  {
  }

  /** The same as the operators. */
  lemma DivMod(n: nat, d: nat)
    requires d > 0
    ensures n / d == Quot(n, d) && n % d == Rem(n, d)
  {
    var q, r := n / d, n % d;
    assert n == q * d + r;
    QuotRemUnique(q, d, r);
  }

  // ---- digits ----

  function Pow(base: nat, k: nat): (r: nat) {
    if k == 0 then 1 else base * Pow(base, k - 1)
  }

  lemma QuotSmaller(n: nat, base: nat)
    requires base >= 2 && n > 0
    ensures Quot(n, base) < n
  {
    QuotRem(n, base);
  }

  /** The digits of n with no leading zero; zero itself has one digit. */
  function Digits(n: nat, base: nat): (ds: seq<nat>)
    requires base >= 2
    ensures |ds| > 0
  {
    if n < base then [n] else QuotSmaller(n, base); Digits(Quot(n, base), base) + [Rem(n, base)]
  }

  /** As Digits, except that zero has none. */
  function SignificantDigits(n: nat, base: nat): seq<nat>
    requires base >= 2
  {
    if n == 0 then [] else QuotSmaller(n, base); SignificantDigits(Quot(n, base), base) + [Rem(n, base)]
  }

  /** The k lowest digits of n, leading zeros included. */
  function LowDigits(n: nat, base: nat, k: nat): (ds: seq<nat>)
    requires base >= 2
    ensures |ds| == k
    decreases k
  {
    if k == 0 then [] else LowDigits(Quot(n, base), base, k - 1) + [Rem(n, base)]
  }

  function Value(ds: seq<nat>, base: nat): nat {
    if ds == [] then 0 else Value(ds[..|ds| - 1], base) * base + ds[|ds| - 1]
  }

  lemma ValueSnoc(ds: seq<nat>, d: nat, base: nat)
    ensures Value(ds + [d], base) == Value(ds, base) * base + d
  {
    assert (ds + [d])[..|ds|] == ds;
  }

  ghost predicate IsNumeral(ds: seq<nat>, base: nat) {
    && ds != []
    && (|ds| > 1 ==> ds[0] != 0)
    && forall i :: 0 <= i < |ds| ==> ds[i] < base
  }

  lemma {:induction false} DigitsAreNumeral(n: nat, base: nat)
    requires base >= 2
    ensures IsNumeral(Digits(n, base), base)
    ensures Value(Digits(n, base), base) == n
    ensures n > 0 ==> Digits(n, base)[0] > 0
  {
    if n >= base {
      QuotRem(n, base);
      DigitsAreNumeral(Quot(n, base), base);
      ValueSnoc(Digits(Quot(n, base), base), Rem(n, base), base);
    } else {
      ValueSnoc([], n, base);
      assert [] + [n] == [n];
    }
  }

  /** A number has one numeral in each base. */
  lemma {:induction false} NumeralUnique(ds: seq<nat>, base: nat)
    requires base >= 2 && IsNumeral(ds, base)
    ensures Digits(Value(ds, base), base) == ds
    ensures ds[0] > 0 ==> Value(ds, base) > 0
  {
    var init, d := ds[..|ds| - 1], ds[|ds| - 1];
    assert ds == init + [d];
    ValueSnoc(init, d, base);
    if |ds| == 1 {
      NoDigits(init, d, base);
    } else {
      NumeralUnique(init, base);
      DigitsPush(Value(init, base), d, base);
    }
  }

  lemma NoDigits(init: seq<nat>, d: nat, base: nat)
    requires init == [] && d < base
    ensures base >= 2 ==> Value(init, base) * base + d == d && Digits(d, base) == [d]
  {
    assert Value(init, base) == 0;
  }

  lemma DigitsPush(v: nat, d: nat, base: nat)
    requires v > 0 && d < base && base >= 2
    ensures v * base + d > 0 && Digits(v * base + d, base) == Digits(v, base) + [d]
  {
    QuotRemUnique(v, base, d);
    MulMono(1, v, base);
  }

  lemma {:induction false} SignificantIsDigits(n: nat, base: nat)
    requires base >= 2
    ensures n > 0 ==> SignificantDigits(n, base) == Digits(n, base)
  {
    if n >= base {
      QuotSmaller(n, base);
      assert Quot(n, base) > 0;
      SignificantIsDigits(Quot(n, base), base);
    } else if n > 0 {
      assert Quot(n, base) == 0 && Rem(n, base) == n;
      assert SignificantDigits(0, base) == [];
    }
  }

  /** Taking the lowest digit off. */
  lemma DigitsStep(n: nat, base: nat)
    requires base >= 2
    ensures Quot(n, base) == 0 ==> Digits(n, base) == [Rem(n, base)]
    ensures Quot(n, base) > 0 ==> Quot(n, base) < n && Digits(n, base) == Digits(Quot(n, base), base) + [Rem(n, base)]
  {
    QuotRem(n, base);
  }

  /** Regrouping (a m + b) base + c by the two lower positions. */
  lemma Regroup(a: nat, m: nat, b: nat, base: nat, c: nat)
    requires b < m && c < base
    ensures (a * m + b) * base + c == a * (base * m) + (b * base + c)
    ensures b * base + c < base * m
  {
    assert (a * m) * base == a * (base * m);
    assert (a * m + b) * base == (a * m) * base + b * base;
    MulMono(b + 1, m, base);
    assert (b + 1) * base == b * base + base;
  }

  lemma DivTowerParts(n: nat, base: nat, m: nat, q: nat, a: nat, b: nat, c: nat)
    requires b < m && c < base && n == q * base + c && q == a * m + b
    ensures base * m > 0
    ensures Quot(n, base * m) == a && Rem(n, base * m) == b * base + c
  {
    MulEqual(q, a * m + b, base);
    Regroup(a, m, b, base, c);
    QuotRemUnique(a, base * m, b * base + c);
  }

  lemma MulEqual(x: nat, y: nat, c: nat)
    requires x == y
    ensures x * c == y * c
  {
  }

  /** Dividing by base * m digit by digit. */
  lemma DivTower(n: nat, base: nat, m: nat)
    requires base >= 2 && m > 0
    ensures base * m > 0
    ensures Quot(Quot(n, base), m) == Quot(n, base * m)
    ensures Quot(Rem(n, base * m), base) == Rem(Quot(n, base), m)
    ensures Rem(Rem(n, base * m), base) == Rem(n, base)
  {
    var q := Quot(n, base);
    var a, b, c := Quot(q, m), Rem(q, m), Rem(n, base);
    QuotRem(n, base);
    QuotRem(q, m);
    DivTowerParts(n, base, m, q, a, b, c);
    QuotRemUnique(b, base, c);
  }

  /** Splitting off k low digits at once. */
  lemma {:induction false} DigitsSplit(n: nat, base: nat, k: nat)
    requires base >= 2 && n >= Pow(base, k) > 0
    ensures SignificantDigits(n, base)
         == SignificantDigits(Quot(n, Pow(base, k)), base) + LowDigits(Rem(n, Pow(base, k)), base, k)
    decreases k
  {
    var p := Pow(base, k);
    if k == 0 {
      QuotRem(n, 1);
      assert Quot(n, 1) == n;
    } else {
      var m := Pow(base, k - 1);
      assert m > 0;
      DivTower(n, base, m);
      QuotAtLeast(n, base, m);
      DigitsSplit(Quot(n, base), base, k - 1);
      var high, low := SignificantDigits(Quot(n, p), base), LowDigits(Rem(Quot(n, base), m), base, k - 1);
      assert n > 0;
      assert high + (low + [Rem(n, base)]) == (high + low) + [Rem(n, base)];
    }
  }

  lemma MulNext(q: nat, d: nat)
    ensures (q + 1) * d == q * d + d
  {
  }

  lemma QuotAtLeast(n: nat, d: nat, m: nat)
    requires d > 0
    ensures n >= d * m <==> Quot(n, d) >= m
  {
    QuotRem(n, d);
    var q, r := Quot(n, d), Rem(n, d);
    if q >= m {
      MulMono(m, q, d);
    } else {
      MulMono(q + 1, m, d);
      MulNext(q, d);
    }
  }

  /** A number below base^k has at most k digits. */
  lemma {:induction false} DigitsBound(n: nat, base: nat, k: nat)
    requires base >= 2 && k >= 1 && n < Pow(base, k)
    ensures |SignificantDigits(n, base)| <= |Digits(n, base)| <= k
    decreases k
  {
    SignificantIsDigits(n, base);
    if n >= base {
      assert Pow(base, 1) == base * Pow(base, 0) == base;
      QuotAtLeast(n, base, Pow(base, k - 1));
      DigitsBound(Quot(n, base), base, k - 1);
    }
  }

  lemma {:induction false} PowMono(a: nat, b: nat, k: nat)
    requires a <= b
    ensures Pow(a, k) <= Pow(b, k)
  {
    if k > 0 {
      PowMono(a, b, k - 1);
      MulMono(Pow(a, k - 1), Pow(b, k - 1), a);
      MulMono(a, b, Pow(b, k - 1));
    }
  }

  lemma {:induction false} PowSplit(b: nat, i: nat, j: nat)
    ensures Pow(b, i + j) == Pow(b, i) * Pow(b, j)
    decreases i
  {
    if i > 0 {
      PowSplit(b, i - 1, j);
      MulAssoc(b, Pow(b, i - 1), Pow(b, j));
    } else {
      assert Pow(b, 0) == 1;
    }
  }

  lemma MulAssoc(a: nat, b: nat, c: nat)
    ensures a * (b * c) == (a * b) * c
  {
  }

  // ---- reversal ----

  function Rev<T>(s: seq<T>): (r: seq<T>)
    ensures |r| == |s|
  {
    if s == [] then [] else Rev(s[1..]) + [s[0]]
  }

  lemma {:induction false} RevSnoc<T>(s: seq<T>, x: T)
    ensures Rev(s + [x]) == [x] + Rev(s)
  {
    if s != [] {
      assert (s + [x])[1..] == s[1..] + [x];
      RevSnoc(s[1..], x);
    }
  }

  lemma {:induction false} RevIndex<T>(s: seq<T>, i: nat)
    requires i < |s|
    ensures Rev(s)[i] == s[|s| - 1 - i]
  {
    if i < |s| - 1 {
      RevIndex(s[1..], i);
    }
  }
}
