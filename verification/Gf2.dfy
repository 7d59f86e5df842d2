/** Polynomials over GF(2), written the way checksum literature writes them:
    a natural number whose bit i is the coefficient of x^i. */
module Gf2 {

  function Pow2(k: nat): (r: nat)
    ensures r > 0
  {
    if k == 0 then 1 else 2 * Pow2(k - 1)
  }

  /** Sum (equally, difference) of two polynomials: coefficient-wise exclusive or. */
  function Add(a: nat, b: nat): nat
    decreases a + b
  {
    if a == 0 then b else if b == 0 then a
    else (if a % 2 == b % 2 then 0 else 1) + 2 * Add(a / 2, b / 2)
  }

  /** Product of two polynomials, by Horner's rule on the left factor. */
  function Mul(q: nat, g: nat): nat
  {
    if q == 0 then 0 else Add(2 * Mul(q / 2, g), if q % 2 == 1 then g else 0)
  }

  /** r is what is left of d after dividing by g, a polynomial of degree exactly w. */
  ghost predicate IsRemainder(d: nat, g: nat, w: nat, r: nat)
  {
    r < Pow2(w) && Congruent(d, r, g)
  }

  ghost predicate Congruent(a: nat, b: nat, g: nat)
  {
    exists q: nat :: a == Add(Mul(q, g), b)
  }

  /** The product of a and x^k. */
  function Shift(a: nat, k: nat): nat
    decreases k
  {
    if k == 0 then a else 2 * Shift(a, k - 1)
  }

  lemma {:induction false} ShiftShift(a: nat, i: nat, j: nat)
    ensures Shift(Shift(a, i), j) == Shift(a, i + j)
  {
    if j > 0 {
      ShiftShift(a, i, j - 1);
    }
  }

  lemma {:induction false} ShiftInjective(a: nat, b: nat, k: nat)
    requires Shift(a, k) == Shift(b, k)
    ensures a == b
  {
    if k > 0 {
      ShiftInjective(a, b, k - 1);
    }
  }

  // ---- addition ----

  lemma {:induction false} AddHalves(a: nat, b: nat)
    ensures Add(a, b) / 2 == Add(a / 2, b / 2)
    ensures Add(a, b) % 2 == (if a % 2 == b % 2 then 0 else 1)
  {
  }

  lemma {:induction false} AddComm(a: nat, b: nat)
    ensures Add(a, b) == Add(b, a)
    decreases a + b
  {
    if a != 0 && b != 0 {
      AddComm(a / 2, b / 2);
    }
  }

  lemma {:induction false} AddAssoc(a: nat, b: nat, c: nat)
    ensures Add(Add(a, b), c) == Add(a, Add(b, c))
    decreases a + b + c
  {
    if a != 0 && b != 0 && c != 0 {
      AddAssoc(a / 2, b / 2, c / 2);
      AddHalves(a, b);
      AddHalves(b, c);
      AddHalves(Add(a, b), c);
      AddHalves(a, Add(b, c));
    }
  }

  lemma {:induction false} AddSelf(a: nat)
    ensures Add(a, a) == 0
  {
    if a != 0 {
      AddSelf(a / 2);
    }
  }

  lemma AddCancel(a: nat, b: nat)
    ensures Add(Add(a, b), b) == a
    ensures Add(b, Add(b, a)) == a
  {
    AddAssoc(a, b, b);
    AddAssoc(b, b, a);
    AddSelf(b);
  }

  /** (a + b) + (c + d) regrouped as (a + c) + (b + d). */
  lemma AddSwap(a: nat, b: nat, c: nat, d: nat)
    ensures Add(Add(a, b), Add(c, d)) == Add(Add(a, c), Add(b, d))
  {
    AddAssoc(a, b, Add(c, d));
    AddAssoc(b, c, d);
    AddComm(b, c);
    AddAssoc(c, b, d);
    AddAssoc(a, c, Add(b, d));
  }

  lemma AddDouble(a: nat, b: nat)
    ensures Add(2 * a, 2 * b) == 2 * Add(a, b)
  {
    AddHalves(2 * a, 2 * b);
  }

  lemma {:induction false} AddShift(a: nat, b: nat, k: nat)
    ensures Add(Shift(a, k), Shift(b, k)) == Shift(Add(a, b), k)
  {
    if k > 0 {
      AddShift(a, b, k - 1);
      AddDouble(Shift(a, k - 1), Shift(b, k - 1));
    }
  }

  lemma {:induction false} AddBound(a: nat, b: nat, k: nat)
    requires a < Pow2(k) && b < Pow2(k)
    ensures Add(a, b) < Pow2(k)
  {
    if k > 0 {
      AddBound(a / 2, b / 2, k - 1);
      AddHalves(a, b);
    }
  }

  /** Adding a polynomial of lower degree keeps the leading coefficient. */
  lemma {:induction false} AddKeepsDegree(a: nat, b: nat, k: nat)
    requires Pow2(k) <= a < Pow2(k + 1) && b < Pow2(k)
    ensures Pow2(k) <= Add(a, b) < Pow2(k + 1)
  {
    if k > 0 {
      AddKeepsDegree(a / 2, b / 2, k - 1);
      AddHalves(a, b);
    } else {
      assert b == 0;
    }
  }

  // ---- multiplication ----

  lemma {:induction false} MulAdd(p: nat, q: nat, g: nat)
    ensures Mul(Add(p, q), g) == Add(Mul(p, g), Mul(q, g))
    decreases p + q
  {
    if p != 0 && q != 0 {
      MulAdd(p / 2, q / 2, g);
      AddHalves(p, q);
      var cp, cq := if p % 2 == 1 then g else 0, if q % 2 == 1 then g else 0;
      AddSwap(2 * Mul(p / 2, g), cp, 2 * Mul(q / 2, g), cq);
      AddDouble(Mul(p / 2, g), Mul(q / 2, g));
      AddSelf(g);
      if Add(p, q) == 0 {
        assert Add(p / 2, q / 2) == 0;
      }
    }
  }

  lemma {:induction false} MulDouble(q: nat, g: nat)
    ensures Mul(q, 2 * g) == 2 * Mul(q, g)
  {
    if q != 0 {
      MulDouble(q / 2, g);
      AddDouble(2 * Mul(q / 2, g), if q % 2 == 1 then g else 0);
    }
  }

  lemma {:induction false} MulShift(q: nat, g: nat, k: nat)
    ensures Mul(q, Shift(g, k)) == Shift(Mul(q, g), k)
  {
    if k > 0 {
      MulShift(q, g, k - 1);
      MulDouble(q, Shift(g, k - 1));
    }
  }

  /** A non-zero multiple of a polynomial of degree w has degree at least w. */
  lemma {:induction false} MulDegree(q: nat, g: nat, w: nat) returns (k: nat)
    requires q > 0 && Pow2(w) <= g < Pow2(w + 1)
    ensures w <= k && Pow2(k) <= Mul(q, g) < Pow2(k + 1)
  {
    if q == 1 {
      k := w;
    } else {
      k := MulDegree(q / 2, g, w);
      k := k + 1;
      PowMono(w + 1, k);
      AddKeepsDegree(2 * Mul(q / 2, g), if q % 2 == 1 then g else 0, k);
    }
  }

  lemma {:induction false} PowMono(i: nat, j: nat)
    requires i <= j
    ensures Pow2(i) <= Pow2(j)
    decreases j
  {
    if i < j {
      PowMono(i, j - 1);
    }
  }

  // ---- congruence modulo g ----

  lemma CongruentSelf(a: nat, g: nat)
    ensures Congruent(a, a, g)
  {
    assert a == Add(Mul(0, g), a);
  }

  lemma CongruentTrans(a: nat, b: nat, c: nat, g: nat)
    requires Congruent(a, b, g) && Congruent(b, c, g)
    ensures Congruent(a, c, g)
  {
    var p: nat :| a == Add(Mul(p, g), b);
    var q: nat :| b == Add(Mul(q, g), c);
    MulAdd(p, q, g);
    AddAssoc(Mul(p, g), Mul(q, g), c);
    assert a == Add(Mul(Add(p, q), g), c);
  }

  lemma CongruentAdd(a: nat, b: nat, c: nat, g: nat)
    requires Congruent(a, b, g)
    ensures Congruent(Add(a, c), Add(b, c), g)
  {
    var q: nat :| a == Add(Mul(q, g), b);
    AddAssoc(Mul(q, g), b, c);
  }

  lemma CongruentDouble(a: nat, b: nat, g: nat)
    requires Congruent(a, b, g)
    ensures Congruent(2 * a, 2 * b, g)
  {
    var q: nat :| a == Add(Mul(q, g), b);
    AddDouble(Mul(q, g), b);
    assert Mul(2 * q, g) == 2 * Mul(q, g);
    assert 2 * a == Add(Mul(2 * q, g), 2 * b);
  }

  lemma CongruentPlusG(a: nat, g: nat)
    ensures Congruent(a, Add(a, g), g)
  {
    AddCancel(a, g);
    AddComm(a, g);
    assert Mul(1, g) == g;
    assert a == Add(Mul(1, g), Add(a, g));
  }

  /** Dividing both sides and the modulus by x^k. */
  lemma CongruentUnshift(a: nat, b: nat, g: nat, k: nat)
    requires Congruent(Shift(a, k), Shift(b, k), Shift(g, k))
    ensures Congruent(a, b, g)
  {
    var q: nat :| Shift(a, k) == Add(Mul(q, Shift(g, k)), Shift(b, k));
    MulShift(q, g, k);
    AddShift(Mul(q, g), b, k);
    ShiftInjective(a, Add(Mul(q, g), b), k);
  }

  /** Division with remainder has one answer. */
  lemma RemainderUnique(d: nat, g: nat, w: nat, r: nat, s: nat)
    requires Pow2(w) <= g < Pow2(w + 1)
    requires IsRemainder(d, g, w, r) && IsRemainder(d, g, w, s)
    ensures r == s
  {
    var p: nat :| d == Add(Mul(p, g), r);
    var q: nat :| d == Add(Mul(q, g), s);
    // 0 = d + d = (p + q) g + (r + s)
    AddSwap(Mul(p, g), r, Mul(q, g), s);
    MulAdd(p, q, g);
    AddSelf(d);
    var m, e := Mul(Add(p, q), g), Add(r, s);
    assert Add(m, e) == 0;
    AddCancel(m, e);
    assert m == e;
    AddBound(r, s, w);
    if Add(p, q) > 0 {
      var k := MulDegree(Add(p, q), g, w);
      PowMono(w, k);
      assert false;
    }
    AddCancel(r, s);
  }
}
