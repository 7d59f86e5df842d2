/** Fixed-width unsigned words, bit by bit: index i is the bit of weight 2^i. */
module Register {
  import opened Gf2

  type Bits = seq<bool>
  type Byte = b: Bits | |b| == 8 witness [false, false, false, false, false, false, false, false]
  type Word = w: Bits | |w| == 32 witness seq(32, _ => false)

  function Zeros(n: nat): (z: Bits)
    ensures |z| == n
  {
    seq(n, _ => false)
  }

  function Xor(a: Bits, b: Bits): (c: Bits)
    requires |a| == |b|
    ensures |c| == |a|
  {
    seq(|a|, i requires 0 <= i < |a| => a[i] != b[i])
  }

  function Reversed(a: Bits): (c: Bits)
    ensures |c| == |a|
  {
    seq(|a|, i requires 0 <= i < |a| => a[|a| - 1 - i])
  }

  // The 32-bit operators.

  function And(a: Word, b: Word): Word {
    seq(32, i requires 0 <= i < 32 => a[i] && b[i])
  }

  function ShiftLeft(a: Word, k: nat): Word {
    seq(32, i requires 0 <= i < 32 => k <= i && a[i - k])
  }

  function ShiftRight(a: Word, k: nat): Word {
    seq(32, i requires 0 <= i < 32 => i + k < 32 && a[i + k])
  }

  /** The n low bits set, the others clear. */
  function LowMask(n: nat): Word {
    seq(32, i => i < n)
  }

  function Extend(b: Byte): Word {
    b + Zeros(24)
  }

  /** The polynomial whose coefficient of x^i is bit i. */
  function Poly(a: Bits): (p: nat)
    ensures p < Pow2(|a|)
  {
    if a == [] then 0 else (if a[0] then 1 else 0) + 2 * Poly(a[1..])
  }

  lemma {:induction false} PolyXor(a: Bits, b: Bits)
    requires |a| == |b|
    ensures Poly(Xor(a, b)) == Add(Poly(a), Poly(b))
  {
    if a != [] {
      PolyXor(a[1..], b[1..]);
      assert Xor(a, b)[1..] == Xor(a[1..], b[1..]);
      AddBit(a[0], Poly(a[1..]), b[0], Poly(b[1..]));
    }
  }

  lemma AddBit(a: bool, m: nat, b: bool, n: nat)
    ensures Add((if a then 1 else 0) + 2 * m, (if b then 1 else 0) + 2 * n)
         == (if a != b then 1 else 0) + 2 * Add(m, n)
  {
    var x, y := (if a then 1 else 0) + 2 * m, (if b then 1 else 0) + 2 * n;
    AddHalves(x, y);
    assert x / 2 == m && y / 2 == n;
  }

  /** Zero bits on top change nothing. */
  lemma {:induction false} PolyPad(a: Bits, n: nat)
    ensures Poly(a + Zeros(n)) == Poly(a)
    decreases |a| + n
  {
    if a != [] {
      assert (a + Zeros(n))[1..] == a[1..] + Zeros(n);
      PolyPad(a[1..], n);
    } else if n > 0 {
      assert (a + Zeros(n))[1..] == [] + Zeros(n - 1);
      PolyPad([], n - 1);
    }
  }

  /** Zero bits at the bottom multiply by x^k. */
  lemma {:induction false} PolyShift(a: Bits, k: nat)
    ensures Poly(Zeros(k) + a) == Shift(Poly(a), k)
  {
    if k == 0 {
      assert Zeros(0) + a == a;
    } else {
      assert (Zeros(k) + a)[1..] == Zeros(k - 1) + a;
      PolyShift(a, k - 1);
    }
  }

  lemma {:induction false} PolyInjective(a: Bits, b: Bits)
    requires |a| == |b| && Poly(a) == Poly(b)
    ensures a == b
  {
    if a != [] {
      assert a[0] == b[0];
      PolyInjective(a[1..], b[1..]);
      assert a == [a[0]] + a[1..] && b == [b[0]] + b[1..];
    }
  }

  lemma {:induction false} ShiftOne(k: nat)
    ensures Shift(1, k) == Pow2(k)
  {
    if k > 0 {
      ShiftOne(k - 1);
    }
  }

  lemma TopBitPoly(n: nat, top: bool)
    ensures Poly(Zeros(n) + [top]) == if top then Pow2(n) else 0
  {
    PolyShift([top], n);
    ShiftOne(n);
    if top {
      assert [true][1..] == [];
      assert Poly([true]) == 1;
    } else {
      assert Zeros(n) + [top] == [] + Zeros(n + 1);
      PolyPad([], n + 1);
    }
  }

  /** A word moved up by one bit, split into its top bit and what a 32-bit shift keeps. */
  lemma SplitTopBit(p: Word)
    ensures Zeros(1) + p == Xor(Zeros(32) + [p[31]], ShiftLeft(p, 1) + Zeros(1))
  {
    var whole, kept := Zeros(1) + p, ShiftLeft(p, 1) + Zeros(1);
    assert forall i :: 1 <= i < 32 ==> whole[i] == p[i - 1] == kept[i];
  }

  /** Shifting a word left by one: the polynomial doubles, less the coefficient of x^32. */
  lemma PolyShiftLeftOne(p: Word)
    ensures 2 * Poly(p) == Add(if p[31] then Pow2(32) else 0, Poly(ShiftLeft(p, 1)))
  {
    PolyShift(p, 1);
    TopBitPoly(32, p[31]);
    PolyPad(ShiftLeft(p, 1), 1);
    SplitTopBit(p);
    PolyXor(Zeros(32) + [p[31]], ShiftLeft(p, 1) + Zeros(1));
  }

  // ---- mirroring ----

  lemma ReversedTwice(a: Bits)
    ensures Reversed(Reversed(a)) == a
  {
  }

  lemma ReversedXor(a: Bits, b: Bits)
    requires |a| == |b|
    ensures Reversed(Xor(a, b)) == Xor(Reversed(a), Reversed(b))
  {
  }

  /** Mirrored, a right shift is a left shift. */
  lemma ReversedShift(a: Word, k: nat)
    ensures Reversed(ShiftRight(a, k)) == ShiftLeft(Reversed(a), k)
  {
  }

  /** Masking after an exclusive or leaves the low bits of both and clears the rest. */
  lemma MaskedXor(a: Word, b: Word, n: nat)
    requires n <= 32
    ensures And(Xor(a, b), LowMask(n)) == Xor(a[..n], b[..n]) + Zeros(32 - n)
  {
  }
}
