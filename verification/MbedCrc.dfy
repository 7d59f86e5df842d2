/** The software checksum engine of MbedCRC.h: bitwise and table-driven modes. */
module MbedCrc {
  import opened Gf2
  import opened Register

  /** How the bytes are absorbed; the two table modes are the two supported table sizes. */
  datatype CrcMode = Bitwise | Table256 | Table16

  function Concat(parts: seq<seq<Byte>>): seq<Byte> {
    if parts == [] then [] else Concat(parts[..|parts| - 1]) + parts[|parts| - 1]
  }

  /** x^k (m x^w + s x^n) + b x^w = (m x^k + b) x^w + s x^(n + k) */
  lemma Regroup(m: nat, s: nat, b: nat, w: nat, n: nat, k: nat)
    ensures Add(Shift(Add(Shift(m, w), Shift(s, n)), k), Shift(b, w))
         == Add(Shift(Add(Shift(m, k), b), w), Shift(s, n + k))
  {
    AddShift(Shift(m, w), Shift(s, n), k);
    ShiftShift(s, n, k);
    ShiftShift(m, w, k);
    ShiftShift(m, k, w);
    AddShift(Shift(m, k), b, w);
    var x, y, z := Shift(Shift(m, k), w), Shift(s, n + k), Shift(b, w);
    AddAssoc(x, y, z);
    AddComm(y, z);
    AddAssoc(x, z, y);
  }

  lemma {:induction false} ShiftZero(k: nat)
    ensures Shift(0, k) == 0
  {
    if k > 0 {
      ShiftZero(k - 1);
    }
  }

  lemma {:induction false} ShiftCongruent(a: nat, b: nat, g: nat, k: nat)
    requires Congruent(a, b, g)
    ensures Congruent(Shift(a, k), Shift(b, k), g)
  {
    if k > 0 {
      ShiftCongruent(a, b, g, k - 1);
      CongruentDouble(Shift(a, k - 1), Shift(b, k - 1), g);
    }
  }

  datatype MbedCrc = MbedCrc(polynomial: Word, width: nat, mode: CrcMode, initialXor: Word,
                             finalXor: Word, reflectData: bool, reflectRemainder: bool)
  {
    ghost predicate Valid() {
      1 <= width <= 32
    }

    // ---- register alignment ----

    function TopPolynomial(): Word
      requires Valid()
    {
      ShiftLeft(polynomial, 32 - width)
    }

    function ReflectedPolynomial(): Word
      requires Valid()
    {
      ShiftRight(Reversed(polynomial), 32 - width)
    }

    function ReflectCrc(data: Word): Word
      requires Valid()
    {
      ShiftRight(Reversed(data), 32 - width)
    }

    /** Where the seed starts: top of the register, or mirrored at its bottom. */
    function InitialValue(): Word
      requires Valid()
    {
      if mode.Bitwise? && !reflectData then ShiftLeft(initialXor, 32 - width) else ReflectCrc(initialXor)
    }

    // ---- one bit ----

    function StepNormal(p: Word): Word
      requires Valid()
    {
      if p[31] then Xor(ShiftLeft(p, 1), TopPolynomial()) else ShiftLeft(p, 1)
    }

    function StepReflected(p: Word): Word
      requires Valid()
    {
      if p[0] then Xor(ShiftRight(p, 1), ReflectedPolynomial()) else ShiftRight(p, 1)
    }

    function StepsNormal(p: Word, n: nat): Word
      requires Valid()
    {
      if n == 0 then p else StepNormal(StepsNormal(p, n - 1))
    }

    function StepsReflected(p: Word, n: nat): Word
      requires Valid()
    {
      if n == 0 then p else StepReflected(StepsReflected(p, n - 1))
    }

    /** The table entry at an index of n bits: n reflected bit steps from the index. */
    function TableEntry(index: Word, n: nat): Word
      requires Valid()
    {
      StepsReflected(And(index, LowMask(n)), n)
    }

    // ---- one byte, and a buffer ----

    function AbsorbByte(crc: Word, b: Byte): Word
      requires Valid()
    {
      match mode
      case Bitwise =>
        if reflectData then StepsReflected(Xor(crc, Extend(b)), 8)
        else StepsNormal(Xor(crc, ShiftLeft(Extend(b), 24)), 8)
      case Table256 =>
        var d := Extend(if reflectData then b else Reversed(b));
        Xor(TableEntry(Xor(d, crc), 8), ShiftRight(crc, 8))
      case Table16 =>
        var d := Extend(if reflectData then b else Reversed(b));
        var half := Xor(TableEntry(Xor(d, crc), 4), ShiftRight(crc, 4));
        Xor(TableEntry(Xor(ShiftRight(d, 4), half), 4), ShiftRight(half, 4))
    }

    function Absorb(crc: Word, data: seq<Byte>): Word
      requires Valid()
    {
      if data == [] then crc
      else AbsorbByte(Absorb(crc, data[..|data| - 1]), data[|data| - 1])
    }

    // ---- the end of a computation ----

    /** The checksum moved to the bottom of the register, in the order asked for. */
    function Aligned(crc: Word): Word
      requires Valid()
    {
      if mode.Bitwise? && !reflectData
      then if reflectRemainder then Reversed(crc) else ShiftRight(crc, 32 - width)
      else if reflectRemainder then crc else ReflectCrc(crc)
    }

    function Finish(crc: Word): Word
      requires Valid()
    {
      And(Xor(Aligned(crc), finalXor), LowMask(width))
    }

    // ---- what a checksum is ----

    /** x^width plus the polynomial's lower terms. */
    ghost function Generator(): nat
      requires Valid()
    {
      Add(Pow2(width), Poly(polynomial[..width]))
    }

    /** The order in which the bits of a byte count as coefficients. */
    function Fed(b: Byte): Byte {
      if reflectData then Reversed(b) else b
    }

    ghost function MessagePoly(data: seq<Byte>): nat {
      if data == [] then 0
      else Add(Shift(MessagePoly(data[..|data| - 1]), 8), Poly(Fed(data[|data| - 1])))
    }

    /** message * x^width + seed * x^(8 * size) */
    ghost function Dividend(data: seq<Byte>): nat
      requires Valid()
    {
      Add(Shift(MessagePoly(data), width), Shift(Poly(initialXor[..width]), 8 * |data|))
    }

    /** The remainder of the dividend by the generator, mirrored if asked for, with the final xor. */
    ghost predicate IsCrcOf(data: seq<Byte>, crc: Word)
      requires Valid()
    {
      exists r: Bits ::
        && |r| == width
        && IsRemainder(Dividend(data), Generator(), width, Poly(r))
        && crc == Xor(if reflectRemainder then Reversed(r) else r, finalXor[..width]) + Zeros(32 - width)
    }

    // ---- all modes drive one register ----

    /** The register as the MSB-first algorithm would hold it. */
    ghost function View(crc: Word): Word {
      if mode.Bitwise? && !reflectData then crc else Reversed(crc)
    }

    lemma MirrorStep(p: Word)
      requires Valid()
      ensures Reversed(StepReflected(p)) == StepNormal(Reversed(p))
    {
      ReversedShift(p, 1);
      ReversedShift(Reversed(polynomial), 32 - width);
      ReversedTwice(polynomial);
      ReversedXor(ShiftRight(p, 1), ReflectedPolynomial());
    }

    lemma {:induction false} MirrorSteps(p: Word, q: Word, n: nat)
      requires Valid() && q == Reversed(p)
      ensures StepsNormal(q, n) == Reversed(StepsReflected(p, n))
    {
      if n == 0 {
        assert StepsNormal(q, n) == q;
      } else {
        MirrorSteps(p, q, n - 1);
        MirrorNext(p, q, n);
      }
    }

    lemma MirrorNext(p: Word, q: Word, n: nat)
      requires Valid() && n > 0 && StepsNormal(q, n - 1) == Reversed(StepsReflected(p, n - 1))
      ensures StepsNormal(q, n) == Reversed(StepsReflected(p, n))
    {
      MirrorStep(StepsReflected(p, n - 1));
    }

    lemma StepLinear(x: Word, y: Word)
      requires Valid()
      ensures StepReflected(Xor(x, y)) == Xor(StepReflected(x), StepReflected(y))
    {
    }

    lemma {:induction false} StepsLinear(x: Word, y: Word, n: nat)
      requires Valid()
      ensures StepsReflected(Xor(x, y), n) == Xor(StepsReflected(x, n), StepsReflected(y, n))
    {
      if n > 0 {
        StepsLinear(x, y, n - 1);
        StepLinear(StepsReflected(x, n - 1), StepsReflected(y, n - 1));
      }
    }

    /** With nothing to divide in the n low bits, n steps are a plain shift. */
    lemma {:induction false} StepsIdle(x: Word, n: nat)
      requires Valid() && n <= 32 && forall i :: 0 <= i < n ==> !x[i]
      ensures StepsReflected(x, n) == ShiftRight(x, n)
    {
      if n > 0 {
        StepsIdle(x, n - 1);
      } else {
        assert ShiftRight(x, 0) == x;
      }
    }

    /** One table look-up stands for n bit steps. */
    lemma TableStep(z: Word, n: nat)
      requires Valid() && n <= 32
      ensures Xor(TableEntry(z, n), ShiftRight(z, n)) == StepsReflected(z, n)
    {
      var low := And(z, LowMask(n));
      var high := Xor(z, low);
      assert z == Xor(low, high);
      StepsLinear(low, high, n);
      StepsIdle(high, n);
      assert ShiftRight(high, n) == ShiftRight(z, n);
    }

    /** After k of an entry's n steps, what is left of the index and the width's bits are all that can be set. */
    lemma {:induction false} StepsFit(index: Word, n: nat, k: nat)
      requires Valid() && k <= n
      ensures forall i :: width <= i < 32 && n - k <= i ==> !StepsReflected(And(index, LowMask(n)), k)[i]
    {
      if k > 0 {
        StepsFit(index, n, k - 1);
      }
    }

    /** A table entry fits the table's element type, 8, 16 or 32 bits wide, in both table sizes. */
    lemma TableEntryFits(index: Word, n: nat)
      requires Valid()
      ensures forall i :: width <= i < 32 ==> !TableEntry(index, n)[i]
    {
      StepsFit(index, n, n);
    }

    lemma {:induction false} StepsCompose(p: Word, m: nat, n: nat)
      requires Valid()
      ensures StepsReflected(StepsReflected(p, m), n) == StepsReflected(p, m + n)
    {
      if n > 0 {
        StepsCompose(p, m, n - 1);
      }
    }

    lemma TableByte(crc: Word, d: Byte)
      requires Valid()
      ensures Xor(TableEntry(Xor(Extend(d), crc), 8), ShiftRight(crc, 8)) == StepsReflected(Xor(crc, Extend(d)), 8)
    {
      var z := Xor(crc, Extend(d));
      TableStep(z, 8);
      assert Xor(Extend(d), crc) == z;
      assert ShiftRight(z, 8) == ShiftRight(crc, 8);
    }

    lemma TableNibbles(crc: Word, d: Byte)
      requires Valid()
      ensures
        var half := Xor(TableEntry(Xor(Extend(d), crc), 4), ShiftRight(crc, 4));
        Xor(TableEntry(Xor(ShiftRight(Extend(d), 4), half), 4), ShiftRight(half, 4))
        == StepsReflected(Xor(crc, Extend(d)), 8)
    {
      var z := Xor(crc, Extend(d));
      assert Xor(Extend(d), crc) == z;
      var half := Xor(TableEntry(z, 4), ShiftRight(crc, 4));
      var rest := ShiftRight(Extend(d), 4);
      TableStep(z, 4);
      var z' := Xor(rest, half);
      assert z' == Xor(TableEntry(z, 4), ShiftRight(z, 4));
      TableStep(z', 4);
      assert ShiftRight(half, 4) == ShiftRight(z', 4);
      StepsCompose(z, 4, 4);
    }

    ghost function NormalByte(p: Word, b: Byte): Word
      requires Valid()
    {
      StepsNormal(Xor(p, ShiftLeft(Extend(b), 24)), 8)
    }

    lemma AbsorbByteView(crc: Word, b: Byte)
      requires Valid()
      ensures View(AbsorbByte(crc, b)) == NormalByte(View(crc), Fed(b))
    {
      if !(mode.Bitwise? && !reflectData) {
        var d: Byte := if reflectData then b else Reversed(b);
        var p := Xor(crc, Extend(d));
        AbsorbReflected(crc, b, d);
        MirrorSteps(p, Reversed(p), 8);
        MirroredByte(crc, d);
        assert Fed(b) == Reversed(d);
      }
    }

    /** All but the normal bitwise mode take a byte in eight reflected steps. */
    lemma AbsorbReflected(crc: Word, b: Byte, d: Byte)
      requires Valid() && !(mode.Bitwise? && !reflectData) && d == if reflectData then b else Reversed(b)
      ensures AbsorbByte(crc, b) == StepsReflected(Xor(crc, Extend(d)), 8)
    {
      if mode.Table256? {
        TableByte(crc, d);
      } else if mode.Table16? {
        TableNibbles(crc, d);
      }
    }

    lemma MirroredByte(crc: Word, d: Byte)
      ensures Reversed(Xor(crc, Extend(d))) == Xor(Reversed(crc), ShiftLeft(Extend(Reversed(d)), 24))
    {
    }

    lemma {:induction false} AbsorbConcat(crc: Word, a: seq<Byte>, b: seq<Byte>)
      requires Valid()
      ensures Absorb(crc, a + b) == Absorb(Absorb(crc, a), b)
    {
      if b == [] {
        assert a + b == a;
      } else {
        assert (a + b)[..|a + b| - 1] == a + b[..|b| - 1];
        AbsorbConcat(crc, a, b[..|b| - 1]);
      }
    }

    // ---- the register is a remainder ----

    ghost function WideGenerator(): nat
      requires Valid()
    {
      Add(Pow2(32), Poly(TopPolynomial()))
    }

    lemma StepCongruent(p: Word)
      requires Valid()
      ensures Congruent(2 * Poly(p), Poly(StepNormal(p)), WideGenerator())
    {
      PolyShiftLeftOne(p);
      var s, t := Poly(ShiftLeft(p, 1)), Poly(TopPolynomial());
      if p[31] {
        PolyXor(ShiftLeft(p, 1), TopPolynomial());
        // 2p = x^32 + s, and (x^32 + s) + (x^32 + t) = s + t
        AddSwap(Pow2(32), s, Pow2(32), t);
        AddSelf(Pow2(32));
        CongruentPlusG(2 * Poly(p), WideGenerator());
      } else {
        CongruentSelf(2 * Poly(p), WideGenerator());
      }
    }

    lemma {:induction false} StepsCongruent(p: Word, n: nat)
      requires Valid()
      ensures Congruent(Shift(Poly(p), n), Poly(StepsNormal(p, n)), WideGenerator())
    {
      if n == 0 {
        CongruentSelf(Poly(p), WideGenerator());
      } else {
        StepsCongruent(p, n - 1);
        var q := StepsNormal(p, n - 1);
        CongruentDouble(Shift(Poly(p), n - 1), Poly(q), WideGenerator());
        StepCongruent(q);
        CongruentTrans(Shift(Poly(p), n), 2 * Poly(q), Poly(StepsNormal(p, n)), WideGenerator());
      }
    }

    /** A byte entering a register that already stands for the dividend d. */
    lemma ByteCongruent(d: nat, p: Word, b: Byte)
      requires Valid() && Congruent(d, Poly(p), WideGenerator())
      ensures Congruent(Add(Shift(d, 8), Shift(Poly(b), 32)), Poly(NormalByte(p, b)), WideGenerator())
    {
      var g := WideGenerator();
      var placed := ShiftLeft(Extend(b), 24);
      assert placed == Zeros(24) + b;
      PolyShift(b, 24);
      PolyXor(p, placed);
      var fed := Xor(p, placed);
      CongruentAdd(d, Poly(p), Poly(placed), g);
      ShiftCongruent(Add(d, Poly(placed)), Poly(fed), g, 8);
      AddShift(d, Poly(placed), 8);
      ShiftShift(Poly(b), 24, 8);
      StepsCongruent(fed, 8);
      CongruentTrans(Shift(Add(d, Poly(placed)), 8), Shift(Poly(fed), 8), Poly(NormalByte(p, b)), g);
    }

    ghost function WideDividend(data: seq<Byte>): nat
      requires Valid()
    {
      Add(Shift(MessagePoly(data), 32), Shift(Poly(View(InitialValue())), 8 * |data|))
    }

    lemma WideDividendNext(data: seq<Byte>)
      requires Valid() && data != []
      ensures
        var init, b := data[..|data| - 1], data[|data| - 1];
        WideDividend(data) == Add(Shift(WideDividend(init), 8), Shift(Poly(Fed(b)), 32))
    {
      var init, b := data[..|data| - 1], data[|data| - 1];
      Regroup(MessagePoly(init), Poly(View(InitialValue())), Poly(Fed(b)), 32, 8 * |init|, 8);
    }

    lemma {:induction false} RegisterCongruent(data: seq<Byte>)
      requires Valid()
      ensures Congruent(WideDividend(data), Poly(View(Absorb(InitialValue(), data))), WideGenerator())
    {
      var seed := Poly(View(InitialValue()));
      if data == [] {
        ShiftZero(32);
        CongruentSelf(seed, WideGenerator());
      } else {
        var init, b := data[..|data| - 1], data[|data| - 1];
        RegisterCongruent(init);
        AbsorbByteView(Absorb(InitialValue(), init), b);
        ByteCongruent(WideDividend(init), View(Absorb(InitialValue(), init)), Fed(b));
        WideDividendNext(data);
      }
    }

    // ---- from the 32-bit register down to the declared width ----

    /** The bits below the checksum stay clear. */
    lemma {:induction false} StepsLowClear(p: Word, n: nat)
      requires Valid()
      requires forall i :: 0 <= i < 32 - width && i < 24 ==> !p[i]
      ensures forall i :: 0 <= i < 32 - width && i < 24 + n ==> !StepsNormal(p, n)[i]
    {
      if n > 0 {
        StepsLowClear(p, n - 1);
      }
    }

    lemma {:induction false} RegisterLowClear(data: seq<Byte>)
      requires Valid()
      ensures forall i :: 0 <= i < 32 - width ==> !View(Absorb(InitialValue(), data))[i]
    {
      if data != [] {
        var init, b := data[..|data| - 1], data[|data| - 1];
        RegisterLowClear(init);
        AbsorbByteView(Absorb(InitialValue(), init), b);
        StepsLowClear(Xor(View(Absorb(InitialValue(), init)), ShiftLeft(Extend(Fed(b)), 24)), 8);
      }
    }

    lemma NarrowGenerator()
      requires Valid()
      ensures WideGenerator() == Shift(Generator(), 32 - width)
      ensures Pow2(width) <= Generator() < Pow2(width + 1)
    {
      assert TopPolynomial() == Zeros(32 - width) + polynomial[..width];
      PolyShift(polynomial[..width], 32 - width);
      AddShift(Pow2(width), Poly(polynomial[..width]), 32 - width);
      ShiftOne(width);
      ShiftOne(32);
      ShiftShift(1, width, 32 - width);
      AddKeepsDegree(Pow2(width), Poly(polynomial[..width]), width);
    }

    lemma SeedView()
      requires Valid()
      ensures View(InitialValue()) == Zeros(32 - width) + initialXor[..width]
    {
      if !(mode.Bitwise? && !reflectData) {
        ReversedShift(Reversed(initialXor), 32 - width);
        ReversedTwice(initialXor);
      }
      assert ShiftLeft(initialXor, 32 - width) == Zeros(32 - width) + initialXor[..width];
    }

    lemma NarrowDividend(data: seq<Byte>)
      requires Valid()
      ensures WideDividend(data) == Shift(Dividend(data), 32 - width)
    {
      var k := 32 - width;
      var seed := initialXor[..width];
      SeedView();
      PolyShift(seed, k);
      ShiftShift(MessagePoly(data), width, k);
      ShiftShift(Poly(seed), k, 8 * |data|);
      ShiftShift(Poly(seed), 8 * |data|, k);
      AddShift(Shift(MessagePoly(data), width), Shift(Poly(seed), 8 * |data|), k);
    }

    /** The top `width` bits of the register are the remainder of the dividend by the generator. */
    lemma RegisterIsRemainder(data: seq<Byte>)
      requires Valid()
      ensures
        var r := View(Absorb(InitialValue(), data))[32 - width..];
        |r| == width && IsRemainder(Dividend(data), Generator(), width, Poly(r))
    {
      var v := View(Absorb(InitialValue(), data));
      var r := v[32 - width..];
      RegisterLowClear(data);
      assert v == Zeros(32 - width) + r;
      PolyShift(r, 32 - width);
      RegisterCongruent(data);
      NarrowGenerator();
      NarrowDividend(data);
      CongruentUnshift(Dividend(data), Poly(r), Generator(), 32 - width);
    }

    lemma AlignedShape(crc: Word)
      requires Valid()
      ensures
        var r := View(crc)[32 - width..];
        Aligned(crc)[..width] == if reflectRemainder then Reversed(r) else r
    {
      var r := View(crc)[32 - width..];
      if reflectRemainder {
        assert forall i :: 0 <= i < width ==> Aligned(crc)[i] == View(crc)[31 - i];
      } else {
        assert forall i :: 0 <= i < width ==> Aligned(crc)[i] == View(crc)[i + (32 - width)];
      }
    }

    lemma FinishShape(crc: Word)
      requires Valid()
      ensures
        var r := View(crc)[32 - width..];
        Finish(crc) == Xor(if reflectRemainder then Reversed(r) else r, finalXor[..width]) + Zeros(32 - width)
    {
      AlignedShape(crc);
      MaskedXor(Aligned(crc), finalXor, width);
    }

    lemma FinishedIsCrc(data: seq<Byte>)
      requires Valid()
      ensures IsCrcOf(data, Finish(Absorb(InitialValue(), data)))
    {
      RegisterIsRemainder(data);
      FinishShape(Absorb(InitialValue(), data));
    }

    /** A message has one checksum, however it is computed. */
    lemma CrcUnique(data: seq<Byte>, a: Word, b: Word)
      requires Valid()
      ensures IsCrcOf(data, a) && IsCrcOf(data, b) ==> a == b
    {
      if !IsCrcOf(data, a) || !IsCrcOf(data, b) {
        return;
      }
      var r: Bits :|
        && |r| == width
        && IsRemainder(Dividend(data), Generator(), width, Poly(r))
        && a == Xor(if reflectRemainder then Reversed(r) else r, finalXor[..width]) + Zeros(32 - width);
      var s: Bits :|
        && |s| == width
        && IsRemainder(Dividend(data), Generator(), width, Poly(s))
        && b == Xor(if reflectRemainder then Reversed(s) else s, finalXor[..width]) + Zeros(32 - width);
      NarrowGenerator();
      RemainderUnique(Dividend(data), Generator(), width, Poly(r), Poly(s));
      PolyInjective(r, s);
    }

    // ---- the public interface ----

    method ComputePartialStart() returns (crc: Word)
      requires Valid()
      ensures crc == InitialValue()
    {
      crc := InitialValue();
    }

    method ComputePartial(data: seq<Byte>, crc: Word) returns (result: Word)
      requires Valid()
      ensures result == Absorb(crc, data)
    {
      result := crc;
      if mode.Bitwise? {
        for byte := 0 to |data|
          invariant result == Absorb(crc, data[..byte])
        {
          ghost var before := result;
          assert data[..byte + 1][..byte] == data[..byte];
          result := Xor(result, if reflectData then Extend(data[byte]) else ShiftLeft(Extend(data[byte]), 24));
          ghost var fed := result;
          for bit := 0 to 8
            invariant result == if reflectData then StepsReflected(fed, bit) else StepsNormal(fed, bit)
          {
            result := if reflectData then StepReflected(result) else StepNormal(result);
          }
          assert result == AbsorbByte(before, data[byte]);
        }
      } else {
        for byte := 0 to |data|
          invariant result == Absorb(crc, data[..byte])
        {
          assert data[..byte + 1][..byte] == data[..byte];
          var dataByte := Extend(if reflectData then data[byte] else Reversed(data[byte]));
          if mode.Table16? {
            result := Xor(TableEntry(Xor(dataByte, result), 4), ShiftRight(result, 4));
            dataByte := ShiftRight(dataByte, 4);
            result := Xor(TableEntry(Xor(dataByte, result), 4), ShiftRight(result, 4));
          } else {
            result := Xor(TableEntry(Xor(dataByte, result), 8), ShiftRight(result, 8));
          }
        }
      }
      assert data[..|data|] == data;
    }

    method ComputePartialStop(crc: Word) returns (result: Word)
      requires Valid()
      ensures result == Finish(crc)
    {
      result := crc;
      if mode.Bitwise? {
        if reflectData {
          if !reflectRemainder {
            result := ReflectCrc(result);
          }
        } else {
          result := if reflectRemainder then Reversed(result) else ShiftRight(result, 32 - width);
        }
      } else if !reflectRemainder {
        result := ReflectCrc(result);
      }
      result := And(Xor(result, finalXor), LowMask(width));
    }

    method Compute(data: seq<Byte>) returns (crc: Word)
      requires Valid()
      ensures IsCrcOf(data, crc)
    {
      crc := ComputePartialStart();
      crc := ComputePartial(data, crc);
      crc := ComputePartialStop(crc);
      FinishedIsCrc(data);
    }

    /** Any division of a message into partial calls: start, one call per part, stop. */
    method ComputeInParts(parts: seq<seq<Byte>>) returns (crc: Word)
      requires Valid()
      ensures IsCrcOf(Concat(parts), crc)
    {
      crc := ComputePartialStart();
      for k := 0 to |parts|
        invariant crc == Absorb(InitialValue(), Concat(parts[..k]))
      {
        AbsorbConcat(InitialValue(), Concat(parts[..k]), parts[k]);
        assert parts[..k + 1][..k] == parts[..k];
        crc := ComputePartial(parts[k], crc);
      }
      assert parts[..|parts|] == parts;
      crc := ComputePartialStop(crc);
      FinishedIsCrc(Concat(parts));
    }
  }

  function AbsorbParts(c: MbedCrc, crc: Word, parts: seq<seq<Byte>>): Word
    requires c.Valid()
  {
    if parts == [] then crc else c.Absorb(AbsorbParts(c, crc, parts[..|parts| - 1]), parts[|parts| - 1])
  }

  lemma {:induction false} AbsorbPartsConcat(c: MbedCrc, parts: seq<seq<Byte>>)
    requires c.Valid()
    ensures AbsorbParts(c, c.InitialValue(), parts) == c.Absorb(c.InitialValue(), Concat(parts))
  {
    if parts != [] {
      AbsorbPartsConcat(c, parts[..|parts| - 1]);
      c.AbsorbConcat(c.InitialValue(), Concat(parts[..|parts| - 1]), parts[|parts| - 1]);
    }
  }

  lemma {:induction false} SameMessage(c: MbedCrc, mode: CrcMode, data: seq<Byte>)
    ensures c.(mode := mode).MessagePoly(data) == c.MessagePoly(data)
  {
    if data != [] {
      SameMessage(c, mode, data[..|data| - 1]);
    }
  }

  /** Table mode, with either table size, and any division into partial calls give the bitwise checksum. */
  lemma ModesAgree(c: MbedCrc, mode: CrcMode, parts: seq<seq<Byte>>)
    requires c.Valid()
    ensures
      var t := c.(mode := mode);
      t.Finish(AbsorbParts(t, t.InitialValue(), parts)) == c.Finish(c.Absorb(c.InitialValue(), Concat(parts)))
  {
    var t := c.(mode := mode);
    AbsorbPartsConcat(t, parts);
    t.FinishedIsCrc(Concat(parts));
    c.FinishedIsCrc(Concat(parts));
    SameMessage(c, mode, Concat(parts));
    assert t.Dividend(Concat(parts)) == c.Dividend(Concat(parts)) && t.Generator() == c.Generator();
    assert c.IsCrcOf(Concat(parts), t.Finish(t.Absorb(t.InitialValue(), Concat(parts))));
    c.CrcUnique(Concat(parts), t.Finish(t.Absorb(t.InitialValue(), Concat(parts))),
                c.Finish(c.Absorb(c.InitialValue(), Concat(parts))));
  }
}
