/** Integer to text in a caller's buffer (itoa.c). */
module Itoa {
  import opened CTypes
  import opened Numerals
  import opened Printing

  /** What ltoa leaves in front of the terminating zero byte. */
  function LtoaText(value: int32, radix: int): string
    requires 2 <= radix <= 36
  {
    if radix == 10 && value < 0 then "-" + NumeralIn(Magnitude(value), radix, 'a')
    else NumeralIn(AsUnsigned32(value), radix, 'a')
  }

  /** A minus sign only in base 10; any other base shows the two's complement pattern. */
  method Ltoa(value: int32, dest: array?<char>, radix: int) returns (ok: bool)
    requires dest != null && 2 <= radix <= 36 ==> dest.Length > |LtoaText(value, radix)|
    modifies if dest == null then {} else {dest}
    ensures ok <==> dest != null && 2 <= radix <= 36
    ensures ok ==> dest[..|LtoaText(value, radix)| + 1] == LtoaText(value, radix) + ['\0']
    ensures !ok && dest != null ==> dest[..] == old(dest[..])
  {
    if dest == null || radix > 36 || radix <= 1 {
      return false;
    }
    var sign := radix == 10 && value < 0;
    if sign {
      NegatedAsUnsigned(value);
    }
    var v: uint32 := if sign then AsUnsigned32(Negated32(value)) else AsUnsigned32(value);
    var tmp := new char[33];
    DigitsFit(v, radix, 32);
    var tp := StoreForward(v, radix, tmp);
    var sp := 0;
    if sign {
      dest[0] := '-';
      sp := 1;
    }
    CopyReversed(tmp, tp, dest, sp);
    ok := true;
  }

  method Ultoa(value: uint32, dest: array?<char>, radix: int) returns (ok: bool)
    requires dest != null && 2 <= radix <= 36 ==> dest.Length > |NumeralIn(value, radix, 'a')|
    modifies if dest == null then {} else {dest}
    ensures ok <==> dest != null && 2 <= radix <= 36
    ensures ok ==> dest[..|NumeralIn(value, radix, 'a')| + 1] == NumeralIn(value, radix, 'a') + ['\0']
    ensures !ok && dest != null ==> dest[..] == old(dest[..])
  {
    if dest == null || radix > 36 || radix <= 1 {
      return false;
    }
    var tmp := new char[33];
    DigitsFit(value, radix, 32);
    var tp := StoreForward(value, radix, tmp);
    CopyReversed(tmp, tp, dest, 0);
    ok := true;
  }

  /** The digit loop: digits go into tmp lowest first, at least one of them. */
  method StoreForward(value: nat, radix: nat, tmp: array<char>) returns (tp: nat)
    requires 2 <= radix <= 36 && |Digits(value, radix)| <= 32 && tmp.Length == 33
    modifies tmp
    ensures tp <= 32 && Rev(tmp[..tp]) == NumeralIn(value, radix, 'a')
  {
    var v: nat := value;
    ghost var text := NumeralIn(value, radix, 'a');
    DigitsAreNumeral(value, radix);
    tp := 0;
    while v != 0 || tp == 0
      invariant 0 <= tp <= |text|
      invariant if v != 0 || tp == 0 then Pending(text, v, radix, Rev(tmp[..tp]), 'a') else text == Rev(tmp[..tp])
      decreases v, if tp == 0 then 1 else 0
    {
      PendingStep(text, v, radix, Rev(tmp[..tp]), 'a');
      DivMod(v, radix);
      var i: nat := v % radix;
      v := v / radix;
      ghost var stored := tmp[..tp];
      tmp[tp] := DigitChar(i, 'a');
      tp := tp + 1;
      assert tmp[..tp] == stored + [DigitChar(i, 'a')];
      RevSnoc(stored, DigitChar(i, 'a'));
    }
  }

  /** Copies tmp[..count] backwards to the destination and terminates it. */
  method CopyReversed(tmp: array<char>, count: nat, dest: array<char>, start: nat)
    requires count <= tmp.Length && start + count < dest.Length && tmp != dest
    modifies dest
    ensures dest[..start + count + 1] == old(dest[..start]) + Rev(tmp[..count]) + ['\0']
  {
    var tp, sp := count, start;
    ghost var r := Rev(tmp[..count]);
    while tp > 0
      invariant 0 <= tp <= count && sp == start + (count - tp)
      invariant dest[..sp] == old(dest[..start]) + r[..count - tp]
      invariant tmp[..] == old(tmp[..])
    {
      tp := tp - 1;
      RevIndex(tmp[..count], count - 1 - tp);
      dest[sp] := tmp[tp];
      sp := sp + 1;
      assert r[..count - tp] == r[..count - tp - 1] + [tmp[tp]];
    }
    dest[sp] := '\0';
    assert r[..count] == r;
  }

  /** The upper-case form of a digit letter. */
  function Upper(c: char): char {
    if 'a' <= c <= 'z' then c - 'a' + 'A' else c
  }

  /** itoa.c and Print agree up to letter case. */
  lemma SameUpToCase(n: nat, radix: nat)
    requires 2 <= radix <= 36
    ensures |NumeralIn(n, radix, 'a')| == |Numeral(n, radix)|
    ensures forall i :: 0 <= i < |Numeral(n, radix)| ==> Upper(NumeralIn(n, radix, 'a')[i]) == Numeral(n, radix)[i]
  {
    DigitsAreNumeral(n, radix);
  }

  /** The value of a digit character. */
  function DigitValue(c: char): nat {
    if '0' <= c <= '9' then (c - '0') as nat else if 'a' <= c <= 'z' then (c - 'a') as nat + 10 else 0
  }

  lemma DigitOfChar(d: nat)
    requires d < 36
    ensures DigitValue(DigitChar(d, 'a')) == d
    ensures '0' <= DigitChar(d, 'a') <= '9' || 'a' <= DigitChar(d, 'a') <= 'z'
  {
  }

  /** The digits that a text spells. */
  function DigitsOf(s: string): (ds: seq<nat>)
    ensures |ds| == |s|
  {
    seq(|s|, i requires 0 <= i < |s| => DigitValue(s[i]))
  }

  /** The text spells the number: no sign, no leading zero, and the right value by position. */
  lemma TextValue(n: nat, radix: nat)
    requires 2 <= radix <= 36
    ensures
      var s := NumeralIn(n, radix, 'a');
      && (forall i :: 0 <= i < |s| ==> '0' <= s[i] <= '9' || 'a' <= s[i] <= 'z')
      && IsNumeral(DigitsOf(s), radix) && Value(DigitsOf(s), radix) == n
  {
    DigitsAreNumeral(n, radix);
    var s, ds := NumeralIn(n, radix, 'a'), Digits(n, radix);
    forall i | 0 <= i < |s|
      ensures DigitValue(s[i]) == ds[i] && ('0' <= s[i] <= '9' || 'a' <= s[i] <= 'z')
    {
      DigitOfChar(ds[i]);
    }
    assert DigitsOf(s) == ds;
  }

  /** What the text says: a number by position, negative behind a minus sign. */
  function SignedValue(s: string, radix: nat): int {
    if s != "" && s[0] == '-' then -(Value(DigitsOf(s[1..]), radix) as int) else Value(DigitsOf(s), radix)
  }

  /** A text of this value, with a minus sign or not, and without leading zeros. */
  ghost predicate ReadsAs(s: string, radix: nat, value: int, minus: bool) {
    && s != "" && (s[0] == '-' <==> minus) && SignedValue(s, radix) == value
    && IsNumeral(DigitsOf(if minus then s[1..] else s), radix)
  }

  /** The text of ltoa read back: in base 10 the value, with a sign exactly if it is negative; in any other
      base the unsigned number congruent to it modulo 2^32. There is no leading zero in any base. */
  lemma LtoaReadsBack(value: int32, radix: int)
    requires 2 <= radix <= 36
    ensures ReadsAs(LtoaText(value, radix), radix,
                    if radix != 10 && value < 0 then value + 0x1_0000_0000 else value, radix == 10 && value < 0)
  {
    if radix == 10 && value < 0 {
      BehindSign(Magnitude(value), radix, value);
    } else {
      UnsignedOf(value);
      WithoutSign(AsUnsigned32(value), radix);
    }
  }

  lemma UnsignedOf(value: int32)
    ensures AsUnsigned32(value) == if value < 0 then value + 0x1_0000_0000 else value
  {
  }

  lemma BehindSign(m: nat, radix: nat, value: int)
    requires 2 <= radix <= 36 && m + value == 0
    ensures ReadsAs("-" + NumeralIn(m, radix, 'a'), radix, value, true)
  {
    TextValue(m, radix);
    var digits := NumeralIn(m, radix, 'a');
    assert ("-" + digits)[1..] == digits;
  }

  lemma WithoutSign(n: nat, radix: nat)
    requires 2 <= radix <= 36
    ensures ReadsAs(NumeralIn(n, radix, 'a'), radix, n, false)
  {
    TextValue(n, radix);
  }

  lemma TenDigits()
    ensures Pow(10, 10) == 10_000_000_000
  {
    assert Pow(10, 5) == 100_000 by { assert Pow(10, 3) == 1000; }
    PowSplit(10, 5, 5);
  }

  /** Room enough in the callers' stack buffers: 2 + 8 * 4 bytes for any radix, 2 + 3 * 4 bytes for decimal. */
  lemma LtoaFits(value: int32, radix: int)
    requires 2 <= radix <= 36
    ensures |LtoaText(value, radix)| < 2 + 8 * 4
    ensures radix == 10 ==> |LtoaText(value, radix)| < 2 + 3 * 4
  {
    DigitsFit(AsUnsigned32(value), radix, 32);
    if radix == 10 {
      TenDigits();
      DigitsBound(Magnitude(value), 10, 10);
    }
  }

  /** The unsigned callers have room for 8 digits a byte, or 3 in decimal, and the terminating zero. */
  lemma UltoaFits(value: uint32, radix: int)
    requires 2 <= radix <= 36
    ensures |NumeralIn(value, radix, 'a')| < 1 + 8 * 4
    ensures radix == 10 ==> |NumeralIn(value, radix, 'a')| < 1 + 3 * 4
    ensures value < 0x100 ==> |NumeralIn(value, radix, 'a')| < 1 + 8 * 1
    ensures value < 0x100 && radix == 10 ==> |NumeralIn(value, radix, 'a')| < 1 + 3 * 1
  {
    DigitsFit(value, radix, 32);
    if radix == 10 {
      TenDigits();
      DigitsBound(value, 10, 10);
    }
    if value < 0x100 {
      PowMono(2, radix, 8);
      assert Pow(2, 8) == 0x100 by { assert Pow(2, 4) == 16; PowSplit(2, 4, 4); }
      DigitsBound(value, radix, 8);
      if radix == 10 {
        assert Pow(10, 3) == 1000;
        DigitsBound(value, 10, 3);
      }
    }
  }
}
