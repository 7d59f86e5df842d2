/** Number printing (Print.cpp). */
module Printing {
  import opened CTypes
  import opened Numerals

  /** The character of a digit, in an 8-bit character; letters start at `ten` and run on behind 'Z' or 'z'. */
  function DigitChar(d: nat, ten: char): char
    requires d < 0x100 && ten <= 'a'
  {
    if d < 10 then '0' + d as char else ((ten as int + (d - 10)) % 0x100) as char
  }

  function Spell(ds: seq<nat>, ten: char): (s: string)
    requires ten <= 'a' && forall i :: 0 <= i < |ds| ==> ds[i] < 0x100
    ensures |s| == |ds|
  {
    seq(|ds|, i requires 0 <= i < |ds| => DigitChar(ds[i], ten))
  }

  /** n in the given base, in upper-case letters. */
  function Numeral(n: nat, base: nat): (s: string)
    requires 2 <= base <= 0x100
    ensures |s| > 0
  {
    NumeralIn(n, base, 'A')
  }

  function NumeralIn(n: nat, base: nat, ten: char): (s: string)
    requires 2 <= base <= 0x100 && ten <= 'a'
    ensures |s| > 0
  {
    DigitsAreNumeral(n, base);
    Spell(Digits(n, base), ten)
  }

  /** What a terminated string shows of these characters. */
  function CString(s: string): (shown: string)
    ensures |shown| <= |s|
  {
    if s == "" || s[0] == '\0' then "" else [s[0]] + CString(s[1..])
  }

  lemma {:induction false} CStringWhole(s: string)
    ensures CString(s) == s <==> '\0' !in s
    ensures CString(s + ['\0']) == CString(s)
  {
    if s == "" {
      assert "" + ['\0'] == ['\0'];
    } else {
      assert s == [s[0]] + s[1..] && (s + ['\0'])[1..] == s[1..] + ['\0'];
      CStringWhole(s[1..]);
    }
  }

  /** Digit 201 is the one that is written as the terminating character. */
  const NUL_DIGIT: nat := 201

  lemma SpelledWhole(ds: seq<nat>)
    requires forall i :: 0 <= i < |ds| ==> ds[i] < 0x100
    ensures CString(Spell(ds, 'A')) == Spell(ds, 'A') <==> NUL_DIGIT !in ds
  {
    var s := Spell(ds, 'A');
    CStringWhole(s);
    forall i | 0 <= i < |ds| ensures s[i] == '\0' <==> ds[i] == NUL_DIGIT {
      NulDigit(ds[i]);
    }
    if NUL_DIGIT in ds {
      var i :| 0 <= i < |ds| && ds[i] == NUL_DIGIT;
      assert s[i] == '\0';
    }
  }

  lemma NulDigit(d: nat)
    requires d < 0x100
    ensures DigitChar(d, 'A') == '\0' <==> d == NUL_DIGIT
  {
  }

  lemma NumeralWhole(n: nat, base: nat)
    requires 2 <= base <= 0x100
    ensures CString(Numeral(n, base)) == Numeral(n, base) <==> NUL_DIGIT !in Digits(n, base)
    ensures base <= NUL_DIGIT ==> CString(Numeral(n, base)) == Numeral(n, base)
  {
    DigitsAreNumeral(n, base);
    SpelledWhole(Digits(n, base));
  }

  const DEC: uint8 := 10

  /** Decimal text with a sign where it is needed. */
  function Decimal(n: int): string {
    if n < 0 then "-" + Numeral(-n, DEC) else Numeral(n, DEC)
  }

  // ---- what the devices return ----

  /** What a device's write of one character returns once it has taken the character. */
  type Single = char -> nat

  /** The USB serial port returns the character's code, where other devices return 1. */
  function UsbSingle(c: char): nat {
    c as nat
  }

  /** What the single-character writes of a text return together. */
  function Total(single: Single, s: string): nat {
    if s == "" then 0 else Total(single, s[..|s| - 1]) + single(s[|s| - 1])
  }

  lemma {:induction false} TotalConcat(single: Single, a: string, b: string)
    ensures Total(single, a + b) == Total(single, a) + Total(single, b)
    decreases |b|
  {
    if b == "" {
      assert a + b == a;
    } else {
      var n := |b| - 1;
      assert (a + b)[..|a| + n] == a + b[..n] && (a + b)[|a| + n] == b[n];
      TotalConcat(single, a, b[..n]);
    }
  }

  lemma TotalSnoc(single: Single, s: string, c: char)
    ensures Total(single, s + [c]) == Total(single, s) + single(c)
  {
    assert (s + [c])[..|s|] == s;
  }

  /** The sum is the number of characters if and only if each write returned 1. */
  lemma {:induction false} TotalIsLength(single: Single, s: string)
    requires forall i :: 0 <= i < |s| ==> single(s[i]) >= 1
    ensures Total(single, s) >= |s|
    ensures Total(single, s) == |s| <==> forall i :: 0 <= i < |s| ==> single(s[i]) == 1
    decreases |s|
  {
    if s != "" {
      var init := s[..|s| - 1];
      assert forall i :: 0 <= i < |init| ==> init[i] == s[i];
      TotalIsLength(single, init);
    }
  }

  /** Where printed characters go. The device takes all of them. */
  class Print {
    const single: Single
    var out: string

    constructor (single: Single)
      ensures out == "" && this.single == single
    {
      this.single, out := single, "";
    }

    /** A single character. */
    method Write(c: char) returns (n: nat)
      modifies this
      ensures out == old(out) + [c] && n == single(c)
    {
      out := out + [c];
      n := single(c);
    }

    /** Writes a terminated string as one block. */
    method WriteString(s: string) returns (n: nat)
      modifies this
      ensures out == old(out) + CString(s) && n == |CString(s)|
    {
      var shown := CString(s);
      out := out + shown;
      n := |shown|;
    }

    /** The 32-bit printer: digits are stored backwards from the end of a 33-byte buffer. */
    method PrintNumber(n: uint32, base: uint8) returns (count: nat)
      modifies this
      ensures base >= 2 ==> out == old(out) + CString(Numeral(n, base))
      ensures base < 2 ==> out == old(out) + Numeral(n, 10)
      ensures count == |out| - |old(out)| <= 32
    {
      var b: nat := if base < 2 then 10 else base;
      var buf := new char[33];
      DigitsFit(n, b, 32);
      var str := StoreBackwards(n, b, buf);
      CStringWhole(Numeral(n, b));
      NumeralWhole(n, b);
      count := WriteString(buf[str..]);
    }

    /** The reference form of the 64-bit printer. */
    method PrintULLNumberReference(n: uint64, base: uint8) returns (count: nat)
      modifies this
      ensures base >= 2 ==> out == old(out) + CString(Numeral(n, base))
      ensures base < 2 ==> out == old(out) + Numeral(n, 10)
      ensures count == |out| - |old(out)| <= 64
    {
      var b: nat := if base < 2 then 10 else base;
      var buf := new char[65];
      DigitsFit(n, b, 64);
      var str := StoreBackwards(n, b, buf);
      CStringWhole(Numeral(n, b));
      NumeralWhole(n, b);
      count := WriteString(buf[str..]);
    }

    /** The chunked 64-bit printer: several digits are peeled off at each 64-bit division.
        It writes what the reference form writes, except that zero leaves no digit at all. */
    method PrintULLNumber(n: uint64, base: uint8) returns (count: nat)
      modifies this
      ensures n == 0 ==> out == old(out)
      ensures n > 0 && base >= 2 ==> out == old(out) + Numeral(n, base)
      ensures n > 0 && base < 2 ==> out == old(out) + Numeral(n, 10)
      ensures count == |out| - |old(out)| <= 64
    {
      var b: nat := if base < 2 then 10 else base;
      DigitsFit(n, b, 64);
      SignificantSpelled(n, b);
      count := PrintDigits(n, b, SignificantDigits(n, b));
    }

    /** The chunked form, once the base is settled. */
    method PrintDigits(n: uint64, base: uint8, ghost digits: seq<nat>) returns (count: nat)
      requires 2 <= base && digits == SignificantDigits(n, base) && |digits| <= 64
      requires forall k :: 0 <= k < |digits| ==> digits[k] < 0x100
      modifies this
      ensures out == old(out) + Spell(digits, 'A') && count == |digits|
    {
      var th16, innerLoops := ChunkSize(base);
      var buf := new nat[64];
      count := FillChunks(n, base, th16, innerLoops, buf);
      WriteReversed(buf, count, digits);
    }

    /** Writes the first count digits of the buffer, last one first. */
    method WriteReversed(buf: array<nat>, count: nat, ghost digits: seq<nat>)
      requires count <= buf.Length && digits == Rev(buf[..count])
      requires forall k :: 0 <= k < |digits| ==> digits[k] < 0x100
      modifies this
      ensures out == old(out) + Spell(digits, 'A') && |out| == |old(out)| + count
    {
      var i := count;
      ghost var text := Spell(digits, 'A');
      while i > 0
        invariant 0 <= i <= count
        invariant out == old(out) + text[..count - i]
      {
        RevIndex(buf[..count], count - i);
        assert text[..count - i + 1] == text[..count - i] + [text[count - i]];
        var _ := Write(DigitChar(buf[i - 1], 'A'));
        i := i - 1;
      }
      assert text[..count] == text;
    }

    /** Base 0 stands for the raw byte. */
    method PrintUnsigned(n: uint32, base: int) returns (count: nat)
      modifies this
      ensures base == 0 ==> out == old(out) + [(n % 0x100) as char] && count == single((n % 0x100) as char)
      ensures base != 0 ==> count == |out| - |old(out)|
      ensures base % 0x100 >= 2 ==> out == old(out) + CString(Numeral(n, base % 0x100))
      ensures base != 0 && base % 0x100 < 2 ==> out == old(out) + Numeral(n, 10)
    {
      if base == 0 {
        count := Write((n % 0x100) as char);
      } else {
        count := PrintNumber(n, base % 0x100);
      }
    }

    method PrintInDecimal(n: uint32) returns (count: nat)
      modifies this
      ensures out == old(out) + Numeral(n, DEC) && count == |Numeral(n, DEC)|
    {
      NumeralWhole(n, DEC);
      count := PrintNumber(n, DEC);
    }

    /** An unsigned char in base 10. */
    method PrintDecimalByte(b: uint8) returns (count: nat)
      modifies this
      ensures out == old(out) + Numeral(b, DEC) && count == |Numeral(b, DEC)|
    {
      count := PrintInDecimal(b);
    }

    /** A signed long: a minus sign in base 10, the two's complement pattern in any other base. */
    method PrintLong(n: int32, base: int) returns (count: nat)
      modifies this
      ensures base == 10 ==> out == old(out) + Decimal(n)
      ensures base == 10 ==> count == |Decimal(n)| + if n < 0 then single('-') - 1 else 0
      ensures base == 0 ==> out == old(out) + [(n % 0x100) as char] && count == single((n % 0x100) as char)
      ensures base != 0 && base != 10 ==> count == |out| - |old(out)|
      ensures base % 0x100 >= 2 && base != 10 ==>
        out == old(out) + CString(Numeral(if n < 0 then n + 0x1_0000_0000 else n, base % 0x100))
      ensures base != 0 && base % 0x100 < 2 ==>
        out == old(out) + Numeral(if n < 0 then n + 0x1_0000_0000 else n, 10)
    {
      if base == 10 {
        count := PrintDecimal(n);
      } else {
        count := PrintUnsigned(AsUnsigned32(n), base);
      }
    }

    method PrintDecimal(n: int32) returns (count: nat)
      modifies this
      ensures out == old(out) + Decimal(n)
      ensures count == |Decimal(n)| + if n < 0 then single('-') - 1 else 0
    {
      if n < 0 {
        var t := Write('-');
        NegatedAsUnsigned(n);
        var c := PrintInDecimal(AsUnsigned32(Negated32(n)));
        count := c + t;
      } else {
        count := PrintInDecimal(n);
      }
    }
  }

  /** The chunked form writes what the reference form does if and only if the number is not zero and has no
      digit that the reference form takes for the end of its string. */
  lemma FastIsReference(n: nat, base: nat)
    requires 2 <= base < 0x100
    ensures (if n == 0 then "" else Numeral(n, base)) == CString(Numeral(n, base)) <==>
            n > 0 && NUL_DIGIT !in Digits(n, base)
  {
    NumeralWhole(n, base);
    assert n == 0 ==> Digits(n, base) == [0];
  }

  /** Negating in two's complement and reading the result as unsigned gives the magnitude, LONG_MIN included. */
  lemma NegatedAsUnsigned(n: int32)
    requires n < 0
    ensures AsUnsigned32(Negated32(n)) == Magnitude(n)
  {
  }

  lemma SignificantSpelled(n: nat, base: nat)
    requires 2 <= base <= 0x100
    ensures var ds := SignificantDigits(n, base);
      && (forall i :: 0 <= i < |ds| ==> ds[i] < 0x100)
      && Spell(ds, 'A') == if n == 0 then "" else Numeral(n, base)
  {
    SignificantIsDigits(n, base);
    DigitsAreNumeral(n, base);
    assert n == 0 ==> SignificantDigits(n, base) == [];
  }

  /** The digits of m are still to be stored in front of the tail. */
  ghost predicate Pending(text: string, m: nat, base: nat, tail: string, ten: char)
    requires base >= 2 && ten <= 'a'
  {
    && (forall i :: 0 <= i < |Digits(m, base)| ==> Digits(m, base)[i] < 0x100)
    && text == Spell(Digits(m, base), ten) + tail
  }

  lemma PendingStep(text: string, m: nat, base: nat, tail: string, ten: char)
    requires 2 <= base <= 0x100 && ten <= 'a' && Pending(text, m, base, tail, ten)
    ensures |tail| < |text| && Rem(m, base) < 0x100
    ensures Quot(m, base) == 0 ==> text == [DigitChar(Rem(m, base), ten)] + tail
    ensures Quot(m, base) > 0 ==>
      Quot(m, base) < m && Pending(text, Quot(m, base), base, [DigitChar(Rem(m, base), ten)] + tail, ten)
  {
    DigitsStep(m, base);
    var ds, rest, c := Digits(m, base), Digits(Quot(m, base), base), Rem(m, base);
    assert ds[|ds| - 1] == c;
    assert Spell(ds, ten) == Spell(ds[..|ds| - 1], ten) + [DigitChar(c, ten)];
    if Quot(m, base) > 0 {
      assert ds[..|ds| - 1] == rest;
      assert forall i :: 0 <= i < |rest| ==> rest[i] == ds[i];
    }
  }

  /** The digit loop of both: the numeral ends up just before the last byte of the buffer. */
  method StoreBackwards(n: nat, base: nat, buf: array<char>) returns (str: nat)
    requires 2 <= base <= 0x100 && |Digits(n, base)| < buf.Length
    modifies buf
    ensures str < buf.Length && buf[str..] == Numeral(n, base) + ['\0']
  {
    str := buf.Length - 1;
    buf[str] := '\0';
    var m: nat := n;
    ghost var text := Numeral(n, base);
    DigitsAreNumeral(n, base);
    assert buf[str..buf.Length - 1] == [];
    while true
      invariant 0 <= str <= buf.Length - 1 && buf[buf.Length - 1] == '\0'
      invariant Pending(text, m, base, buf[str..buf.Length - 1], 'A')
      decreases m
    {
      ghost var tail := buf[str..buf.Length - 1];
      PendingStep(text, m, base, tail, 'A');
      DivMod(m, base);
      var c: nat := m % base;
      m := m / base;
      str := str - 1;
      buf[str] := DigitChar(c, 'A');
      assert buf[str..buf.Length - 1] == [DigitChar(c, 'A')] + tail;
      if m == 0 {
        break;
      }
    }
    assert buf[str..] == buf[str..buf.Length - 1] + ['\0'];
  }

  lemma DigitsFit(n: nat, base: nat, bits: nat)
    requires 2 <= base && ((bits == 32 && n < 0x1_0000_0000) || (bits == 64 && n < 0x1_0000_0000_0000_0000))
    ensures |SignificantDigits(n, base)| <= |Digits(n, base)| <= bits
  {
    PowersOfTwo();
    PowMono(2, base, bits);
    DigitsBound(n, base, bits);
  }

  lemma PowersOfTwo()
    ensures Pow(2, 16) == 0x1_0000
    ensures Pow(2, 32) == 0x1_0000_0000
    ensures Pow(2, 64) == 0x1_0000_0000_0000_0000
  {
    assert Pow(2, 4) == 16 by {
      assert Pow(2, 2) == 4;
    }
    PowSplit(2, 4, 4);
    PowSplit(2, 8, 8);
    PowSplit(2, 16, 16);
    PowSplit(2, 32, 32);
  }

  /** The largest chunk for 16-bit arithmetic: a power of the base that a 16-bit variable holds. */
  method ChunkSize(base: uint8) returns (th16: uint16, innerLoops: uint8)
    requires 2 <= base
    ensures th16 == Pow(base, innerLoops) > 1
  {
    var top: uint16 := 0xFFFF / base;
    th16, innerLoops := 1, 0;
    while th16 < top
      invariant th16 == Pow(base, innerLoops) && 0 <= innerLoops < th16
      invariant innerLoops == 0 ==> th16 == 1
      invariant innerLoops <= 16
      decreases top - th16
    {
      FitsAfter(th16, base);
      PowAbove(base, innerLoops);
      th16 := th16 * base;
      innerLoops := innerLoops + 1;
    }
  }

  lemma FitsAfter(th16: nat, base: nat)
    requires base >= 2 && 0 < th16 < 0xFFFF / base
    ensures th16 < th16 * base < 0x1_0000
  {
    DivMod(0xFFFF, base);
    QuotAtLeast(0xFFFF, base, th16);
    MulMono(2, base, th16);
  }

  lemma {:induction false} PowAbove(base: nat, k: nat)
    requires base >= 2
    ensures Pow(base, k) > k
    ensures k > 15 ==> Pow(base, k) >= 0x1_0000
  {
    PowMono(2, base, k);
    if k > 15 {
      PowSplit(2, 16, k - 16);
      PowersOfTwo();
      assert Pow(2, k) >= 0x1_0000 by {
        TwoAbove(k - 16);
        MulMono(1, Pow(2, k - 16), 0x1_0000);
      }
    }
    TwoAbove(k);
  }

  lemma {:induction false} TwoAbove(k: nat)
    ensures Pow(2, k) > k
  {
    if k > 0 { TwoAbove(k - 1); }
  }

  /** One 64-bit division. */
  lemma ChunkStep(n: nat, base: nat, k: nat)
    requires base >= 2 && n > Pow(base, k) > 1
    ensures var (q, r) := (Quot(n, Pow(base, k)), Rem(n, Pow(base, k)));
      && n == q * Pow(base, k) + r && r < Pow(base, k)
      && 0 < q < n
      && SignificantDigits(n, base) == SignificantDigits(q, base) + LowDigits(r, base, k)
  {
    QuotRem(n, Pow(base, k));
    DigitsSplit(n, base, k);
  }

  /** One 16-bit division. */
  lemma DigitStep(r: nat, base: nat)
    requires base >= 2
    ensures r == Quot(r, base) * base + Rem(r, base)
    ensures Quot(r, base) <= r && (r > 0 ==> Quot(r, base) < r)
    ensures r > 0 ==> SignificantDigits(r, base) == SignificantDigits(Quot(r, base), base) + [Rem(r, base)]
  {
    QuotRem(r, base);
  }

  /** Fills the buffer with the digits of n, lowest first, and returns how many there are. */
  method FillChunks(n: uint64, base: uint8, th16: uint16, innerLoops: uint8, buf: array<nat>) returns (i: nat)
    requires 2 <= base && th16 == Pow(base, innerLoops) > 1
    requires buf.Length == 64 && |SignificantDigits(n, base)| <= 64
    modifies buf
    ensures i <= 64 && SignificantDigits(n, base) == Rev(buf[..i])
  {
    var n64: nat := n;
    ghost var all := SignificantDigits(n, base);
    i := 0;
    while n64 > th16
      invariant 0 <= i <= 64 && n64 <= n
      invariant all == SignificantDigits(n64, base) + Rev(buf[..i])
      decreases n64
    {
      ChunkStep(n64, base, innerLoops);
      DivMod(n64, th16);
      var q: nat := n64 / th16;
      var r: uint16 := n64 - q * th16;
      i := PeelChunk(r, base, innerLoops, buf, i, SignificantDigits(q, base), all);
      n64 := q;
    }
    i := PeelRest(n64, base, buf, i, all);
  }

  /** The 16-bit loop on the remainder of one 64-bit division. */
  method PeelChunk(chunk: uint16, base: uint8, innerLoops: uint8, buf: array<nat>, start: nat,
                   ghost high: seq<nat>, ghost all: seq<nat>) returns (i: nat)
    requires 2 <= base && buf.Length == 64 && start <= 64 && |all| <= 64
    requires all == high + LowDigits(chunk, base, innerLoops) + Rev(buf[..start])
    modifies buf
    ensures i <= 64 && all == high + Rev(buf[..i])
  {
    var r: uint16 := chunk;
    i := start;
    for j := 0 to innerLoops
      invariant 0 <= i <= 64 && 0 <= r < 0x1_0000
      invariant all == high + LowDigits(r, base, innerLoops - j) + Rev(buf[..i])
    {
      ghost var k: nat := innerLoops - j;
      assert LowDigits(r, base, k) == LowDigits(Quot(r, base), base, k - 1) + [Rem(r, base)];
      var qq, digit := DivideBy(r, base);
      i := Store(buf, i, digit);
      r := qq;
    }
  }

  /** qq = r / base, and the digit r - qq * base. */
  method DivideBy(r: uint16, base: uint8) returns (qq: uint16, digit: nat)
    requires base >= 2
    ensures qq == Quot(r, base) <= r && digit == Rem(r, base) && (r > 0 ==> qq < r)
  {
    DigitStep(r, base);
    DivMod(r, base);
    qq := r / base;
    digit := r - qq * base;
  }

  /** The 16-bit loop on what the divisions left over. */
  method PeelRest(rest: uint16, base: uint8, buf: array<nat>, start: nat, ghost all: seq<nat>) returns (i: nat)
    requires 2 <= base && buf.Length == 64 && start <= 64 && |all| <= 64
    requires all == SignificantDigits(rest, base) + Rev(buf[..start])
    modifies buf
    ensures i <= 64 && all == Rev(buf[..i])
  {
    var n16: uint16 := rest;
    i := start;
    while n16 > 0
      invariant 0 <= i <= 64 && 0 <= n16 < 0x1_0000
      invariant all == SignificantDigits(n16, base) + Rev(buf[..i])
      decreases n16
    {
      DigitStep(n16, base);
      var qq, digit := DivideBy(n16, base);
      i := Store(buf, i, digit);
      n16 := qq;
    }
  }

  /** buf[i++] = digit */
  method Store(buf: array<nat>, i: nat, digit: nat) returns (next: nat)
    requires i < buf.Length
    modifies buf
    ensures next == i + 1
    ensures Rev(buf[..next]) == [digit] + Rev(old(buf[..i]))
  {
    buf[i] := digit;
    next := i + 1;
    assert buf[..next] == old(buf[..i]) + [digit];
    RevSnoc(old(buf[..i]), digit);
  }
}
