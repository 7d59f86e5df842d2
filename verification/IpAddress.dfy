/** The IP address object: parsing in place, printing, and the round trip (IPAddress.cpp). */
module IpAddress {
  import opened CTypes
  import opened Numerals
  import opened Printing
  import opened IpText

  datatype IPType = IPv4 | IPv6

  /** The value of an address object. */
  datatype Address = Address(ipType: IPType, bytes: seq<uint8>)

  const V4_INDEX := 12

  // ---- what parsing leaves behind ----

  predicate Fits8(s: seq<nat>) { forall i :: 0 <= i < |s| ==> s[i] < 0x100 }
  predicate Fits16(s: seq<nat>) { forall i :: 0 <= i < |s| ==> s[i] < 0x1_0000 }

  /** The octets of a dotted scan, behind twelve zero bytes. */
  function Bytes4(octets: seq<nat>): (b: seq<uint8>)
    requires |octets| <= 4 && Fits8(octets)
    ensures |b| == 16
  {
    Zeros(12) + octets + Zeros(4 - |octets|)
  }

  /** Fields in network byte order. */
  function Bytes6(fields: seq<nat>): (b: seq<uint8>)
    requires Fits16(fields)
    ensures |b| == 2 * |fields|
    ensures forall i :: 0 <= i < |fields| ==> b[2 * i] == fields[i] / 256 && b[2 * i + 1] == fields[i] % 256
  {
    if fields == [] then []
    else
      var init := fields[..|fields| - 1];
      var last := fields[|fields| - 1];
      Bytes6(init) + [last / 256, last % 256]
  }

  lemma {:induction false} Scan4Shape(s: string, acc: int, octets: seq<nat>)
    requires acc <= 255 && |octets| <= 3 && Fits8(octets)
    ensures
      match Scan4(s, acc, octets)
      case Rejected(o) => |o| <= 3 && Fits8(o)
      case Accepted(o) => |o| == 4 && Fits8(o)
    decreases |s|
  {
    if s != "" {
      if IsDigit(s[0] as int) {
        var d := s[0] as int - '0' as int;
        var next := if acc < 0 then d else acc * 10 + d;
        if next <= 255 {
          Scan4Shape(s[1..], next, octets);
        }
      } else if s[0] == '.' && |octets| < 3 && acc >= 0 {
        Scan4Shape(s[1..], -1, octets + [acc]);
      }
    }
  }

  lemma {:induction false} Scan6Shape(s: string, acc: nat, groups: seq<nat>, dc: int)
    requires acc <= 0xffff && -1 <= dc <= |groups| <= 7 && Fits16(groups)
    ensures
      match Scan6(s, acc, groups, dc)
      case Rejected(g) => |g| <= 7 && Fits16(g)
      case Accepted(g) => |g| == 8 && Fits16(g)
    decreases |s|
  {
    if s != "" {
      if IsHex(s[0]) {
        var next := acc * 16 + HexValue(s[0]);
        if next <= 0xffff {
          Scan6Shape(s[1..], next, groups, dc);
        }
      } else if s[0] == ':' && |groups| < 7 {
        if |s| > 1 && s[1] == ':' {
          if dc < 0 && !(|s| > 2 && s[2] == ':') {
            Scan6Shape(s[2..], 0, groups + [acc], |groups| + if acc != 0 then 1 else 0);
          }
        } else if |s| > 1 {
          Scan6Shape(s[1..], 0, groups + [acc], dc);
        }
      }
    }
  }

  /** The address after fromString4: cleared first, and the type set only on success. */
  function AfterString4(text: string, a: Address): (r: (Address, bool))
    ensures |r.0.bytes| == 16
  {
    Scan4Shape(text, -1, []);
    match Scan4(text, -1, [])
    case Rejected(o) => (Address(a.ipType, Bytes4(o)), false)
    case Accepted(o) => (Address(IPv4, Bytes4(o)), true)
  }

  /** The address after fromString6: a rejected text leaves the bytes stored so far. */
  function AfterString6(text: string, a: Address): (r: (Address, bool))
    requires |a.bytes| == 16
    ensures |r.0.bytes| == 16
  {
    Scan6Shape(text, 0, [], -1);
    match Scan6(text, 0, [], -1)
    case Rejected(g) => (Address(a.ipType, Bytes6(g) + a.bytes[2 * |g|..]), false)
    case Accepted(g) => (Address(IPv6, Bytes6(g)), true)
  }

  function AfterString(text: string, a: Address): (r: (Address, bool))
    requires |a.bytes| == 16
    ensures |r.0.bytes| == 16
  {
    var r := AfterString4(text, a);
    if r.1 then r else AfterString6(text, r.0)
  }

  // ---- the run of zero fields that "::" replaces ----

  function Field(bytes: seq<uint8>, f: nat): nat
    requires |bytes| == 16 && f < 8
  {
    Word(bytes[2 * f], bytes[2 * f + 1])
  }

  function Word(high: int, low: int): int {
    high * 256 + low
  }

  function Fields(bytes: seq<uint8>): (fs: seq<nat>)
    requires |bytes| == 16
    ensures |fs| == 8 && Fits16(fs)
  {
    seq(8, f requires 0 <= f < 8 => Field(bytes, f))
  }

  ghost predicate ZeroRun(fields: seq<nat>, start: int, length: int) {
    0 <= start && 0 <= length && start + length <= |fields|
    && forall i :: start <= i < start + length ==> fields[i] == 0
  }

  /** The leftmost longest run of two or more zero fields among the first n; (-1, 1) when there is none. */
  ghost predicate LeftmostLongest(fields: seq<nat>, n: nat, start: int, length: int) {
    && ((start == -1 && length == 1) || (ZeroRun(fields, start, length) && length >= 2 && start + length <= n))
    && forall s, l :: ZeroRun(fields, s, l) && s + l <= n && l >= 2 ==> l < length || (l == length && start <= s)
  }

  // ---- printing ----

  function Hex(field: nat): string {
    NumeralIn(field, 16, 'a')
  }

  /** What field f contributes when the run of `length` fields at `start` is elided. */
  function Piece(fields: seq<nat>, start: int, length: int, f: nat): string
    requires |fields| == 8 && f < 8
  {
    if f < start || f >= start + length then Hex(fields[f]) + if f < 7 then ":" else ""
    else if f == start then (if start == 0 then "::" else ":")
    else ""
  }

  /** Fields f..8 with that run elided. */
  function Format6(fields: seq<nat>, start: int, length: int, f: nat): string
    requires |fields| == 8 && f <= 8
    decreases 8 - f
  {
    if f == 8 then "" else Piece(fields, start, length, f) + Format6(fields, start, length, f + 1)
  }

  function Format4(bytes: seq<uint8>): string
    requires |bytes| == 16
  {
    Numeral(bytes[12], 10) + "." + Numeral(bytes[13], 10) + "." + Numeral(bytes[14], 10) + "." + Numeral(bytes[15], 10)
  }

  /** The text of an address in canonical form. */
  ghost predicate IsTextOf(a: Address, text: string)
    requires |a.bytes| == 16
  {
    match a.ipType
    case IPv4 => text == Format4(a.bytes)
    case IPv6 => exists start, length ::
      LeftmostLongest(Fields(a.bytes), 8, start, length) && text == Format6(Fields(a.bytes), start, length, 0)
  }

  /** What printTo returns: an IPv6 address is written character by character, of an IPv4 address only the dots. */
  function Counted(single: Single, a: Address, text: string): int {
    match a.ipType
    case IPv4 => |text| + 3 * (single('.') - 1)
    case IPv6 => Total(single, text)
  }

  predicate WrittenAlone(a: Address, c: char) {
    a.ipType == IPv6 || c == '.'
  }

  /** printTo counts the characters of the text if and only if each character written alone counts as one. */
  lemma CountIsLength(single: Single, a: Address, text: string)
    requires |a.bytes| == 16 && forall i :: 0 <= i < |text| ==> single(text[i]) >= 1
    ensures IsTextOf(a, text) ==> Counted(single, a, text) >= |text|
    ensures IsTextOf(a, text) ==>
      (Counted(single, a, text) == |text| <==>
       forall i :: 0 <= i < |text| && WrittenAlone(a, text[i]) ==> single(text[i]) == 1)
  {
    if a.ipType == IPv6 {
      TotalIsLength(single, text);
    } else if IsTextOf(a, text) {
      assert text[|Numeral(a.bytes[12], 10)|] == '.';
    }
  }

  /** On the USB serial port it counts more than that for every address. */
  lemma UsbCountsMore(a: Address, text: string)
    requires |a.bytes| == 16
    ensures IsTextOf(a, text) ==> Counted(UsbSingle, a, text) > |text|
    ensures IsTextOf(a, text) && a.ipType == IPv4 ==> Counted(UsbSingle, a, text) == |text| + 3 * ('.' as int - 1)
  {
    if a.ipType == IPv6 && IsTextOf(a, text) {
      var start, length :| LeftmostLongest(Fields(a.bytes), 8, start, length)
        && text == Format6(Fields(a.bytes), start, length, 0);
      FormatAboveDot(Fields(a.bytes), start, length, 0);
      TotalIsLength(UsbSingle, text);
      assert Piece(Fields(a.bytes), start, length, 0) != "";
      assert UsbSingle(text[0]) != 1;
    }
  }

  predicate AboveDot(s: string) {
    forall i :: 0 <= i < |s| ==> s[i] > '.'
  }

  lemma PieceAboveDot(fields: seq<nat>, start: int, length: int, f: nat)
    requires |fields| == 8 && f < 8
    ensures AboveDot(Piece(fields, start, length, f))
  {
    HexAboveDot(fields[f]);
  }

  lemma HexAboveDot(v: nat)
    ensures AboveDot(Hex(v))
  {
    DigitsAreNumeral(v, 16);
    SpelledAboveDot(Digits(v, 16));
  }

  lemma SpelledAboveDot(ds: seq<nat>)
    requires forall i :: 0 <= i < |ds| ==> ds[i] < 16
    ensures AboveDot(Spell(ds, 'a'))
  {
  }

  lemma {:induction false} FormatAboveDot(fields: seq<nat>, start: int, length: int, f: nat)
    requires |fields| == 8 && f <= 8
    ensures AboveDot(Format6(fields, start, length, f))
    decreases 8 - f
  {
    if f < 8 {
      PieceAboveDot(fields, start, length, f);
      FormatAboveDot(fields, start, length, f + 1);
      BothAboveDot(Piece(fields, start, length, f), Format6(fields, start, length, f + 1));
    }
  }

  lemma BothAboveDot(a: string, b: string)
    requires AboveDot(a) && AboveDot(b)
    ensures AboveDot(a + b)
  {
  }

  method PrintOctet(p: Print, octet: uint8) returns (n: nat)
    modifies p
    ensures p.out == old(p.out) + (Numeral(octet, 10) + ".") && n == |Numeral(octet, 10)| + p.single('.')
  {
    n := p.PrintDecimalByte(octet);
    var k := p.Write('.');
    n := n + k;
  }

  lemma PieceTotal(single: Single, fields: seq<nat>, start: int, length: int, f: nat)
    requires |fields| == 8 && f < 8
    ensures Total(single, Piece(fields, start, length, f)) ==
      if f < start || f >= start + length then Total(single, Hex(fields[f])) + if f < 7 then single(':') else 0
      else if f == start then (if start == 0 then single(':') + single(':') else single(':'))
      else 0
  {
    var h := Hex(fields[f]);
    assert h + "" == h;
    TotalSnoc(single, h, ':');
    TotalSnoc(single, "", ':');
    TotalSnoc(single, ":", ':');
    assert "" + [':'] == ":" && ":" + [':'] == "::";
  }

  function Octets(bytes: seq<uint8>, n: nat): string
    requires |bytes| == 16 && n <= 3
  {
    if n == 0 then "" else Octets(bytes, n - 1) + Numeral(bytes[V4_INDEX + n - 1], 10) + "."
  }

  lemma Reassociate(a: string, b: string, c: string)
    ensures a + (b + c) == (a + b) + c
  {
  }

  lemma OctetsUnrolled(bytes: seq<uint8>)
    requires |bytes| == 16
    ensures Octets(bytes, 3) + Numeral(bytes[15], 10) == Format4(bytes)
  {
    assert Octets(bytes, 1) == "" + Numeral(bytes[12], 10) + ".";
    assert Octets(bytes, 2) == Octets(bytes, 1) + Numeral(bytes[13], 10) + ".";
    assert Octets(bytes, 3) == Octets(bytes, 2) + Numeral(bytes[14], 10) + ".";
  }

  /** Bytes from..end have moved to the top, those below `from` are as they were. */
  ghost predicate MovedUp(b: seq<uint8>, moved: seq<uint8>, end: nat, from: nat)
    requires |b| == |moved| == 16 && from <= end <= 16
  {
    && (forall k :: 0 <= k < from ==> moved[k] == b[k])
    && forall k :: 16 - end + from <= k < 16 ==> moved[k] == b[k - (16 - end)]
  }

  ghost predicate Cleared(b: seq<uint8>, after: seq<uint8>, from: nat, end: nat)
    requires |b| == |after| == 16
  {
    forall k :: 0 <= k < 16 ==> after[k] == if from <= k < end then 0 else b[k]
  }

  lemma GapBytes(groups: seq<nat>, dc: nat, b: seq<uint8>, moved: seq<uint8>, after: seq<uint8>)
    requires dc <= |groups| <= 7 && Fits16(groups) && |b| == |moved| == |after| == 16
    requires b[..2 * |groups|] == Bytes6(groups)
    requires MovedUp(b, moved, |groups| * 2, dc * 2) && Cleared(moved, after, dc * 2, 16 - |groups| * 2 + dc * 2)
    ensures
      var all := Opened(groups, dc);
      Fits16(all) && after == Bytes6(all)
  {
    var all := Opened(groups, dc);
    GapFields(groups, dc, all);
    var target := Bytes6(all);
    FieldsHeld(b, groups);
    forall f | 0 <= f < 8 ensures after[2 * f] == target[2 * f] && after[2 * f + 1] == target[2 * f + 1] {
      FieldAt(all, f);
      GapField(groups, dc, b, moved, after, all[f], f);
    }
    SameBytes(after, target);
  }

  lemma GapFields(groups: seq<nat>, dc: nat, all: seq<nat>)
    requires dc <= |groups| <= 7 && Fits16(groups) && all == Opened(groups, dc)
    ensures |all| == 8 && Fits16(all)
    ensures forall f :: 0 <= f < 8 ==>
      all[f] == if f < dc then groups[f] else if f < dc + (8 - |groups|) then 0 else groups[f - (8 - |groups|)]
  {
  }

  ghost predicate HoldsFields(b: seq<uint8>, groups: seq<nat>)
    requires |b| == 16 && |groups| <= 8
  {
    forall g {:trigger groups[g]} :: 0 <= g < |groups| ==>
      b[2 * g] == groups[g] / 256 && b[2 * g + 1] == groups[g] % 256
  }

  lemma FieldsHeld(b: seq<uint8>, groups: seq<nat>)
    requires |b| == 16 && Fits16(groups) && |groups| <= 8 && b[..2 * |groups|] == Bytes6(groups)
    ensures HoldsFields(b, groups)
  {
    forall g | 0 <= g < |groups| ensures b[2 * g] == groups[g] / 256 && b[2 * g + 1] == groups[g] % 256 {
      FieldBytes(groups, b, g);
    }
  }

  /** The two bytes of one field, whichever part it is in. */
  lemma GapField(groups: seq<nat>, dc: nat, b: seq<uint8>, moved: seq<uint8>, after: seq<uint8>, field: nat, f: nat)
    requires dc <= |groups| <= 7 && |b| == |moved| == |after| == 16 && f < 8 && HoldsFields(b, groups)
    requires MovedUp(b, moved, |groups| * 2, dc * 2) && Cleared(moved, after, dc * 2, 16 - |groups| * 2 + dc * 2)
    requires field == if f < dc then groups[f] else if f < dc + (8 - |groups|) then 0 else groups[f - (8 - |groups|)]
    ensures after[2 * f] == field / 256 && after[2 * f + 1] == field % 256
  {
    var gap := 8 - |groups|;
    if f >= dc + gap {
      assert 2 * f - (16 - |groups| * 2) == 2 * (f - gap);
    }
  }

  lemma FieldAt(fields: seq<nat>, f: nat)
    requires Fits16(fields) && f < |fields|
    ensures Bytes6(fields)[2 * f] == fields[f] / 256 && Bytes6(fields)[2 * f + 1] == fields[f] % 256
  {
  }

  lemma FieldBytes(groups: seq<nat>, b: seq<uint8>, g: nat)
    requires Fits16(groups) && g < |groups| && 2 * |groups| <= |b| && b[..2 * |groups|] == Bytes6(groups)
    ensures b[2 * g] == groups[g] / 256 && b[2 * g + 1] == groups[g] % 256
  {
    assert b[2 * g] == b[..2 * |groups|][2 * g];
    assert b[2 * g + 1] == b[..2 * |groups|][2 * g + 1];
  }

  lemma SameBytes(b: seq<uint8>, c: seq<uint8>)
    requires |b| == |c| == 16
    requires forall f :: 0 <= f < 8 ==> b[2 * f] == c[2 * f] && b[2 * f + 1] == c[2 * f + 1]
    ensures b == c
  {
    forall k | 0 <= k < 16 ensures b[k] == c[k] {
      assert k == 2 * (k / 2) || k == 2 * (k / 2) + 1;
    }
  }

  /** The longest-run search over the eight fields. */
  method LongestRun(bytes: array<uint8>) returns (longestStart: int, longestLength: int)
    requires bytes.Length == 16
    ensures LeftmostLongest(Fields(bytes[..]), 8, longestStart, longestLength)
  {
    longestStart, longestLength := ScanRuns(bytes, Fields(bytes[..]));
  }

  /** The loop of the run counters. */
  method ScanRuns(bytes: array<uint8>, ghost fields: seq<nat>) returns (longestStart: int, longestLength: int)
    requires bytes.Length == 16 && |fields| == 8
    requires forall f :: 0 <= f < 8 ==> (fields[f] == 0 <==> bytes[f * 2] == 0 && bytes[f * 2 + 1] == 0)
    ensures LeftmostLongest(fields, 8, longestStart, longestLength)
  {
    longestStart, longestLength := -1, 1;
    var currentStart, currentLength := -1, 0;
    for f := 0 to 8
      invariant LeftmostLongest(fields, f, longestStart, longestLength)
      invariant currentStart == -1 ==> f == 0 || fields[f - 1] != 0
      invariant currentStart != -1 ==>
        0 <= currentStart < f && currentLength == f - currentStart && ZeroRun(fields, currentStart, currentLength)
        && (currentStart > 0 ==> fields[currentStart - 1] != 0)
    {
      if bytes[f * 2] == 0 && bytes[f * 2 + 1] == 0 {
        assert fields[f] == 0;
        if currentStart == -1 {
          currentStart := f;
          currentLength := 1;
          ZeroRunExtends(fields, f, 0);
        } else {
          ZeroRunExtends(fields, currentStart, currentLength);
          currentLength := currentLength + 1;
        }
        RunGrown(fields, f, longestStart, longestLength, currentStart, currentLength);
        if currentLength > longestLength {
          longestStart := currentStart;
          longestLength := currentLength;
        }
      } else {
        assert fields[f] != 0;
        RunBroken(fields, f, longestStart, longestLength);
        currentStart := -1;
      }
    }
  }

  lemma ZeroRunExtends(fields: seq<nat>, start: nat, length: nat)
    requires ZeroRun(fields, start, length) && start + length < |fields| && fields[start + length] == 0
    ensures ZeroRun(fields, start, length + 1)
  {
  }

  /** The current run, which goes back as far as it can, replaces the longest one only if it is longer. */
  lemma RunGrown(fields: seq<nat>, f: nat, start: int, length: int, currentStart: nat, currentLength: int)
    requires f < |fields| && LeftmostLongest(fields, f, start, length)
    requires ZeroRun(fields, currentStart, currentLength) && 0 < currentLength && currentStart + currentLength == f + 1
    requires currentStart > 0 ==> fields[currentStart - 1] != 0
    ensures if currentLength > length then LeftmostLongest(fields, f + 1, currentStart, currentLength)
            else LeftmostLongest(fields, f + 1, start, length)
  {
    forall s, l | ZeroRun(fields, s, l) && s + l <= f + 1 && l >= 2
      ensures if currentLength > length then l < currentLength || (l == currentLength && currentStart <= s)
              else l < length || (l == length && start <= s)
    {
      if s + l == f + 1 {
        assert s >= currentStart;
      }
    }
  }

  lemma RunBroken(fields: seq<nat>, f: nat, start: int, length: int)
    requires f < |fields| && LeftmostLongest(fields, f, start, length) && fields[f] != 0
    ensures LeftmostLongest(fields, f + 1, start, length)
  {
  }

  /** One field in lower-case hexadecimal, a nibble at a time. */
  method PrintField(p: Print, high: uint8, low: uint8) returns (n: nat)
    modifies p
    ensures p.out == old(p.out) + Hex(Word(high, low)) && n == Total(p.single, Hex(Word(high, low)))
  {
    var c1, c2, c3, c4 := high / 16, high % 16, low / 16, low % 16;
    ghost var text;
    n, text := PrintNibbles(p, c1, c2, c3, c4);
    FieldText(high, low, c1, c2, c3, c4);
  }

  method PrintNibbles(p: Print, c1: nat, c2: nat, c3: nat, c4: nat) returns (n: nat, ghost text: string)
    requires c1 < 16 && c2 < 16 && c3 < 16 && c4 < 16
    modifies p
    ensures p.out == old(p.out) + text && n == Total(p.single, text)
    ensures var t2 := WithNibble(WithNibble("", c1, c1 > 0), c2, c1 > 0 || c2 > 0);
      text == WithNibble(WithNibble(t2, c3, c1 > 0 || c2 > 0 || c3 > 0), c4, true)
  {
    ghost var before := p.out;
    n, text := PrintNibble(p, c1, c1 > 0, 0, before, "");
    n, text := PrintNibble(p, c2, c1 > 0 || c2 > 0, n, before, text);
    n, text := PrintNibble(p, c3, c1 > 0 || c2 > 0 || c3 > 0, n, before, text);
    n, text := PrintNibble(p, c4, true, n, before, text);
  }

  /** Field f, with a colon behind it unless it is the last one. */
  method PrintSeparated(p: Print, f: nat, high: uint8, low: uint8) returns (n: nat)
    modifies p
    ensures p.out == old(p.out) + (Hex(Word(high, low)) + if f < 7 then ":" else "")
    ensures n == Total(p.single, Hex(Word(high, low))) + if f < 7 then p.single(':') else 0
  {
    n := PrintField(p, high, low);
    if f < 7 {
      var k := p.Write(':');
      n := n + k;
    }
  }

  /** One nibble, if it is to be shown, behind what of the field is printed already. */
  method PrintNibble(p: Print, c: nat, shown: bool, count: nat, ghost before: string, ghost printed: string)
    returns (n: nat, ghost text: string)
    requires c < 16 && p.out == before + printed && count == Total(p.single, printed)
    modifies p
    ensures text == WithNibble(printed, c, shown)
    ensures p.out == before + text && n == Total(p.single, text)
  {
    n, text := count, printed;
    if shown {
      TotalSnoc(p.single, printed, DigitChar(c, 'a'));
      text := printed + [DigitChar(c, 'a')];
      var k := p.Write(DigitChar(c, 'a'));
      n := n + k;
    }
  }

  function WithNibble(text: string, c: nat, shown: bool): string
    requires c < 16
  {
    if shown then text + [DigitChar(c, 'a')] else text
  }

  function WithDigit(ds: seq<nat>, c: nat, shown: bool): seq<nat> {
    if shown then ds + [c] else ds
  }

  function Nibbles(c1: nat, c2: nat, c3: nat, c4: nat): seq<nat> {
    var d2 := WithDigit(WithDigit([], c1, c1 > 0), c2, c1 > 0 || c2 > 0);
    WithDigit(WithDigit(d2, c3, c1 > 0 || c2 > 0 || c3 > 0), c4, true)
  }

  lemma HexNibbles(c1: nat, c2: nat, c3: nat, c4: nat)
    requires c1 < 16 && c2 < 16 && c3 < 16 && c4 < 16
    ensures Hex(Word(c1 * 16 + c2, c3 * 16 + c4)) == Spell(Nibbles(c1, c2, c3, c4), 'a')
  {
    var ds := Nibbles(c1, c2, c3, c4);
    NibblesValue(c1, c2, c3, c4);
    assert IsNumeral(ds, 16);
    NumeralUnique(ds, 16);
  }

  /** Leading zero nibbles add nothing to the value. */
  lemma NibblesValue(c1: nat, c2: nat, c3: nat, c4: nat)
    ensures Numerals.Value(Nibbles(c1, c2, c3, c4), 16) == Word(c1 * 16 + c2, c3 * 16 + c4)
  {
    var d1 := WithDigit([], c1, c1 > 0);
    var d2 := WithDigit(d1, c2, c1 > 0 || c2 > 0);
    var d3 := WithDigit(d2, c3, c1 > 0 || c2 > 0 || c3 > 0);
    NibbleAppended([], 0, c1, c1 > 0);
    NibbleAppended(d1, c1, c2, c1 > 0 || c2 > 0);
    NibbleAppended(d2, c1 * 16 + c2, c3, c1 > 0 || c2 > 0 || c3 > 0);
    ValueSnoc(d3, c4, 16);
  }

  /** A nibble may be left out while everything so far is zero. */
  lemma NibbleAppended(ds: seq<nat>, v: nat, c: nat, shown: bool)
    requires Numerals.Value(ds, 16) == v && (!shown ==> v == 0 && c == 0)
    ensures Numerals.Value(WithDigit(ds, c, shown), 16) == v * 16 + c
  {
    ValueSnoc(ds, c, 16);
  }

  /** The numeral as it grows from nibble to nibble. */
  lemma NibbleTexts(c1: nat, c2: nat, c3: nat, c4: nat)
    requires c1 < 16 && c2 < 16 && c3 < 16 && c4 < 16
    ensures
      var t2 := WithNibble(WithNibble("", c1, c1 > 0), c2, c1 > 0 || c2 > 0);
      Spell(Nibbles(c1, c2, c3, c4), 'a') == WithNibble(WithNibble(t2, c3, c1 > 0 || c2 > 0 || c3 > 0), c4, true)
  {
    var d1, t1 := WithDigit([], c1, c1 > 0), WithNibble("", c1, c1 > 0);
    var d2, t2 := WithDigit(d1, c2, c1 > 0 || c2 > 0), WithNibble(t1, c2, c1 > 0 || c2 > 0);
    var d3, t3 := WithDigit(d2, c3, c1 > 0 || c2 > 0 || c3 > 0), WithNibble(t2, c3, c1 > 0 || c2 > 0 || c3 > 0);
    NibbleSpelled([], "", c1, c1 > 0);
    NibbleSpelled(d1, t1, c2, c1 > 0 || c2 > 0);
    NibbleSpelled(d2, t2, c3, c1 > 0 || c2 > 0 || c3 > 0);
    NibbleSpelled(d3, t3, c4, true);
  }

  lemma FieldText(high: uint8, low: uint8, c1: nat, c2: nat, c3: nat, c4: nat)
    requires c1 == high / 16 && c2 == high % 16 && c3 == low / 16 && c4 == low % 16
    ensures
      var t2 := WithNibble(WithNibble("", c1, c1 > 0), c2, c1 > 0 || c2 > 0);
      Hex(Word(high, low)) == WithNibble(WithNibble(t2, c3, c1 > 0 || c2 > 0 || c3 > 0), c4, true)
  {
    NibbleTexts(c1, c2, c3, c4);
    HexNibbles(c1, c2, c3, c4);
  }

  lemma NibbleSpelled(ds: seq<nat>, text: string, c: nat, shown: bool)
    requires c < 16 && (forall i :: 0 <= i < |ds| ==> ds[i] < 16) && text == Spell(ds, 'a')
    ensures forall i :: 0 <= i < |WithDigit(ds, c, shown)| ==> WithDigit(ds, c, shown)[i] < 16
    ensures WithNibble(text, c, shown) == Spell(WithDigit(ds, c, shown), 'a')
  {
  }

  class IPAddress {
    const bytes: array<uint8>
    var ipType: IPType

    ghost predicate Valid()
      reads this
    {
      bytes.Length == 16
    }

    ghost function Value(): (a: Address)
      requires Valid()
      reads this, bytes
      ensures |a.bytes| == 16
    {
      Address(ipType, bytes[..])
    }

    constructor (ipType: IPType)
      ensures Valid() && fresh(bytes)
      ensures Value() == Address(ipType, Zeros(16))
    {
      this.ipType := ipType;
      bytes := new uint8[16](_ => 0);
    }

    /** An IPv4 address from its four octets. */
    constructor FromOctets(o1: uint8, o2: uint8, o3: uint8, o4: uint8)
      ensures Valid() && fresh(bytes)
      ensures Value() == Address(IPv4, Zeros(12) + [o1, o2, o3, o4])
    {
      ipType := IPv4;
      bytes := new uint8[16](i => if i == 12 then o1 else if i == 13 then o2 else if i == 14 then o3
                                  else if i == 15 then o4 else 0);
    }

    method FromString(address: string) returns (ok: bool)
      requires Valid()
      modifies this, bytes
      ensures Valid() && (Value(), ok) == AfterString(address, old(Value()))
    {
      ok := FromString4(address);
      if !ok {
        ok := FromString6(address);
      }
    }

    method FromString4(address: string) returns (ok: bool)
      requires Valid()
      modifies this, bytes
      ensures Valid() && (Value(), ok) == AfterString4(address, old(Value()))
    {
      var acc := -1;
      var dots := 0;
      Scan4Shape(address, -1, []);
      forall i | 0 <= i < 16 {
        bytes[i] := 0;
      }
      ghost var octets: seq<nat> := [];
      var k := 0;
      while k < |address|
        invariant 0 <= k <= |address| && -1 <= acc <= 255 && 0 <= dots == |octets| <= 3 && Fits8(octets)
        invariant ipType == old(ipType) && bytes[..] == Bytes4(octets)
        invariant Scan4(address, -1, []) == Scan4(address[k..], acc, octets)
      {
        var c := address[k];
        k := k + 1;
        if '0' <= c <= '9' {
          acc := if acc < 0 then c as int - '0' as int else acc * 10 + (c as int - '0' as int);
          if acc > 255 {
            return false;
          }
        } else if c == '.' {
          if dots == 3 {
            return false;
          }
          if acc < 0 {
            return false;
          }
          bytes[V4_INDEX + dots] := acc;
          octets := octets + [acc];
          dots := dots + 1;
          assert bytes[..] == Bytes4(octets);
          acc := -1;
        } else {
          return false;
        }
      }
      if dots != 3 {
        return false;
      }
      if acc < 0 {
        return false;
      }
      bytes[V4_INDEX + 3] := acc;
      ipType := IPv4;
      assert bytes[..] == Bytes4(octets + [acc]);
      ok := true;
    }

    method FromString6(address: string) returns (ok: bool)
      requires Valid()
      modifies this, bytes
      ensures Valid() && (Value(), ok) == AfterString6(address, old(Value()))
    {
      ghost var before := bytes[..];
      var acc, colons, doubleColons;
      ghost var groups;
      ok, acc, colons, doubleColons, groups := ReadFields(address);
      if !ok {
        return;
      }
      if doubleColons == -1 && colons != 7 {
        return false;
      }
      if doubleColons > -1 && colons > 6 {
        return false;
      }
      StoreLastField(acc, colons, doubleColons, groups, before);
      ipType := IPv6;
    }

    /** The last field, and then the gap if there was a "::". */
    method StoreLastField(acc: nat, colons: nat, doubleColons: int, ghost groups: seq<nat>, ghost before: seq<uint8>)
      requires Valid() && acc <= 0xffff && -1 <= doubleColons <= colons == |groups| <= 7 && Fits16(groups)
      requires doubleColons == -1 ==> colons == 7
      requires doubleColons > -1 ==> colons <= 6
      requires |before| == 16 && bytes[..] == Bytes6(groups) + before[2 * colons..]
      modifies bytes
      ensures
        var outcome := Finish6(acc, groups, doubleColons);
        outcome.Accepted? && Fits16(outcome.fields) && bytes[..] == Bytes6(outcome.fields)
    {
      StoreField(colons, acc, groups, before);
      ghost var all := groups + [acc];
      assert bytes[..2 * (colons + 1)] == Bytes6(all);
      if doubleColons != -1 {
        OpenGap(colons + 1, doubleColons, all);
      } else {
        assert bytes[..] == bytes[..16];
      }
    }

    /** The reading loop: fields are stored as they are closed. */
    method ReadFields(address: string)
      returns (ok: bool, acc: nat, colons: nat, doubleColons: int, ghost groups: seq<nat>)
      requires Valid()
      modifies bytes
      ensures acc <= 0xffff && -1 <= doubleColons <= colons == |groups| <= 7 && Fits16(groups)
      ensures bytes[..] == Bytes6(groups) + old(bytes[..])[2 * colons..]
      ensures Scan6(address, 0, [], -1) == if ok then Finish6(acc, groups, doubleColons) else Rejected(groups)
    {
      ghost var before, outcome := bytes[..], Scan6(address, 0, [], -1);
      acc, colons, doubleColons, groups := 0, 0, -1, [];
      var k := 0;
      assert address[0..] == address;
      while k < |address|
        invariant 0 <= k <= |address| && Reading(acc, colons, doubleColons, groups, before)
        invariant outcome == Scan6(address[k..], acc, groups, doubleColons)
      {
        ok, k, acc, colons, doubleColons, groups :=
          ReadChar(address, k, acc, colons, doubleColons, groups, before, outcome);
        if !ok {
          return;
        }
      }
      ok := true;
    }

    /** The fields read so far are stored, the bytes behind them as they were before. */
    ghost predicate Reading(acc: nat, colons: nat, doubleColons: int, groups: seq<nat>, before: seq<uint8>)
      requires |before| == 16
      reads this, bytes
    {
      && acc <= 0xffff && -1 <= doubleColons <= colons == |groups| <= 7 && Fits16(groups)
      && bytes[..] == Bytes6(groups) + before[2 * colons..]
    }

    /** One turn of the reading loop. */
    method ReadChar(address: string, from: nat, acc0: nat, colons0: nat, doubleColons0: int, ghost groups0: seq<nat>,
                    ghost before: seq<uint8>, ghost outcome: Outcome)
      returns (ok: bool, k: nat, acc: nat, colons: nat, doubleColons: int, ghost groups: seq<nat>)
      requires Valid() && from < |address| && |before| == 16 && Reading(acc0, colons0, doubleColons0, groups0, before)
      requires outcome == Scan6(address[from..], acc0, groups0, doubleColons0)
      modifies bytes
      ensures Reading(acc, colons, doubleColons, groups, before)
      ensures ok ==> from < k <= |address| && outcome == Scan6(address[k..], acc, groups, doubleColons)
      ensures !ok ==> outcome == Rejected(groups)
    {
      ok, k, acc, colons, doubleColons, groups := false, from, acc0, colons0, doubleColons0, groups0;
      var c := ToLower(address[k]);
      ScanChar(address, k, acc, groups, doubleColons);
      if IsHex(address[k]) {
        var next := AccumulateHex(acc, c);
        if next <= 0xffff {
          ok, acc, k := true, next, k + 1;
        }
      } else if c == ':' {
        var valid, length, separator := ReadSeparator(address, k, acc, colons, doubleColons, groups);
        if valid {
          StoreField(colons, acc, groups, before);
          groups := groups + [acc];
          ok, acc, colons, doubleColons, k := true, 0, colons + 1, separator, k + length;
        }
      }
    }

    /** How the scan goes on behind a character that is not a colon. */
    lemma ScanChar(address: string, k: nat, acc: nat, groups: seq<nat>, doubleColons: int)
      requires k < |address| && -1 <= doubleColons <= |groups| <= 7
      ensures IsHex(address[k]) ==>
        var next := acc * 16 + HexValue(address[k]);
        Scan6(address[k..], acc, groups, doubleColons)
        == if next > 0xffff then Rejected(groups) else Scan6(address[k + 1..], next, groups, doubleColons)
      ensures !IsHex(address[k]) && address[k] != ':' ==>
        Scan6(address[k..], acc, groups, doubleColons) == Rejected(groups)
    {
      assert address[k..][1..] == address[k + 1..];
    }

    method AccumulateHex(acc: nat, c: char) returns (next: nat)
      requires IsHex(c) && c == ToLower(c)
      ensures next == acc * 16 + HexValue(c)
    {
      var d := if c >= 'a' then c as int - ('a' as int - '0' as int - 10) else c as int;
      next := acc * 16 + (d - '0' as int);
    }

    /** A colon at position k: single, or double and then remembered. */
    method ReadSeparator(address: string, k: nat, acc: nat, colons: nat, doubleColons: int, ghost groups: seq<nat>)
      returns (valid: bool, length: nat, separator: int)
      requires k < |address| && address[k] == ':' && -1 <= doubleColons <= colons == |groups| <= 7
      ensures valid ==> 1 <= length <= |address| - k && colons < 7 && -1 <= separator <= colons + 1
      ensures Scan6(address[k..], acc, groups, doubleColons)
           == if valid then Scan6(address[k + length..], 0, groups + [acc], separator) else Rejected(groups)
    {
      ghost var rest := address[k..];
      length, separator := 1, doubleColons;
      assert rest[1..] == address[k + 1..];
      if k + 1 < |address| && address[k + 1] == ':' {
        assert rest[2..] == address[k + 2..];
        if doubleColons >= 0 {
          return false, 0, -1;
        }
        if k + 2 < |address| && address[k + 2] == ':' {
          return false, 0, -1;
        }
        separator := colons + if acc != 0 then 1 else 0;
        length := 2;
      } else if k + 1 == |address| {
        return false, 0, -1;
      }
      valid := colons != 7;
    }

    /** The two bytes of one field. */
    method StoreField(index: nat, value: nat, ghost groups: seq<nat>, ghost before: seq<uint8>)
      requires Valid() && index == |groups| <= 7 && value < 0x1_0000 && Fits16(groups + [value])
      requires |before| == 16 && Fits16(groups)
      requires bytes[..] == Bytes6(groups) + before[2 * index..]
      modifies bytes
      ensures bytes[..] == Bytes6(groups + [value]) + before[2 * (index + 1)..]
    {
      bytes[index * 2] := value / 256;
      bytes[index * 2 + 1] := value % 256;
      assert (groups + [value])[..index] == groups;
    }

    /** The fields right of "::" move to the end, highest byte first because the areas overlap, and zeros fill
        the gap. */
    method OpenGap(colons: nat, doubleColons: nat, ghost groups: seq<nat>)
      requires Valid() && doubleColons <= colons == |groups| <= 7 && Fits16(groups)
      requires bytes[..2 * colons] == Bytes6(groups)
      modifies bytes
      ensures
        var all := Opened(groups, doubleColons);
        Fits16(all) && bytes[..] == Bytes6(all)
    {
      ghost var b := bytes[..];
      MoveUp(colons * 2, doubleColons * 2);
      ghost var moved := bytes[..];
      Clear(doubleColons * 2, 16 - colons * 2 + doubleColons * 2);
      GapBytes(groups, doubleColons, b, moved, bytes[..]);
    }

    method Clear(from: nat, end: nat)
      requires Valid() && from <= end <= 16
      modifies bytes
      ensures Cleared(old(bytes[..]), bytes[..], from, end)
    {
      for i := from to end
        invariant forall k :: 0 <= k < 16 ==> bytes[k] == if from <= k < i then 0 else old(bytes[k])
      {
        bytes[i] := 0;
      }
    }

    /** Bytes from..end move to the top of the array. */
    method MoveUp(end: nat, from: nat)
      requires Valid() && from <= end <= 16
      modifies bytes
      ensures MovedUp(old(bytes[..]), bytes[..], end, from)
    {
      var i := end - from - 1;
      while i >= 0
        invariant -1 <= i <= end - from - 1
        invariant forall k :: 0 <= k <= from + i ==> bytes[k] == old(bytes[k])
        invariant forall k :: 16 - end + from + i < k < 16 ==> bytes[k] == old(bytes[k - (16 - end)])
      {
        bytes[16 - end + from + i] := bytes[from + i];
        i := i - 1;
      }
    }

    method Equals(other: IPAddress) returns (same: bool)
      requires Valid() && other.Valid()
      ensures same <==> Value() == other.Value()
    {
      same := other.ipType == ipType && bytes[..] == other.bytes[..];
    }

    method PrintTo(p: Print) returns (n: nat)
      requires Valid()
      modifies p
      ensures exists text ::
        IsTextOf(Value(), text) && p.out == old(p.out) + text && n == Counted(p.single, Value(), text)
    {
      ghost var text;
      if ipType == IPv6 {
        n, text := Print6(p);
      } else {
        n := Print4(p);
        text := Format4(bytes[..]);
      }
      assert IsTextOf(Value(), text);
    }

    method Print6(p: Print) returns (n: nat, ghost text: string)
      requires Valid() && ipType == IPv6
      modifies p
      ensures IsTextOf(Value(), text) && p.out == old(p.out) + text && n == Total(p.single, text)
    {
      var start, length := LongestRun(bytes);
      text := Format6(Fields(bytes[..]), start, length, 0);
      n := PrintFields(p, start, length, 0);
    }

    /** Prints the fields from `first` on, the run of `length` at `start` elided. */
    method PrintFields(p: Print, start: int, length: int, first: nat) returns (n: nat)
      requires Valid() && first <= 8
      modifies p
      ensures p.out == old(p.out) + Format6(Fields(bytes[..]), start, length, first)
      ensures n == Total(p.single, Format6(Fields(bytes[..]), start, length, first))
    {
      ghost var fields := Fields(bytes[..]);
      ghost var text, done := Format6(fields, start, length, first), "";
      n := 0;
      for f := first to 8
        invariant n == Total(p.single, done) && p.out == old(p.out) + done
        invariant text == done + Format6(fields, start, length, f)
      {
        ghost var piece, rest := Piece(fields, start, length, f), Format6(fields, start, length, f + 1);
        var k := PrintPiece(p, start, length, f);
        assert bytes[..] == old(bytes[..]);
        n := n + k;
        TotalConcat(p.single, done, piece);
        Reassociate(done, piece, rest);
        Reassociate(old(p.out), done, piece);
        done := done + piece;
      }
      assert done + "" == done;
    }

    method PrintPiece(p: Print, start: int, length: int, f: nat) returns (n: nat)
      requires Valid() && f < 8
      modifies p
      ensures p.out == old(p.out) + Piece(Fields(bytes[..]), start, length, f)
      ensures n == Total(p.single, Piece(Fields(bytes[..]), start, length, f))
    {
      ghost var fields := Fields(bytes[..]);
      assert fields[f] == Word(bytes[f * 2], bytes[f * 2 + 1]) && p.out + "" == p.out;
      PieceTotal(p.single, fields, start, length, f);
      n := 0;
      if f < start || f >= start + length {
        n := PrintSeparated(p, f, bytes[f * 2], bytes[f * 2 + 1]);
      } else if f == start {
        if start == 0 {
          n := p.Write(':');
        }
        var k := p.Write(':');
        n := n + k;
      }
    }

    method Print4(p: Print) returns (n: nat)
      requires Valid()
      modifies p
      ensures p.out == old(p.out) + Format4(bytes[..])
      ensures n == |Format4(bytes[..])| + 3 * (p.single('.') - 1)
    {
      n := 0;
      for i := 0 to 3
        invariant n == |p.out| - |old(p.out)| + i * (p.single('.') - 1)
        invariant p.out == old(p.out) + Octets(bytes[..], i)
      {
        var k := PrintOctet(p, bytes[V4_INDEX + i]);
        Reassociate(old(p.out), Octets(bytes[..], i), Numeral(bytes[V4_INDEX + i], 10) + ".");
        Reassociate(Octets(bytes[..], i), Numeral(bytes[V4_INDEX + i], 10), ".");
        n := n + k;
      }
      var k := p.PrintDecimalByte(bytes[V4_INDEX + 3]);
      n := n + k;
      OctetsUnrolled(bytes[..]);
    }
  }
}
