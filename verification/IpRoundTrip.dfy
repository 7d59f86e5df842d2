/** Printing an address and parsing the text again. */
module IpRoundTrip {
  import opened CTypes
  import opened Numerals
  import opened Printing
  import opened IpText
  import opened IpAddress
  import Reading = NumberReading

  // ---- fields ----

  lemma {:induction false} FieldValueSnoc(acc: nat, h: string, c: char)
    requires IsHex(c) && forall i :: 0 <= i < |h| ==> IsHex(h[i])
    ensures FieldValue(acc, h + [c]) == FieldValue(acc, h) * 16 + HexValue(c)
    decreases |h|
  {
    if h != "" {
      assert (h + [c])[1..] == h[1..] + [c];
      FieldValueSnoc(acc * 16 + HexValue(h[0]), h[1..], c);
    }
  }

  lemma {:induction false} FieldValueOfDigits(ds: seq<nat>)
    requires forall i :: 0 <= i < |ds| ==> ds[i] < 16
    ensures forall i :: 0 <= i < |ds| ==> IsHex(Spell(ds, 'a')[i])
    ensures FieldValue(0, Spell(ds, 'a')) == Value(ds, 16)
  {
    if ds != [] {
      var init, d := ds[..|ds| - 1], ds[|ds| - 1];
      FieldValueOfDigits(init);
      assert Spell(ds, 'a') == Spell(init, 'a') + [DigitChar(d, 'a')];
      FieldValueSnoc(0, Spell(init, 'a'), DigitChar(d, 'a'));
    }
  }

  lemma HexIsField(v: nat)
    requires v <= 0xffff
    ensures IsField(Hex(v)) && FieldValue(0, Hex(v)) == v
  {
    DigitsAreNumeral(v, 16);
    FieldValueOfDigits(Digits(v, 16));
  }

  function Hexes(fields: seq<nat>): (hs: seq<string>)
    ensures |hs| == |fields|
  {
    seq(|fields|, i requires 0 <= i < |fields| => Hex(fields[i]))
  }

  lemma HexesAreFields(fields: seq<nat>)
    requires Fits16(fields)
    ensures AreFields(Hexes(fields)) && Values(Hexes(fields)) == fields
  {
    forall i | 0 <= i < |fields| ensures IsField(Hexes(fields)[i]) && FieldValue(0, Hexes(fields)[i]) == fields[i] {
      HexIsField(fields[i]);
    }
  }

  // ---- the printed text, as fields on both sides of "::" ----

  lemma {:induction false} FormatPlain(fields: seq<nat>, start: int, length: int, f: nat)
    requires |fields| == 8 && f <= 8 && start + length <= f && 0 <= length
    ensures Format6(fields, start, length, f) == Join(Hexes(fields[f..]))
    decreases 8 - f
  {
    if f < 8 {
      FormatPlain(fields, start, length, f + 1);
      assert Hexes(fields[f..])[0] == Hex(fields[f]);
      assert Hexes(fields[f..])[1..] == Hexes(fields[f + 1..]);
    }
  }

  lemma {:induction false} FormatGap(fields: seq<nat>, start: nat, length: nat, f: nat)
    requires |fields| == 8 && start < f <= start + length <= 8
    ensures Format6(fields, start, length, f) == Join(Hexes(fields[start + length..]))
    decreases 8 - f
  {
    if f == start + length {
      FormatPlain(fields, start, length, f);
    } else {
      FormatGap(fields, start, length, f + 1);
      assert Piece(fields, start, length, f) == "";
    }
  }

  /** The text of the fields in front of the gap. */
  lemma {:induction false} FormatElided(fields: seq<nat>, start: nat, length: nat, f: nat)
    requires |fields| == 8 && f < start && 1 <= length && start + length <= 8
    ensures Format6(fields, start, length, f)
         == Join(Hexes(fields[f..start])) + "::" + Join(Hexes(fields[start + length..]))
    decreases start - f
  {
    var right, hs := Join(Hexes(fields[start + length..])), Hexes(fields[f..start]);
    assert Piece(fields, start, length, f) == hs[0] + ":";
    if f + 1 == start {
      FormatGap(fields, start, length, start + 1);
      assert Piece(fields, start, length, start) == ":";
      assert hs == [hs[0]];
      LastBeforeGap(hs[0], right);
    } else {
      FormatElided(fields, start, length, f + 1);
      assert hs[1..] == Hexes(fields[f + 1..start]);
      Regroup(hs[0], Join(hs[1..]), right);
    }
  }

  lemma LastBeforeGap(h: string, right: string)
    ensures (h + ":") + (":" + right) == h + "::" + right
  {
  }

  lemma Regroup(h: string, rest: string, right: string)
    ensures (h + ":") + (rest + "::" + right) == (h + ":" + rest) + "::" + right
  {
  }

  lemma FormatIsElidedForm(fields: seq<nat>, start: nat, length: nat)
    requires |fields| == 8 && 1 <= length && start + length <= 8
    ensures Format6(fields, start, length, 0)
         == Join(Hexes(fields[..start])) + "::" + Join(Hexes(fields[start + length..]))
  {
    if start > 0 {
      FormatElided(fields, start, length, 0);
      assert fields[0..start] == fields[..start];
    } else {
      FormatGap(fields, start, length, 1);
    }
  }

  // ---- IPv6 ----

  /** Eliding any run of two or more zero fields, the canonical one in particular, loses nothing. */
  lemma ElidedReadsBack(fields: seq<nat>, start: nat, length: nat)
    requires |fields| == 8 && Fits16(fields) && length >= 2 && ZeroRun(fields, start, length)
    ensures Scan6(Format6(fields, start, length, 0), 0, [], -1) == Accepted(fields)
    ensures ':' in Format6(fields, start, length, 0)
  {
    var left, right := fields[..start], fields[start + length..];
    HexesAreFields(left);
    HexesAreFields(right);
    FormatIsElidedForm(fields, start, length);
    ElidedForm(Hexes(left), Hexes(right));
    FilledAgain(fields, start, length);
    ColonInside(Join(Hexes(left)), Join(Hexes(right)));
  }

  lemma FilledAgain(fields: seq<nat>, start: nat, length: nat)
    requires ZeroRun(fields, start, length)
    ensures fields[..start] + Zeros(length) + fields[start + length..] == fields
  {
  }

  lemma ColonInside(a: string, b: string)
    ensures ':' in a + "::" + b
  {
    assert (a + "::" + b)[|a|] == ':';
  }

  lemma PlainReadsBack(fields: seq<nat>)
    requires |fields| == 8 && Fits16(fields)
    ensures Scan6(Format6(fields, -1, 1, 0), 0, [], -1) == Accepted(fields)
    ensures ':' in Format6(fields, -1, 1, 0)
  {
    FormatPlain(fields, -1, 1, 0);
    assert fields[0..] == fields;
    HexesAreFields(fields);
    PlainForm(Hexes(fields));
    assert ':' in Hex(fields[0]) + ":";
    assert Format6(fields, -1, 1, 0) == (Hex(fields[0]) + ":") + Format6(fields, -1, 1, 1);
  }

  lemma FieldsBytes(bytes: seq<uint8>)
    requires |bytes| == 16
    ensures Bytes6(Fields(bytes)) == bytes
  {
    var b := Bytes6(Fields(bytes));
    forall f | 0 <= f < 8 ensures b[2 * f] == bytes[2 * f] && b[2 * f + 1] == bytes[2 * f + 1] {
      assert Fields(bytes)[f] == bytes[2 * f] as int * 256 + bytes[2 * f + 1] as int;
    }
    forall k | 0 <= k < 16 ensures b[k] == bytes[k] {
      assert k == 2 * (k / 2) || k == 2 * (k / 2) + 1;
    }
  }

  lemma ReadsBack6(bytes: seq<uint8>, start: int, length: int, prior: Address)
    requires |bytes| == |prior.bytes| == 16 && LeftmostLongest(Fields(bytes), 8, start, length)
    ensures AfterString(Format6(Fields(bytes), start, length, 0), prior) == (Address(IPv6, bytes), true)
  {
    var text := Format6(Fields(bytes), start, length, 0);
    if start == -1 {
      PlainReadsBack(Fields(bytes));
    } else {
      ElidedReadsBack(Fields(bytes), start, length);
    }
    NotDotted(text, -1, []);
    FieldsBytes(bytes);
  }

  // ---- IPv4 ----

  lemma {:induction false} ScanDecimal(ds: seq<nat>, rest: string, acc: nat, octets: seq<nat>)
    requires forall i :: 0 <= i < |ds| ==> ds[i] < 10
    requires Reading.Accumulate(acc, ds, -1) <= 255
    ensures Scan4(Spell(ds, 'A') + rest, acc, octets) == Scan4(rest, Reading.Accumulate(acc, ds, -1), octets)
    decreases ds
  {
    var text := Spell(ds, 'A') + rest;
    if ds == [] {
      assert text == rest;
    } else {
      Reading.AccumulateMono(acc * 10 + ds[0], acc * 10 + ds[0], ds[1..], -1);
      assert text[1..] == Spell(ds[1..], 'A') + rest;
      ScanDecimal(ds[1..], rest, acc * 10 + ds[0], octets);
    }
  }

  lemma ScanFirst(d: nat, rest: string, octets: seq<nat>)
    requires d < 10
    ensures Scan4([DigitChar(d, 'A')] + rest, -1, octets) == Scan4(rest, d, octets)
  {
    assert ([DigitChar(d, 'A')] + rest)[1..] == rest;
  }

  lemma ScanOctet(v: uint8, rest: string, octets: seq<nat>)
    ensures Scan4(Numeral(v, 10) + rest, -1, octets) == Scan4(rest, v, octets)
  {
    var ds := Digits(v, 10);
    DigitsAreNumeral(v, 10);
    Reading.AccumulateIsValue(ds);
    var tail := Spell(ds[1..], 'A') + rest;
    assert Spell(ds, 'A') + rest == [DigitChar(ds[0], 'A')] + tail;
    ScanFirst(ds[0], tail, octets);
    ScanDecimal(ds[1..], rest, ds[0], octets);
  }

  lemma ScanDot(v: uint8, rest: string, octets: seq<nat>)
    requires |octets| < 3
    ensures Scan4("." + rest, v, octets) == Scan4(rest, -1, octets + [v])
  {
    assert ("." + rest)[1..] == rest;
  }

  lemma ScanDotted(bytes: seq<uint8>)
    requires |bytes| == 16
    ensures Scan4(Format4(bytes), -1, []) == Accepted([bytes[12], bytes[13], bytes[14], bytes[15]])
  {
    var t3 := Numeral(bytes[15], 10);
    var t2 := Numeral(bytes[14], 10) + ("." + t3);
    var t1 := Numeral(bytes[13], 10) + ("." + t2);
    assert Format4(bytes) == Numeral(bytes[12], 10) + ("." + t1);
    ScanOctet(bytes[12], "." + t1, []);
    ScanDot(bytes[12], t1, []);
    ScanOctet(bytes[13], "." + t2, [bytes[12]]);
    ScanDot(bytes[13], t2, [bytes[12]]);
    ScanOctet(bytes[14], "." + t3, [bytes[12], bytes[13]]);
    ScanDot(bytes[14], t3, [bytes[12], bytes[13]]);
    ScanOctet(bytes[15], "", [bytes[12], bytes[13], bytes[14]]);
    assert t3 + "" == t3;
    assert [] + [bytes[12]] == [bytes[12]];
    assert [bytes[12]] + [bytes[13]] == [bytes[12], bytes[13]];
    assert [bytes[12], bytes[13]] + [bytes[14]] == [bytes[12], bytes[13], bytes[14]];
    assert [bytes[12], bytes[13], bytes[14]] + [bytes[15]] == [bytes[12], bytes[13], bytes[14], bytes[15]];
  }

  lemma ReadsBack4(bytes: seq<uint8>, prior: Address)
    requires |bytes| == |prior.bytes| == 16
    ensures AfterString(Format4(bytes), prior) == (Address(IPv4, Zeros(12) + bytes[12..]), true)
  {
    ScanDotted(bytes);
    var octets: seq<nat> := [bytes[12], bytes[13], bytes[14], bytes[15]];
    assert bytes[12..] == octets;
    assert Bytes4(octets) == Zeros(12) + octets;
  }

  // ---- both ----

  /** The printed text is always accepted, whatever the receiving object held. It gives back an equal
      address of the same type if and only if the address is IPv6 or its first twelve bytes are clear. */
  lemma RoundTrip(a: Address, text: string, prior: Address)
    requires |a.bytes| == |prior.bytes| == 16
    ensures IsTextOf(a, text) ==>
      && AfterString(text, prior).1 && AfterString(text, prior).0.ipType == a.ipType
      && (AfterString(text, prior).0 == a <==> a.ipType.IPv6? || a.bytes[..12] == Zeros(12))
  {
    match a.ipType
    case IPv6 =>
      if IsTextOf(a, text) {
        var start, length :| LeftmostLongest(Fields(a.bytes), 8, start, length)
          && text == Format6(Fields(a.bytes), start, length, 0);
        ReadsBack6(a.bytes, start, length, prior);
      }
    case IPv4 =>
      ReadsBack4(a.bytes, prior);
      var b := Zeros(12) + a.bytes[12..];
      assert a.bytes == a.bytes[..12] + a.bytes[12..];
      assert b[..12] == Zeros(12);
  }

  lemma {:induction false} JoinChars(fs: seq<string>)
    requires AreFields(fs)
    ensures '.' !in Join(fs) && (|fs| >= 2 ==> ':' in Join(fs))
    decreases |fs|
  {
    if |fs| == 1 {
      assert forall i :: 0 <= i < |fs[0]| ==> IsHex(fs[0][i]);
    } else if |fs| > 1 {
      JoinChars(fs[1..]);
      assert forall i :: 0 <= i < |fs[0]| ==> IsHex(fs[0][i]);
      assert ':' in ":";
    }
  }

  lemma RefusedScan(fs: seq<string>)
    requires AreFields(fs) && 2 <= |fs| <= 7
    ensures Scan4(Join(fs), -1, []) == Rejected([])
    ensures Scan6(Join(fs), 0, [], -1) == Rejected(Values(fs)[..|fs| - 1])
    ensures Fits16(Values(fs)[..|fs| - 1])
  {
    JoinChars(fs);
    NotDotted(Join(fs), -1, []);
    ScanFields(fs, [], -1);
    FinishPlain(Values(fs));
    Scan6Shape(Join(fs), 0, [], -1);
  }

  /** How such an IPv4 address comes about: a text with two to seven fields and no "::" is refused at its
      end, and the fields stored by then stay in an object that keeps its type. */
  lemma RefusedTextLeavesBytes(fs: seq<string>, prior: Address)
    requires AreFields(fs) && 2 <= |fs| <= 7 && |prior.bytes| == 16
    ensures Fits16(Values(fs)[..|fs| - 1])
    ensures
      var stored := Values(fs)[..|fs| - 1];
      AfterString(Join(fs), prior)
      == (Address(prior.ipType, Bytes6(stored) + Zeros(16 - 2 * |stored|)), false)
  {
    RefusedScan(fs);
    var stored := Values(fs)[..|fs| - 1];
    assert Bytes4([]) == Zeros(16);
    assert Zeros(16)[2 * |stored|..] == Zeros(16 - 2 * |stored|);
  }

  lemma RefusedTextBreaksRoundTrip(fs: seq<string>, prior: Address, text: string)
    requires AreFields(fs) && 2 <= |fs| <= 7 && |prior.bytes| == 16
    ensures prior.ipType == IPv4 && Values(fs)[0] != 0 && IsTextOf(AfterString(Join(fs), prior).0, text)
      ==> AfterString(text, prior).0 != AfterString(Join(fs), prior).0
  {
    var a, stored := AfterString(Join(fs), prior).0, Values(fs)[..|fs| - 1];
    if prior.ipType == IPv4 && Values(fs)[0] != 0 && IsTextOf(a, text) {
      RefusedTextLeavesBytes(fs, prior);
      RoundTrip(a, text, prior);
      assert a.bytes[0] == stored[0] / 256 && a.bytes[1] == stored[0] % 256;
      assert a.bytes[..12][0] != 0 || a.bytes[..12][1] != 0;
    }
  }

  /** A field list has one leftmost longest run, so an address has one text. */
  lemma TextUnique(a: Address, s: string, t: string)
    requires |a.bytes| == 16
    ensures IsTextOf(a, s) && IsTextOf(a, t) ==> s == t
  {
    if a.ipType.IPv6? && IsTextOf(a, s) && IsTextOf(a, t) {
      var fields := Fields(a.bytes);
      var s1, l1 :| LeftmostLongest(fields, 8, s1, l1) && s == Format6(fields, s1, l1, 0);
      var s2, l2 :| LeftmostLongest(fields, 8, s2, l2) && t == Format6(fields, s2, l2, 0);
      assert s1 == s2 && l1 == l2;
    }
  }
}
