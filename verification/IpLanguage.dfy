/** Which texts the colon-separated parser accepts: all of them, characterised. */
module IpLanguage {
  import opened CTypes
  import opened Numerals
  import opened Printing
  import opened IpText
  import opened IpAddress
  import opened IpRoundTrip

  /** Eight fields, seven colons. */
  ghost predicate IsPlain(text: string) {
    exists fs :: AreFields(fs) && |fs| == 8 && text == Join(fs)
  }

  /** Fields around one "::". An empty side counts as a field, so one of at least one zero remains to be filled in. */
  ghost predicate IsElided(text: string) {
    exists left, right ::
      && AreFields(left) && AreFields(right) && Stored(left) + Stored(right) <= 7
      && text == Join(left) + "::" + Join(right)
  }

  /** The parser reads a missing first field as 0. */
  function FirstFieldShown(text: string): string {
    if |text| >= 2 && text[0] == ':' && text[1] != ':' then "0" + text else text
  }

  /** Cuts what the parser accepts into its fields: h has been read of the current one, s is still to come. */
  lemma {:induction false} Cut(h: string, s: string, groups: seq<nat>, dc: int)
    returns (left: seq<string>, elided: bool, right: seq<string>)
    requires (forall i :: 0 <= i < |h| ==> IsHex(h[i])) && FieldValue(0, h) <= 0xffff
    requires -1 <= dc <= |groups| <= 7 && Scan6(s, FieldValue(0, h), groups, dc).Accepted?
    requires h == "" ==> if s == "" then dc >= 0 else s[0] == ':' ==> |s| >= 2 && s[1] == ':'
    ensures AreFields(left) && AreFields(right) && (elided ==> dc == -1)
    ensures h + s == Join(left) + if elided then "::" + Join(right) else ""
    decreases |s|
  {
    left, elided, right := if h == "" then [] else [h], false, [];
    if s == "" {
      assert h + s == h;
    } else if IsHex(s[0]) {
      FieldValueSnoc(0, h, s[0]);
      left, elided, right := Cut(h + [s[0]], s[1..], groups, dc);
      DigitRead(h, s);
    } else if |s| > 1 && s[1] == ':' {
      var e, r;
      right, e, r := Cut("", s[2..], groups + [FieldValue(0, h)], |groups| + if FieldValue(0, h) != 0 then 1 else 0);
      elided := true;
      DoubleColonRead(h, s, right);
    } else {
      var rest;
      rest, elided, right := Cut("", s[1..], groups + [FieldValue(0, h)], dc);
      left := [h] + rest;
      ColonRead(s);
      FieldInFront(h, s[1..], rest, if elided then "::" + Join(right) else "");
    }
  }

  lemma DigitRead(h: string, s: string)
    requires s != ""
    ensures (h + [s[0]]) + s[1..] == h + s
  {
  }

  lemma ColonRead(s: string)
    requires s != "" && s[0] == ':'
    ensures "" + s[1..] == s[1..] && ":" + s[1..] == s
  {
  }

  lemma DoubleColonRead(h: string, s: string, right: seq<string>)
    requires |s| > 1 && s[0] == s[1] == ':' && "" + s[2..] == Join(right) + ""
    ensures h + s == Join(if h == "" then [] else [h]) + ("::" + Join(right))
  {
    assert "" + s[2..] == s[2..] && Join(right) + "" == Join(right);
    assert s == "::" + s[2..];
  }

  lemma FieldInFront(h: string, s: string, rest: seq<string>, tail: string)
    requires s != "" && s[0] != ':' && s == Join(rest) + tail && (tail == "" || tail[0] == ':')
    ensures h + (":" + s) == Join([h] + rest) + tail
  {
    assert rest != [];
    assert ([h] + rest)[1..] == rest;
  }

  lemma OnlyTheForms(text: string)
    requires text != "" && (text[0] == ':' ==> |text| >= 2 && text[1] == ':')
    requires Scan6(text, 0, [], -1).Accepted?
    ensures IsPlain(text) || IsElided(text)
  {
    var left, elided, right := Cut("", text, [], -1);
    assert "" + text == text;
    FormOfCut(text, left, elided, right);
  }

  lemma FormOfCut(text: string, left: seq<string>, elided: bool, right: seq<string>)
    requires AreFields(left) && AreFields(right) && Scan6(text, 0, [], -1).Accepted?
    requires text == Join(left) + if elided then "::" + Join(right) else ""
    ensures IsPlain(text) || IsElided(text)
  {
    if elided {
      assert text == Join(left) + "::" + Join(right);
      ElidedForm(left, right);
    } else {
      assert text == Join(left);
      PlainForm(left);
    }
  }

  lemma BothForms(text: string)
    requires IsPlain(text) || IsElided(text)
    ensures Scan6(text, 0, [], -1).Accepted?
  {
    if fs :| AreFields(fs) && |fs| == 8 && text == Join(fs) {
      PlainForm(fs);
    } else {
      var left, right :| AreFields(left) && AreFields(right) && Stored(left) + Stored(right) <= 7
        && text == Join(left) + "::" + Join(right);
      ElidedForm(left, right);
    }
  }

  /** The parser accepts a text if and only if it has one of the two forms, a missing first field shown. */
  lemma AcceptedTexts(text: string)
    ensures Scan6(text, 0, [], -1).Accepted? <==>
            IsPlain(FirstFieldShown(text)) || IsElided(FirstFieldShown(text))
  {
    var shown := FirstFieldShown(text);
    FirstFieldRead(text);
    if Scan6(shown, 0, [], -1).Accepted? {
      OnlyTheForms(shown);
    } else if IsPlain(shown) || IsElided(shown) {
      BothForms(shown);
    }
  }

  lemma FirstFieldRead(text: string)
    ensures Scan6(FirstFieldShown(text), 0, [], -1) == Scan6(text, 0, [], -1)
  {
    if FirstFieldShown(text) != text {
      assert ("0" + text)[1..] == text;
      assert IsHex('0') && HexValue('0') == 0;
    }
  }

  // ---- upper and lower case ----

  lemma HexDigits(c: char)
    ensures IsHex(c) <==> c in "0123456789abcdefABCDEF"
  {
    var hex := "0123456789abcdefABCDEF";
    if IsHex(c) {
      var i := if c <= '9' then c as int - '0' as int else if c <= 'F' then c as int - 'A' as int + 16
               else c as int - 'a' as int + 10;
      assert hex[i] == c;
    }
  }

  /** The second text has some of the first one's letters A to F in lower case. */
  ghost predicate Lowered(s: string, t: string) {
    |s| == |t| && forall i :: 0 <= i < |s| ==>
      s[i] == t[i] || ('A' <= s[i] <= 'F' && t[i] as int == s[i] as int - 'A' as int + 'a' as int)
  }

  lemma {:induction false} CaseFree6(s: string, t: string, acc: nat, groups: seq<nat>, dc: int)
    requires Lowered(s, t) && -1 <= dc <= |groups| <= 7
    ensures Scan6(s, acc, groups, dc) == Scan6(t, acc, groups, dc)
    decreases |s|
  {
    if s != "" {
      if IsHex(s[0]) {
        CaseFree6(s[1..], t[1..], acc * 16 + HexValue(s[0]), groups, dc);
      } else if s[0] == ':' && |groups| < 7 {
        if |s| > 1 && s[1] == ':' {
          CaseFree6(s[2..], t[2..], 0, groups + [acc], |groups| + if acc != 0 then 1 else 0);
        } else {
          CaseFree6(s[1..], t[1..], 0, groups + [acc], dc);
        }
      }
    }
  }

  lemma {:induction false} CaseFree4(s: string, t: string, acc: int, octets: seq<nat>)
    requires Lowered(s, t)
    ensures Scan4(s, acc, octets) == Scan4(t, acc, octets)
    decreases |s|
  {
    if s != "" {
      if IsDigit(s[0] as int) {
        var d := s[0] as int - '0' as int;
        CaseFree4(s[1..], t[1..], if acc < 0 then d else acc * 10 + d, octets);
      } else if s[0] == '.' && acc >= 0 {
        CaseFree4(s[1..], t[1..], -1, octets + [acc]);
      }
    }
  }

  /** The case of hexadecimal digits does not matter, neither for the result nor for what a refusal leaves. */
  lemma CaseFree(text: string, lower: string, prior: Address)
    requires Lowered(text, lower) && |prior.bytes| == 16
    ensures AfterString(text, prior) == AfterString(lower, prior)
  {
    CaseFree4(text, lower, -1, []);
    CaseFree6(text, lower, 0, [], -1);
  }

  // ---- RFC 4291 section 2.2 ----

  /** One to four hexadecimal digits. */
  ghost predicate IsShort(h: string) {
    1 <= |h| <= 4 && forall i :: 0 <= i < |h| ==> IsHex(h[i])
  }

  ghost predicate AllShort(fs: seq<string>) {
    forall i :: 0 <= i < |fs| ==> IsShort(fs[i])
  }

  /** The preferred form: eight fields. */
  ghost predicate IsRfcPlain(text: string) {
    exists fs :: AllShort(fs) && |fs| == 8 && text == Join(fs)
  }

  /** The compressed form: "::" stands for one or more fields of zeros. */
  ghost predicate IsRfcElided(text: string) {
    exists left, right ::
      AllShort(left) && AllShort(right) && |left| + |right| <= 7 && text == Join(left) + "::" + Join(right)
  }

  /** The compressed form with seven fields, all on the same side. */
  ghost predicate SevenOnOneSide(text: string) {
    exists fs :: AllShort(fs) && |fs| == 7 && (text == Join(fs) + "::" || text == "::" + Join(fs))
  }

  /** A text of either form is accepted if and only if it does not have seven fields on one side of "::". */
  lemma RfcTexts(text: string)
    requires IsRfcPlain(text) || IsRfcElided(text)
    ensures Scan6(text, 0, [], -1).Accepted? <==> !SevenOnOneSide(text)
  {
    if SevenOnOneSide(text) {
      SevenRefused(text);
    } else if IsRfcPlain(text) {
      var fs :| AllShort(fs) && |fs| == 8 && text == Join(fs);
      ShortAreFields(fs);
      PlainForm(fs);
    } else {
      var left, right :|
        AllShort(left) && AllShort(right) && |left| + |right| <= 7 && text == Join(left) + "::" + Join(right);
      ShortAreFields(left);
      ShortAreFields(right);
      ElidedForm(left, right);
      SevenOrFewer(left, right);
    }
  }

  lemma SevenRefused(text: string)
    requires SevenOnOneSide(text)
    ensures Scan6(text, 0, [], -1).Rejected?
  {
    var fs :| AllShort(fs) && |fs| == 7 && (text == Join(fs) + "::" || text == "::" + Join(fs));
    ShortAreFields(fs);
    assert Join(fs) + "::" + Join([]) == Join(fs) + "::" && Join([]) + "::" + Join(fs) == "::" + Join(fs);
    ElidedForm(fs, []);
    ElidedForm([], fs);
  }

  lemma SevenOrFewer(left: seq<string>, right: seq<string>)
    requires AllShort(left) && AllShort(right) && |left| + |right| <= 7
    ensures Stored(left) + Stored(right) <= 7 || SevenOnOneSide(Join(left) + "::" + Join(right))
  {
    if |left| == 7 {
      assert Join(left) + "::" + Join(right) == Join(left) + "::";
    } else if |right| == 7 {
      assert Join(left) + "::" + Join(right) == "::" + Join(right);
    }
  }

  lemma ShortAreFields(fs: seq<string>)
    requires AllShort(fs)
    ensures AreFields(fs)
  {
    forall i | 0 <= i < |fs| ensures IsField(fs[i]) {
      ShortValue(0, fs[i], 4);
    }
  }

  function Power16(n: nat): nat {
    if n == 0 then 1 else 16 * Power16(n - 1)
  }

  lemma {:induction false} ShortValue(acc: nat, h: string, n: nat)
    requires |h| <= n && forall i :: 0 <= i < |h| ==> IsHex(h[i])
    ensures FieldValue(acc, h) < (acc + 1) * Power16(n)
    decreases |h|
  {
    if h == "" {
      PowerAtLeast(acc + 1, n);
    } else {
      var next := acc * 16 + HexValue(h[0]);
      ShortValue(next, h[1..], n - 1);
      TimesPower(next + 1, acc + 1, Power16(n - 1));
    }
  }

  lemma {:induction false} PowerAtLeast(k: nat, n: nat)
    ensures Power16(n) >= 1 && k <= k * Power16(n)
  {
    if n > 0 {
      PowerAtLeast(k, n - 1);
    }
  }

  lemma TimesPower(a: nat, b: nat, p: nat)
    requires a <= 16 * b
    ensures a * p <= b * (16 * p)
  {
  }

  // ---- RFC 5952 section 4 ----

  /** A field in lower case and without leading zeros. */
  ghost predicate IsShortest(h: string) {
    1 <= |h| <= 4 && (|h| > 1 ==> h[0] != '0') && forall i :: 0 <= i < |h| ==> h[i] in "0123456789abcdef"
  }

  ghost predicate AllShortest(fs: seq<string>) {
    forall i :: 0 <= i < |fs| ==> IsShortest(fs[i])
  }

  ghost predicate ShortestPlain(text: string) {
    exists fs :: AllShortest(fs) && |fs| == 8 && text == Join(fs)
  }

  /** "::" stands for two fields at least. */
  ghost predicate ShortestElided(text: string) {
    exists left, right ::
      AllShortest(left) && AllShortest(right) && |left| + |right| <= 6 && text == Join(left) + "::" + Join(right)
  }

  /** Two neighbouring fields are zero. */
  ghost predicate ZerosAt(fields: seq<nat>, f: nat)
    requires f + 1 < |fields|
  {
    fields[f] == 0 && fields[f + 1] == 0
  }

  /** What printTo writes of an IPv6 address: shortest lower-case fields, and "::" for two or more of them
      exactly if two neighbouring ones are zero. */
  lemma PrintedForm(a: Address, text: string)
    requires |a.bytes| == 16 && a.ipType == IPv6
    ensures IsTextOf(a, text) ==>
      if exists f :: 0 <= f < 7 && ZerosAt(Fields(a.bytes), f) then ShortestElided(text) else ShortestPlain(text)
  {
    var fields := Fields(a.bytes);
    if IsTextOf(a, text) {
      var start, length :| LeftmostLongest(fields, 8, start, length) && text == Format6(fields, start, length, 0);
      PairInRun(fields, start, length);
      if start == -1 {
        PlainPrinted(fields);
      } else {
        ElidedPrinted(fields, start, length);
      }
    }
  }

  lemma PairInRun(fields: seq<nat>, start: int, length: int)
    requires |fields| == 8 && LeftmostLongest(fields, 8, start, length)
    ensures start != -1 <==> exists f :: 0 <= f < 7 && ZerosAt(fields, f)
  {
    if start != -1 {
      assert ZerosAt(fields, start);
    } else if f :| 0 <= f < 7 && ZerosAt(fields, f) {
      assert ZeroRun(fields, f, 2);
    }
  }

  lemma PlainPrinted(fields: seq<nat>)
    requires |fields| == 8 && Fits16(fields)
    ensures ShortestPlain(Format6(fields, -1, 1, 0))
  {
    FormatPlain(fields, -1, 1, 0);
    assert fields[0..] == fields;
    HexesShortest(fields);
  }

  lemma ElidedPrinted(fields: seq<nat>, start: nat, length: nat)
    requires |fields| == 8 && Fits16(fields) && 2 <= length && start + length <= 8
    ensures ShortestElided(Format6(fields, start, length, 0))
  {
    FormatIsElidedForm(fields, start, length);
    HexesShortest(fields[..start]);
    HexesShortest(fields[start + length..]);
  }

  lemma HexesShortest(fields: seq<nat>)
    requires Fits16(fields)
    ensures AllShortest(Hexes(fields))
  {
    forall i | 0 <= i < |fields| ensures IsShortest(Hexes(fields)[i]) {
      HexShortest(fields[i]);
    }
  }

  lemma HexShortest(v: nat)
    requires v <= 0xffff
    ensures IsShortest(Hex(v))
  {
    var ds := Digits(v, 16);
    DigitsAreNumeral(v, 16);
    FourDigits();
    DigitsBound(v, 16, 4);
    forall i | 0 <= i < |ds| ensures Hex(v)[i] in "0123456789abcdef" && (ds[i] != 0 ==> Hex(v)[i] != '0') {
      LowerDigit(ds[i]);
    }
  }

  lemma FourDigits()
    ensures Pow(16, 4) == 0x1_0000
  {
    assert Pow(16, 2) == 256;
  }

  lemma LowerDigit(d: nat)
    requires d < 16
    ensures DigitChar(d, 'a') == "0123456789abcdef"[d]
  {
  }

  // ---- texts outside the two forms ----

  /** A text with a dot, such as one with an embedded IPv4 address, is refused. */
  lemma {:induction false} DotRefused(s: string, acc: nat, groups: seq<nat>, dc: int)
    requires '.' in s && -1 <= dc <= |groups| <= 7
    ensures Scan6(s, acc, groups, dc).Rejected?
    decreases |s|
  {
    if IsHex(s[0]) {
      DotRefused(s[1..], acc * 16 + HexValue(s[0]), groups, dc);
    } else if s[0] == ':' && |groups| < 7 {
      if |s| > 1 && s[1] == ':' {
        DotRefused(s[2..], 0, groups + [acc], |groups| + if acc != 0 then 1 else 0);
      } else {
        DotRefused(s[1..], 0, groups + [acc], dc);
      }
    }
  }

  lemma JoinCons(h: string, fs: seq<string>)
    requires fs != []
    ensures Join([h] + fs) == h + ":" + Join(fs)
  {
    assert ([h] + fs)[1..] == fs;
  }

  function SevenFields(): seq<string> {
    ["1"] + (["2"] + (["3"] + (["4"] + (["5"] + (["6"] + ["7"])))))
  }

  lemma SevenShort()
    ensures AllShort(SevenFields()) && |SevenFields()| == 7
  {
  }

  lemma LastThree(last: seq<string>)
    requires last == ["5"] + (["6"] + ["7"])
    ensures last != [] && Join(last) == "5:6:7"
  {
    JoinCons("6", ["7"]);
    JoinCons("5", ["6"] + ["7"]);
  }

  lemma SevenJoined()
    ensures AllShort(SevenFields()) && |SevenFields()| == 7
    ensures Join(SevenFields()) == "1:2:3:4:5:6:7"
  {
    SevenShort();
    var last := ["5"] + (["6"] + ["7"]);
    LastThree(last);
    JoinCons("4", last);
    JoinCons("3", ["4"] + last);
    JoinCons("2", ["3"] + (["4"] + last));
    JoinCons("1", ["2"] + (["3"] + (["4"] + last)));
  }

  /** A compressed form that is refused. */
  lemma SevenBehind()
    ensures IsRfcElided("::1:2:3:4:5:6:7") && Scan6("::1:2:3:4:5:6:7", 0, [], -1).Rejected?
  {
    var fs, text := SevenFields(), "::1:2:3:4:5:6:7";
    SevenJoined();
    assert text == "::" + Join(fs) && "::" + Join(fs) == Join([]) + "::" + Join(fs);
    SevenRefused(text);
  }

  /** Seven fields behind a single colon have neither form, and are accepted as if a first field were 0. */
  lemma MissingFirst(fs: seq<string>, text: string)
    requires AllShort(fs) && |fs| == 7 && text == ":" + Join(fs)
    ensures !IsRfcPlain(text) && !IsRfcElided(text) && Scan6(text, 0, [], -1).Accepted?
  {
    ShortAreFields(fs);
    JoinStart(fs);
    NotRfc(text);
    ZeroInFront(fs, text);
    FirstFieldRead(text);
    PlainForm(["0"] + fs);
  }

  lemma ZeroInFront(fs: seq<string>, text: string)
    requires AllShort(fs) && fs != [] && text == ":" + Join(fs) && |text| >= 2 && text[1] != ':'
    ensures AreFields(["0"] + fs) && FirstFieldShown(text) == Join(["0"] + fs)
  {
    JoinCons("0", fs);
    assert IsShort("0");
    ShortAreFields(["0"] + fs);
    assert "0" + text == ("0" + ":") + Join(fs);
  }

  /** Such a text. */
  lemma FirstMissing(text: string)
    requires text == ":1:2:3:4:5:6:7"
    ensures !IsRfcPlain(text) && !IsRfcElided(text) && Scan6(text, 0, [], -1).Accepted?
  {
    SevenJoined();
    assert text == ":" + "1:2:3:4:5:6:7";
    MissingFirst(SevenFields(), text);
  }

  lemma NotRfc(text: string)
    requires |text| >= 2 && text[0] == ':' && text[1] != ':'
    ensures !IsRfcPlain(text) && !IsRfcElided(text)
  {
    if IsRfcPlain(text) {
      var fs :| AllShort(fs) && |fs| == 8 && text == Join(fs);
      ShortAreFields(fs);
      JoinStart(fs);
    }
    if IsRfcElided(text) {
      var left, right :|
        AllShort(left) && AllShort(right) && |left| + |right| <= 7 && text == Join(left) + "::" + Join(right);
      ShortAreFields(left);
      if left != [] {
        JoinStart(left);
      }
    }
  }
}
