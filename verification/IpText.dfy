/** The text forms of IP addresses: what IPAddress.cpp reads and writes, as functions of the text. */
module IpText {
  import opened CTypes

  /** A scan either fails, with the fields it had stored by then, or yields the whole address. */
  datatype Outcome = Rejected(stored: seq<nat>) | Accepted(fields: seq<nat>)

  function Zeros(n: nat): (z: seq<uint8>)
    ensures |z| == n
  {
    seq(n, _ => 0)
  }

  // ---- dotted decimal ----

  /** acc is the number being read, -1 before its first digit; octets are those already closed by a dot. */
  function Scan4(s: string, acc: int, octets: seq<nat>): Outcome {
    if s == "" then
      if |octets| != 3 || acc < 0 then Rejected(octets) else Accepted(octets + [acc])
    else if IsDigit(s[0] as int) then
      var d := s[0] as int - '0' as int;
      var next := if acc < 0 then d else acc * 10 + d;
      if next > 255 then Rejected(octets) else Scan4(s[1..], next, octets)
    else if s[0] == '.' then
      if |octets| == 3 || acc < 0 then Rejected(octets) else Scan4(s[1..], -1, octets + [acc])
    else Rejected(octets)
  }

  // ---- colon-separated hexadecimal ----

  function ToLower(c: char): char {
    if 'A' <= c <= 'Z' then c - 'A' + 'a' else c
  }

  predicate IsHex(c: char) {
    IsDigit(c as int) || 'a' <= ToLower(c) <= 'f'
  }

  function HexValue(c: char): nat
    requires IsHex(c)
  {
    if IsDigit(c as int) then (c - '0') as nat else (ToLower(c) - 'a') as nat + 10
  }

  /** The position of "::" is kept as the number of fields to its left, -1 while there is none. */
  function Scan6(s: string, acc: nat, groups: seq<nat>, doubleColons: int): Outcome
    requires -1 <= doubleColons <= |groups| <= 7
    decreases |s|
  {
    if s == "" then Finish6(acc, groups, doubleColons)
    else if IsHex(s[0]) then
      var next := acc * 16 + HexValue(s[0]);
      if next > 0xffff then Rejected(groups) else Scan6(s[1..], next, groups, doubleColons)
    else if s[0] == ':' then
      if |s| > 1 && s[1] == ':' then
        if doubleColons >= 0 || (|s| > 2 && s[2] == ':') || |groups| == 7 then Rejected(groups)
        else Scan6(s[2..], 0, groups + [acc], |groups| + if acc != 0 then 1 else 0)
      else if |s| == 1 || |groups| == 7 then Rejected(groups)
      else Scan6(s[1..], 0, groups + [acc], doubleColons)
    else Rejected(groups)
  }

  /** The fields from number `at` on moved to the end of the address, behind zeros. */
  function Opened(g: seq<nat>, at: nat): seq<nat>
    requires at <= |g| <= 8
  {
    g[..at] + Zeros(8 - |g|) + g[at..]
  }

  function Finish6(acc: nat, groups: seq<nat>, doubleColons: int): Outcome
    requires -1 <= doubleColons <= |groups| <= 7
  {
    if (doubleColons == -1 && |groups| != 7) || (doubleColons > -1 && |groups| > 6) then Rejected(groups)
    else
      var g := groups + [acc];
      if doubleColons == -1 then Accepted(g)
      else Accepted(Opened(g, doubleColons))
  }

  // ---- fields and separators ----

  ghost predicate IsField(h: string) {
    h != "" && (forall i :: 0 <= i < |h| ==> IsHex(h[i])) && FieldValue(0, h) <= 0xffff
  }

  /** Hexadecimal digits read from the left. */
  ghost function FieldValue(acc: nat, h: string): nat
    requires forall i :: 0 <= i < |h| ==> IsHex(h[i])
    decreases |h|
  {
    if h == "" then acc else FieldValue(acc * 16 + HexValue(h[0]), h[1..])
  }

  ghost predicate AreFields(fs: seq<string>) {
    forall i :: 0 <= i < |fs| ==> IsField(fs[i])
  }

  ghost function Values(fs: seq<string>): (v: seq<nat>)
    requires AreFields(fs)
    ensures |v| == |fs|
  {
    seq(|fs|, i requires 0 <= i < |fs| => FieldValue(0, fs[i]))
  }

  function Join(fs: seq<string>): string {
    if fs == [] then "" else if |fs| == 1 then fs[0] else fs[0] + ":" + Join(fs[1..])
  }

  lemma {:induction false} FieldValueGrows(acc: nat, h: string)
    requires forall i :: 0 <= i < |h| ==> IsHex(h[i])
    ensures acc <= FieldValue(acc, h)
    decreases |h|
  {
    if h != "" {
      FieldValueGrows(acc * 16 + HexValue(h[0]), h[1..]);
    }
  }

  /** Reading the digits of a field. */
  lemma {:induction false} ScanHex(h: string, rest: string, acc: nat, groups: seq<nat>, dc: int)
    requires forall i :: 0 <= i < |h| ==> IsHex(h[i])
    requires FieldValue(acc, h) <= 0xffff && -1 <= dc <= |groups| <= 7
    ensures Scan6(h + rest, acc, groups, dc) == Scan6(rest, FieldValue(acc, h), groups, dc)
    decreases |h|
  {
    if h == "" {
      assert h + rest == rest;
    } else {
      var next := acc * 16 + HexValue(h[0]);
      FieldValueGrows(next, h[1..]);
      assert (h + rest)[0] == h[0] && (h + rest)[1..] == h[1..] + rest;
      ScanHex(h[1..], rest, next, groups, dc);
    }
  }

  /** A field closed by a single colon. */
  lemma ScanField(h: string, rest: string, groups: seq<nat>, dc: int)
    requires IsField(h) && rest != "" && rest[0] != ':' && -1 <= dc <= |groups| <= 7
    ensures Scan6(h + ":" + rest, 0, groups, dc)
         == if |groups| == 7 then Rejected(groups) else Scan6(rest, 0, groups + [FieldValue(0, h)], dc)
  {
    var tail := ":" + rest;
    assert h + ":" + rest == h + tail;
    ScanHex(h, tail, 0, groups, dc);
    assert tail[1..] == rest;
  }

  lemma JoinStart(fs: seq<string>)
    requires AreFields(fs) && fs != []
    ensures Join(fs) != "" && Join(fs)[0] != ':'
  {
    assert IsHex(fs[0][0]);
    assert Join(fs)[0] == fs[0][0];
  }

  /** Fields separated by single colons, up to the end of the text. */
  lemma {:induction false} ScanFields(fs: seq<string>, groups: seq<nat>, dc: int)
    requires AreFields(fs) && fs != [] && -1 <= dc <= |groups| <= 7
    ensures
      var vs := Values(fs);
      if |groups| + |fs| <= 8
      then Scan6(Join(fs), 0, groups, dc) == Finish6(vs[|vs| - 1], groups + vs[..|vs| - 1], dc)
      else Scan6(Join(fs), 0, groups, dc).Rejected?
    decreases |fs|
  {
    var vs := Values(fs);
    if |fs| == 1 {
      assert fs[0] + "" == fs[0];
      ScanHex(fs[0], "", 0, groups, dc);
      assert groups + vs[..0] == groups;
    } else {
      JoinStart(fs[1..]);
      ScanField(fs[0], Join(fs[1..]), groups, dc);
      if |groups| < 7 {
        ScanFields(fs[1..], groups + [vs[0]], dc);
        assert Values(fs[1..]) == vs[1..];
        assert groups + [vs[0]] + vs[1..][..|vs| - 2] == groups + vs[..|vs| - 1];
      }
    }
  }

  lemma ScanDouble(rest: string, acc: nat, groups: seq<nat>)
    requires (rest == "" || rest[0] != ':') && |groups| <= 7
    ensures Scan6("::" + rest, acc, groups, -1)
         == if |groups| == 7 then Rejected(groups)
            else Scan6(rest, 0, groups + [acc], |groups| + if acc != 0 then 1 else 0)
  {
    var text := "::" + rest;
    assert text[2..] == rest;
  }

  /** A field closed by a double colon: the gap opens after it, or before it if its value is zero. */
  lemma ScanLastField(h: string, rest: string, groups: seq<nat>)
    requires IsField(h) && (rest == "" || rest[0] != ':') && |groups| <= 7
    ensures
      var v := FieldValue(0, h);
      Scan6(h + "::" + rest, 0, groups, -1)
      == if |groups| == 7 then Rejected(groups)
         else Scan6(rest, 0, groups + [v], |groups| + if v != 0 then 1 else 0)
  {
    assert h + "::" + rest == h + ("::" + rest);
    ScanHex(h, "::" + rest, 0, groups, -1);
    ScanDouble(rest, FieldValue(0, h), groups);
  }

  /** Fields separated by single colons, up to the double colon. */
  lemma {:induction false} ScanToDouble(fs: seq<string>, rest: string, groups: seq<nat>)
    requires AreFields(fs) && fs != [] && |groups| <= 7 && (rest == "" || rest[0] != ':')
    ensures
      var vs := Values(fs);
      var last := vs[|vs| - 1];
      var n := |groups| + |fs|;
      if n <= 7
      then Scan6(Join(fs) + "::" + rest, 0, groups, -1)
           == Scan6(rest, 0, groups + vs, if last != 0 then n else n - 1)
      else Scan6(Join(fs) + "::" + rest, 0, groups, -1).Rejected?
    decreases |fs|
  {
    var vs := Values(fs);
    if |fs| == 1 {
      ScanLastField(fs[0], rest, groups);
      assert vs == [vs[0]];
    } else {
      var tail := Join(fs[1..]) + "::" + rest;
      JoinStart(fs[1..]);
      assert Join(fs) + "::" + rest == fs[0] + ":" + tail;
      ScanField(fs[0], tail, groups, -1);
      if |groups| < 7 {
        ScanToDouble(fs[1..], rest, groups + [vs[0]]);
        assert Values(fs[1..]) == vs[1..];
        assert groups + [vs[0]] + vs[1..] == groups + vs;
      }
    }
  }

  lemma FinishPlain(vs: seq<nat>)
    requires 1 <= |vs| <= 8
    ensures Finish6(vs[|vs| - 1], [] + vs[..|vs| - 1], -1) ==
      if |vs| == 8 then Accepted(vs) else Rejected(vs[..|vs| - 1])
  {
    assert [] + vs[..|vs| - 1] == vs[..|vs| - 1];
    assert vs[..|vs| - 1] + [vs[|vs| - 1]] == vs;
  }

  /** Eight fields and no "::": accepted with exactly their values; any other number is not. */
  lemma PlainForm(fs: seq<string>)
    requires AreFields(fs)
    ensures |fs| == 8 ==> Scan6(Join(fs), 0, [], -1) == Accepted(Values(fs))
    ensures |fs| != 8 ==> Scan6(Join(fs), 0, [], -1).Rejected?
  {
    if fs != [] {
      ScanFields(fs, [], -1);
      if |fs| <= 8 {
        FinishPlain(Values(fs));
      }
    }
  }

  /** An empty side of "::" is stored as a field of its own. */
  function Stored(fs: seq<string>): nat {
    if fs == [] then 1 else |fs|
  }

  ghost function StoredValues(fs: seq<string>): (v: seq<nat>)
    requires AreFields(fs)
    ensures |v| == Stored(fs)
  {
    if fs == [] then [0] else Values(fs)
  }

  /** How many of the left side's stored fields stay left of the gap. */
  ghost function GapAt(left: seq<string>): (dc: nat)
    requires AreFields(left)
    ensures dc <= Stored(left)
  {
    var lv := StoredValues(left);
    if lv[|lv| - 1] != 0 then |lv| else |lv| - 1
  }

  /** Fields on both sides of "::". Accepted if and only if at most seven fields get stored, an empty
      side counting as one; then the zeros fill the gap. */
  lemma ElidedForm(left: seq<string>, right: seq<string>)
    requires AreFields(left) && AreFields(right)
    ensures
      var text := Join(left) + "::" + Join(right);
      if Stored(left) + Stored(right) <= 7
      then Scan6(text, 0, [], -1) == Accepted(Values(left) + Zeros(8 - |left| - |right|) + Values(right))
      else Scan6(text, 0, [], -1).Rejected?
  {
    LeftHalf(left, right);
    if |left| <= 7 {
      ScanRight(right, StoredValues(left), GapAt(left));
      if Stored(left) + Stored(right) <= 7 {
        GapFilled(left, right);
      }
    }
  }

  /** The text up to and including "::". */
  lemma LeftHalf(left: seq<string>, right: seq<string>)
    requires AreFields(left) && AreFields(right)
    ensures
      var text := Join(left) + "::" + Join(right);
      if |left| <= 7 then Scan6(text, 0, [], -1) == Scan6(Join(right), 0, StoredValues(left), GapAt(left))
      else Scan6(text, 0, [], -1).Rejected?
  {
    if right != [] {
      JoinStart(right);
    }
    if left == [] {
      OpensWithDouble(Join(right));
    } else {
      LeftFields(left, Join(right), []);
    }
  }

  lemma LeftFields(left: seq<string>, rest: string, none: seq<nat>)
    requires AreFields(left) && left != [] && (rest == "" || rest[0] != ':') && none == []
    ensures
      var text := Join(left) + "::" + rest;
      if |left| <= 7 then Scan6(text, 0, none, -1) == Scan6(rest, 0, StoredValues(left), GapAt(left))
      else Scan6(text, 0, none, -1).Rejected?
  {
    var vs := Values(left);
    assert none + vs == vs && |none| + |left| == |left|;
    assert StoredValues(left) == vs && GapAt(left) == if vs[|vs| - 1] != 0 then |left| else |left| - 1;
    ScanToDouble(left, rest, none);
  }

  lemma OpensWithDouble(rest: string)
    requires rest == "" || rest[0] != ':'
    ensures Scan6("" + "::" + rest, 0, [], -1) == Scan6(rest, 0, [0], 0)
  {
    assert "" + "::" + rest == "::" + rest;
    ScanDouble(rest, 0, []);
    assert [] + [0] == [0];
  }

  lemma ScanRight(right: seq<string>, lv: seq<nat>, dc: nat)
    requires AreFields(right) && 1 <= |lv| <= 7 && 0 <= dc <= |lv|
    ensures
      var g := lv + StoredValues(right);
      if |g| <= 7 then Scan6(Join(right), 0, lv, dc) == Accepted(Opened(g, dc))
      else Scan6(Join(right), 0, lv, dc).Rejected?
  {
    var rv := StoredValues(right);
    if right != [] {
      ScanFields(right, lv, dc);
    }
    assert lv + rv[..|rv| - 1] + [rv[|rv| - 1]] == lv + rv;
  }

  /** Where the gap opens does not matter while the field before it is zero. */
  lemma GapFilled(left: seq<string>, right: seq<string>)
    requires AreFields(left) && AreFields(right) && Stored(left) + Stored(right) <= 7
    ensures
      var dc, g := GapAt(left), StoredValues(left) + StoredValues(right);
      Opened(g, dc) == Values(left) + Zeros(8 - |left| - |right|) + Values(right)
  {
    var lv, rv := StoredValues(left), StoredValues(right);
    if lv[|lv| - 1] != 0 {
      OpenedAtEnd(lv, rv);
    } else {
      OpenedBeforeZero(lv, rv);
    }
    EmptySides(left, right, 8 - |lv| - |rv|);
  }

  lemma OpenedAtEnd(l: seq<nat>, r: seq<nat>)
    requires |l| + |r| <= 8
    ensures Opened(l + r, |l|) == l + Zeros(8 - |l| - |r|) + r
  {
    assert (l + r)[..|l|] == l && (l + r)[|l|..] == r;
  }

  lemma OpenedBeforeZero(l: seq<nat>, r: seq<nat>)
    requires |l| + |r| <= 8 && l != [] && l[|l| - 1] == 0
    ensures Opened(l + r, |l| - 1) == l + Zeros(8 - |l| - |r|) + r
  {
    var init, zeros := l[..|l| - 1], Zeros(8 - |l| - |r|);
    assert l == init + [0] && l + r == init + ([0] + r);
    OpenedAtEnd(init, [0] + r);
    assert init + zeros + ([0] + r) == init + (zeros + [0]) + r;
    assert zeros + [0] == [0] + zeros;
  }

  /** The zero stored for an empty side is one of those of the gap. */
  lemma EmptySides(left: seq<string>, right: seq<string>, n: nat)
    requires AreFields(left) && AreFields(right) && n == 8 - Stored(left) - Stored(right)
    ensures StoredValues(left) + Zeros(n) + StoredValues(right) ==
      Values(left) + Zeros(8 - |left| - |right|) + Values(right)
  {
    assert [0] + Zeros(n) == Zeros(n + 1) == Zeros(n) + [0] && Zeros(n + 1) + [0] == Zeros(n + 2);
  }

  // ---- text that is not dotted decimal ----

  lemma {:induction false} NotDotted(s: string, acc: int, octets: seq<nat>)
    requires ':' in s
    ensures Scan4(s, acc, octets).Rejected?
    ensures '.' !in s ==> Scan4(s, acc, octets) == Rejected(octets)
    decreases |s|
  {
    if IsDigit(s[0] as int) {
      var d := s[0] as int - '0' as int;
      NotDotted(s[1..], if acc < 0 then d else acc * 10 + d, octets);
    } else if s[0] == '.' && acc >= 0 {
      NotDotted(s[1..], -1, octets + [acc]);
    }
  }
}
