/** Which texts the dotted-decimal parser accepts, and what it stores: all of them, characterised. */
module IpDotted {
  import opened CTypes
  import opened Numerals
  import opened IpText
  import opened IpAddress
  import Reading = NumberReading

  /** Decimal digits, leading zeros included, of a number up to 255. */
  ghost predicate IsOctet(ds: seq<nat>) {
    ds != [] && (forall i :: 0 <= i < |ds| ==> ds[i] < 10) && Value(ds, 10) <= 255
  }

  ghost predicate AreOctets(ps: seq<seq<nat>>) {
    forall i :: 0 <= i < |ps| ==> IsOctet(ps[i])
  }

  function DigitText(ds: seq<nat>): (s: string)
    requires forall i :: 0 <= i < |ds| ==> ds[i] < 10
    ensures |s| == |ds|
  {
    seq(|ds|, i requires 0 <= i < |ds| => ('0' as int + ds[i]) as char)
  }

  /** The octets, with dots between them. */
  ghost function Dotted(ps: seq<seq<nat>>): string
    requires AreOctets(ps)
  {
    if ps == [] then "" else if |ps| == 1 then DigitText(ps[0]) else DigitText(ps[0]) + "." + Dotted(ps[1..])
  }

  ghost function Octets(ps: seq<seq<nat>>): (v: seq<nat>)
    requires AreOctets(ps)
    ensures |v| == |ps| && Fits8(v)
  {
    seq(|ps|, i requires 0 <= i < |ps| => Value(ps[i], 10))
  }

  // ---- reading what has the form ----

  lemma {:induction false} ReadDigits(ds: seq<nat>, rest: string, acc: nat, octets: seq<nat>)
    requires (forall i :: 0 <= i < |ds| ==> ds[i] < 10) && Reading.Accumulate(acc, ds, -1) <= 255
    ensures Scan4(DigitText(ds) + rest, acc, octets) == Scan4(rest, Reading.Accumulate(acc, ds, -1), octets)
    decreases ds
  {
    if ds == [] {
      assert DigitText(ds) + rest == rest;
    } else {
      var next := acc * 10 + ds[0];
      Reading.AccumulateMono(next, next, ds[1..], -1);
      FirstDigit(ds, rest);
      ReadDigits(ds[1..], rest, next, octets);
    }
  }

  lemma FirstDigit(ds: seq<nat>, rest: string)
    requires ds != [] && forall i :: 0 <= i < |ds| ==> ds[i] < 10
    ensures
      var text := DigitText(ds) + rest;
      IsDigit(text[0] as int) && text[0] as int - '0' as int == ds[0] && text[1..] == DigitText(ds[1..]) + rest
  {
  }

  lemma ReadOctet(ds: seq<nat>, rest: string, octets: seq<nat>, value: nat)
    requires IsOctet(ds) && value == Value(ds, 10)
    ensures Scan4(DigitText(ds) + rest, -1, octets) == Scan4(rest, value, octets)
  {
    Reading.AccumulateIsValue(ds);
    Reading.AccumulateMono(ds[0], ds[0], ds[1..], -1);
    FirstDigit(ds, rest);
    ReadDigits(ds[1..], rest, ds[0], octets);
  }

  lemma AtDot(rest: string, value: nat, octets: seq<nat>)
    ensures Scan4("." + rest, value, octets)
         == if |octets| == 3 then Rejected(octets) else Scan4(rest, -1, octets + [value])
  {
    assert ("." + rest)[1..] == rest;
  }

  /** Exactly four octets are accepted, with their values. Otherwise those closed by a dot stay stored, three
      at most. */
  lemma {:induction false} ReadDotted(ps: seq<seq<nat>>, octets: seq<nat>)
    requires AreOctets(ps) && ps != [] && |octets| <= 3
    ensures Scan4(Dotted(ps), -1, octets) ==
      if |octets| + |ps| == 4 then Accepted(octets + Octets(ps))
      else Rejected(octets + Octets(ps)[..Min(|ps| - 1, 3 - |octets|)])
    decreases |ps|
  {
    var value := Value(ps[0], 10);
    assert Octets(ps)[0] == value;
    if |ps| == 1 {
      ReadOctet(ps[0], "", octets, value);
      assert DigitText(ps[0]) + "" == DigitText(ps[0]);
      assert Octets(ps) == [value] && octets + Octets(ps)[..0] == octets;
    } else {
      var tail := Dotted(ps[1..]);
      assert Dotted(ps) == DigitText(ps[0]) + ("." + tail);
      ReadOctet(ps[0], "." + tail, octets, value);
      AtDot(tail, value, octets);
      if |octets| < 3 {
        ReadDotted(ps[1..], octets + [value]);
        OctetsApart(ps, octets, Min(|ps| - 2, 2 - |octets|));
      } else {
        assert octets + Octets(ps)[..0] == octets;
      }
    }
  }

  lemma OctetsApart(ps: seq<seq<nat>>, octets: seq<nat>, k: nat)
    requires AreOctets(ps) && k < |ps|
    ensures octets + [Value(ps[0], 10)] + Octets(ps[1..]) == octets + Octets(ps)
    ensures octets + [Value(ps[0], 10)] + Octets(ps[1..])[..k] == octets + Octets(ps)[..k + 1]
  {
    assert [Value(ps[0], 10)] + Octets(ps[1..]) == Octets(ps);
  }

  // ---- only what has the form is accepted ----

  /** Cuts an accepted text into its octets: ds has been read of the current one, s is still to come. */
  lemma {:induction false} CutDotted(ds: seq<nat>, s: string, octets: seq<nat>, acc: int) returns (ps: seq<seq<nat>>)
    requires forall i :: 0 <= i < |ds| ==> ds[i] < 10
    requires if ds == [] then acc == -1 else acc == Value(ds, 10) <= 255
    requires |octets| <= 3 && Scan4(s, acc, octets).Accepted?
    ensures AreOctets(ps) && |ps| == 4 - |octets| && DigitText(ds) + s == Dotted(ps)
    decreases |s|
  {
    if s == "" {
      ps := [ds];
      assert DigitText(ds) + "" == DigitText(ds);
    } else if IsDigit(s[0] as int) {
      var d := s[0] as int - '0' as int;
      ValueSnoc(ds, d, 10);
      assert Value([], 10) == 0;
      ps := CutDotted(ds + [d], s[1..], octets, if acc < 0 then d else acc * 10 + d);
      DigitMoves(ds, d, s);
    } else {
      var rest := CutDotted([], s[1..], octets + [acc], -1);
      ps := [ds] + rest;
      DotBetween(ds, s, rest);
    }
  }

  lemma DigitMoves(ds: seq<nat>, d: nat, s: string)
    requires (forall i :: 0 <= i < |ds| ==> ds[i] < 10) && d < 10 && s != "" && s[0] as int == '0' as int + d
    ensures DigitText(ds + [d]) + s[1..] == DigitText(ds) + s
  {
  }

  lemma DotBetween(ds: seq<nat>, s: string, rest: seq<seq<nat>>)
    requires IsOctet(ds) && AreOctets(rest) && rest != []
    requires s != "" && s[0] == '.' && DigitText([]) + s[1..] == Dotted(rest)
    ensures AreOctets([ds] + rest) && DigitText(ds) + s == Dotted([ds] + rest)
  {
    var ps := [ds] + rest;
    assert ps[1..] == rest;
    assert s == "." + Dotted(rest);
  }

  /** A text is accepted as dotted decimal if and only if it is four octets with dots between them. */
  lemma DottedTexts(text: string)
    ensures Scan4(text, -1, []).Accepted? <==> exists ps :: AreOctets(ps) && |ps| == 4 && text == Dotted(ps)
  {
    if Scan4(text, -1, []).Accepted? {
      var ps := CutDotted([], text, [], -1);
      assert DigitText([]) + text == text;
    } else if ps :| AreOctets(ps) && |ps| == 4 && text == Dotted(ps) {
      ReadDotted(ps, []);
    }
  }

  /** The address such a text gives, whatever the object held, and what any other number of octets leaves: the
      first ones, in an object that keeps its type. */
  lemma DottedAddress(ps: seq<seq<nat>>, prior: Address)
    requires AreOctets(ps) && ps != [] && |prior.bytes| == 16
    ensures |ps| == 4 ==> AfterString(Dotted(ps), prior) == (Address(IPv4, Zeros(12) + Octets(ps)), true)
    ensures |ps| != 4 ==>
      var kept := Octets(ps)[..Min(|ps| - 1, 3)];
      AfterString(Dotted(ps), prior)
      == (Address(prior.ipType, Zeros(12) + kept + Zeros(4 - |kept|)), false)
  {
    ReadDotted(ps, []);
    assert [] + Octets(ps) == Octets(ps);
    if |ps| == 4 {
      assert Bytes4(Octets(ps)) == Zeros(12) + Octets(ps);
    } else {
      var kept := Octets(ps)[..Min(|ps| - 1, 3)];
      assert [] + kept == kept;
      NoColons(ps);
      NothingStored(Dotted(ps), 0);
      var bytes := Bytes4(kept);
      assert Bytes6([]) + bytes[2 * 0..] == bytes;
    }
  }

  lemma {:induction false} NoColons(ps: seq<seq<nat>>)
    requires AreOctets(ps)
    ensures ':' !in Dotted(ps)
    decreases |ps|
  {
    if ps != [] {
      NoColons(ps[1..]);
    }
  }

  /** Without a colon the colon parser stores nothing. */
  lemma {:induction false} NothingStored(s: string, acc: nat)
    requires ':' !in s
    ensures Scan6(s, acc, [], -1) == Rejected([])
    decreases |s|
  {
    if s != "" && IsHex(s[0]) {
      NothingStored(s[1..], acc * 16 + HexValue(s[0]));
    }
  }
}
