/** Reading a number back from a stream (Stream::parseInt), and its agreement with Print. */
module NumberReading {
  import opened CTypes
  import opened CharStream
  import opened Numerals
  import opened Printing

  datatype LookaheadMode = SKIP_ALL | SKIP_NONE | SKIP_WHITESPACE

  const MINUS: uint8 := 45
  const ZERO: uint8 := 48

  predicate IsWhitespace(c: int) {
    c == 32 || c == 9 || c == 13 || c == 10
  }

  /** What is left once the characters in front of a number have been discarded. */
  function Skipped(text: Text, lookahead: LookaheadMode): Text {
    if text == [] || text[0] == MINUS || IsDigit(text[0]) || lookahead.SKIP_NONE? then text
    else if lookahead.SKIP_WHITESPACE? && !IsWhitespace(text[0]) then text
    else Skipped(text[1..], lookahead)
  }

  datatype Reading = Reading(value: int32, negative: bool, rest: Text)

  /** The reading loop: one character always, then on while digits or ignored characters follow. */
  function Scan(text: Text, ignore: uint8, value: int32, negative: bool): Reading
    requires text != []
  {
    var c := text[0];
    var value' := if c != ignore && IsDigit(c) then Wrap32(value * 10 + c - ZERO) else value;
    var negative' := negative || (c != ignore && c == MINUS);
    var rest := text[1..];
    if rest != [] && (IsDigit(rest[0]) || rest[0] == ignore) then Scan(rest, ignore, value', negative')
    else Reading(value', negative', rest)
  }

  /** The result of parseInt and the characters it leaves. */
  function Parsed(text: Text, lookahead: LookaheadMode, ignore: uint8): (int32, Text) {
    var start := Skipped(text, lookahead);
    if start == [] || !(start[0] == MINUS || IsDigit(start[0])) then (0, start)
    else
      var r := Scan(start, ignore, 0, false);
      (if r.negative then Negated32(r.value) else r.value, r.rest)
  }

  method PeekNextDigit(stream: Stream, lookahead: LookaheadMode) returns (c: int)
    modifies stream
    ensures stream.pending == Skipped(old(stream.pending), lookahead)
    ensures
      var rest := stream.pending;
      if rest != [] && (rest[0] == MINUS || IsDigit(rest[0])) then c == rest[0] else c == -1
  {
    while true
      invariant Skipped(stream.pending, lookahead) == Skipped(old(stream.pending), lookahead)
      decreases |stream.pending|
    {
      c := stream.TimedPeek();
      if c < 0 || c == MINUS || IsDigit(c) {
        return;
      }
      match lookahead {
        case SKIP_NONE =>
          return -1;
        case SKIP_WHITESPACE =>
          if !IsWhitespace(c) {
            return -1;
          }
        case SKIP_ALL =>
      }
      var _ := stream.TimedRead();
    }
  }

  /** The ignore character 0xFF is excluded: compared with a timed-out peek it would keep the source's loop going. */
  method ParseInt(stream: Stream, lookahead: LookaheadMode, ignore: uint8) returns (r: int32)
    requires ignore != 255
    modifies stream
    ensures (r, stream.pending) == Parsed(old(stream.pending), lookahead, ignore)
  {
    var isNegative := false;
    var value: int32 := 0;
    var c := PeekNextDigit(stream, lookahead);
    if c < 0 {
      return 0;
    }
    ghost var result := Scan(stream.pending, ignore, 0, false);
    while true
      invariant stream.pending != [] && c == stream.pending[0]
      invariant result == Scan(stream.pending, ignore, value, isNegative)
      decreases |stream.pending|
    {
      if c == ignore {
      } else if c == MINUS {
        isNegative := true;
      } else if IsDigit(c) {
        value := Wrap32(value * 10 + c - ZERO);
      }
      var _ := stream.TimedRead();
      c := stream.TimedPeek();
      if !(IsDigit(c) || c == ignore) {
        break;
      }
    }
    if isNegative {
      value := Negated32(value);
    }
    r := value;
  }

  // ---- what the lookahead modes discard ----

  /** A digit or a minus sign. */
  predicate StartsNumber(c: uint8) {
    c == 45 || 48 <= c <= 57
  }

  lemma {:induction false} FrontSkipped(front: Text, s: Text, lookahead: LookaheadMode)
    requires forall i :: 0 <= i < |front| ==> !StartsNumber(front[i])
    requires lookahead.SKIP_ALL? || (lookahead.SKIP_WHITESPACE? && forall c :: c in front ==> IsWhitespace(c))
    ensures Skipped(front + s, lookahead) == Skipped(s, lookahead)
    decreases |front|
  {
    if front == [] {
      assert front + s == s;
    } else {
      assert (front + s)[1..] == front[1..] + s;
      FrontSkipped(front[1..], s, lookahead);
    }
  }

  /** SKIP_ALL discards everything in front of a number. */
  lemma AllDiscarded(junk: Text, s: Text, ignore: uint8)
    requires forall i :: 0 <= i < |junk| ==> !StartsNumber(junk[i])
    ensures Parsed(junk + s, SKIP_ALL, ignore) == Parsed(s, SKIP_ALL, ignore)
    ensures Parsed(junk, SKIP_ALL, ignore) == (0, [])
  {
    FrontSkipped(junk, s, SKIP_ALL);
    FrontSkipped(junk, [], SKIP_ALL);
    assert junk + [] == junk;
  }

  /** SKIP_NONE leaves anything but a number where it is. */
  lemma NoneDiscarded(junk: Text, s: Text, ignore: uint8)
    requires junk != [] && !StartsNumber(junk[0])
    ensures Parsed(junk + s, SKIP_NONE, ignore) == (0, junk + s)
  {
  }

  /** SKIP_WHITESPACE discards spaces, tabs, carriage returns and line feeds, and stops at anything else. */
  lemma BlanksDiscarded(blanks: Text, s: Text, ignore: uint8)
    requires forall i :: 0 <= i < |blanks| ==> blanks[i] == 32 || blanks[i] == 9 || blanks[i] == 13 || blanks[i] == 10
    ensures Parsed(blanks + s, SKIP_WHITESPACE, ignore) == Parsed(s, SKIP_WHITESPACE, ignore)
    ensures s == [] || (!StartsNumber(s[0]) && s[0] != 32 && s[0] != 9 && s[0] != 13 && s[0] != 10) ==>
      Parsed(blanks + s, SKIP_WHITESPACE, ignore) == (0, s)
  {
    FrontSkipped(blanks, s, SKIP_WHITESPACE);
  }

  // ---- wrapping ----

  /** What is left in 32 bits depends on the number modulo 2^32 only. */
  lemma WrapCongruent(a: int, b: int, k: int)
    requires a == b + k * 0x1_0000_0000
    ensures Wrap32(a) == Wrap32(b)
  {
    assert (a + 0x8000_0000) % 0x1_0000_0000 == (b + 0x8000_0000) % 0x1_0000_0000;
  }

  lemma Wrapped(x: int) returns (k: int)
    ensures x == Wrap32(x) + k * 0x1_0000_0000
  {
    k := (x + 0x8000_0000) / 0x1_0000_0000;
  }

  lemma WrapStep(v: int, d: int)
    ensures Wrap32(Wrap32(v) * 10 + d) == Wrap32(v * 10 + d)
  {
    var k := Wrapped(v);
    WrapCongruent(v * 10 + d, Wrap32(v) * 10 + d, 10 * k);
  }

  lemma WrapNegated(v: int)
    ensures Negated32(Wrap32(v)) == Wrap32(-v)
  {
    var k := Wrapped(v);
    WrapCongruent(-(Wrap32(v) as int), -v, k);
  }

  // ---- reading back what Print wrote ----

  function Bytes(s: string): Text
    requires forall i :: 0 <= i < |s| ==> s[i] as int < 256
  {
    seq(|s|, i requires 0 <= i < |s| => s[i] as int)
  }

  /** Decimal digits taken from the left, leaving out the digit g. */
  function Accumulate(v: nat, ds: seq<nat>, g: int): nat
    decreases ds
  {
    if ds == [] then v else Accumulate(if ds[0] == g then v else v * 10 + ds[0], ds[1..], g)
  }

  lemma {:induction false} AccumulateSnoc(v: nat, ds: seq<nat>, d: nat)
    ensures Accumulate(v, ds + [d], -1) == Accumulate(v, ds, -1) * 10 + d
    decreases ds
  {
    if ds != [] {
      assert (ds + [d])[1..] == ds[1..] + [d];
      AccumulateSnoc(v * 10 + ds[0], ds[1..], d);
    }
  }

  lemma {:induction false} AccumulateIsValue(ds: seq<nat>)
    ensures Accumulate(0, ds, -1) == Value(ds, 10)
  {
    if ds != [] {
      var init := ds[..|ds| - 1];
      AccumulateIsValue(init);
      AccumulateSnoc(0, init, ds[|ds| - 1]);
      assert ds == init + [ds[|ds| - 1]];
    }
  }

  lemma {:induction false} AccumulateMono(v: nat, w: nat, ds: seq<nat>, g: int)
    requires v <= w
    ensures v <= Accumulate(v, ds, g) <= Accumulate(w, ds, g)
    ensures v < w ==> Accumulate(v, ds, g) < Accumulate(w, ds, g)
    decreases ds
  {
    if ds != [] {
      if ds[0] == g {
        AccumulateMono(v, w, ds[1..], g);
      } else {
        AccumulateMono(v * 10 + ds[0], w * 10 + ds[0], ds[1..], g);
      }
    }
  }

  /** Leaving a digit out of a number makes it smaller. */
  lemma {:induction false} LeavingOut(v: nat, ds: seq<nat>, g: int)
    ensures Accumulate(v, ds, g) <= Accumulate(v, ds, -1)
    ensures g in ds && (v > 0 || ds[0] > 0) ==> Accumulate(v, ds, g) < Accumulate(v, ds, -1)
    ensures g !in ds ==> Accumulate(v, ds, g) == Accumulate(v, ds, -1)
    decreases ds
  {
    if ds != [] {
      var w := v * 10 + ds[0];
      if ds[0] == g {
        LeavingOut(v, ds[1..], g);
        AccumulateMono(v, w, ds[1..], -1);
      } else {
        LeavingOut(w, ds[1..], g);
      }
    }
  }

  /** The characters of a digit string. */
  function DigitBytes(ds: seq<nat>): Text
    requires forall i :: 0 <= i < |ds| ==> ds[i] < 10
  {
    seq(|ds|, i requires 0 <= i < |ds| => ZERO + ds[i])
  }

  /** The text after a number: nothing, or a character that cannot belong to it. */
  ghost predicate Stops(rest: Text, ignore: uint8) {
    rest == [] || (!IsDigit(rest[0]) && rest[0] != ignore)
  }

  lemma ScanOne(d: nat, tail: Text, ignore: uint8, v: int32, w: int32, negative: bool)
    requires d < 10 && w == if d == ignore - ZERO then v else Wrap32(v * 10 + d)
    ensures Scan([ZERO + d] + tail, ignore, v, negative)
         == if tail != [] && (IsDigit(tail[0]) || tail[0] == ignore) then Scan(tail, ignore, w, negative)
            else Reading(w, negative, tail)
  {
    var text := [ZERO + d] + tail;
    assert text[1..] == tail;
  }

  /** The same accumulation in a signed 32-bit variable. */
  function Accumulate32(v: int32, ds: seq<nat>, g: int): int32
    decreases ds
  {
    if ds == [] then v else Accumulate32(if ds[0] == g then v else Wrap32(v * 10 + ds[0]), ds[1..], g)
  }

  lemma {:induction false} AccumulateWraps(v: nat, w: int32, ds: seq<nat>, g: int)
    requires w == Wrap32(v)
    ensures Accumulate32(w, ds, g) == Wrap32(Accumulate(v, ds, g))
    decreases ds
  {
    if ds != [] {
      WrapStep(v, ds[0]);
      if ds[0] == g {
        AccumulateWraps(v, w, ds[1..], g);
      } else {
        AccumulateWraps(v * 10 + ds[0], Wrap32(w * 10 + ds[0]), ds[1..], g);
      }
    }
  }

  lemma {:induction false} ScanDigits(ds: seq<nat>, rest: Text, ignore: uint8, v: int32, negative: bool)
    requires ds != [] && forall i :: 0 <= i < |ds| ==> ds[i] < 10
    requires Stops(rest, ignore)
    ensures Scan(DigitBytes(ds) + rest, ignore, v, negative)
         == Reading(Accumulate32(v, ds, ignore - ZERO), negative, rest)
    decreases ds
  {
    var tail := DigitBytes(ds[1..]) + rest;
    DigitInFront(ds, rest, tail);
    var w: int32 := if ds[0] == ignore - ZERO then v else Wrap32(v * 10 + ds[0]);
    ScanOne(ds[0], tail, ignore, v, w, negative);
    if ds[1..] != [] {
      ScanDigits(ds[1..], rest, ignore, w, negative);
    }
  }

  lemma DigitInFront(ds: seq<nat>, rest: Text, tail: Text)
    requires ds != [] && (forall i :: 0 <= i < |ds| ==> ds[i] < 10) && tail == DigitBytes(ds[1..]) + rest
    ensures DigitBytes(ds) + rest == [ZERO + ds[0]] + tail
    ensures if ds[1..] == [] then tail == rest else tail != [] && IsDigit(tail[0])
  {
  }

  lemma ParsedUnsigned(ds: seq<nat>, rest: Text, lookahead: LookaheadMode, ignore: uint8, v: int)
    requires ds != [] && forall i :: 0 <= i < |ds| ==> ds[i] < 10
    requires Stops(rest, ignore) && v == Accumulate(0, ds, ignore - ZERO)
    ensures Parsed(DigitBytes(ds) + rest, lookahead, ignore) == (Wrap32(v), rest)
  {
    ScanDigits(ds, rest, ignore, 0, false);
    AccumulateWraps(0, 0, ds, ignore - ZERO);
    ParsedAsScanned(DigitBytes(ds) + rest, lookahead, ignore, Reading(Wrap32(v), false, rest));
  }

  lemma ScanMinus(text: Text, ignore: uint8)
    requires text != [] && IsDigit(text[0])
    ensures Scan([MINUS] + text, ignore, 0, false) == Scan(text, ignore, 0, ignore != MINUS)
  {
    assert ([MINUS] + text)[1..] == text;
  }

  lemma ParsedSigned(ds: seq<nat>, rest: Text, lookahead: LookaheadMode, ignore: uint8, signed: int)
    requires ds != [] && forall i :: 0 <= i < |ds| ==> ds[i] < 10
    requires Stops(rest, ignore)
    requires
      var v: int := Accumulate(0, ds, ignore - ZERO);
      signed == if ignore == MINUS then v else -v
    ensures Parsed([MINUS] + (DigitBytes(ds) + rest), lookahead, ignore) == (Wrap32(signed), rest)
  {
    var v := Accumulate(0, ds, ignore - ZERO);
    ScanSigned(ds, rest, ignore, v);
    WrapNegated(v);
    ParsedAsScanned([MINUS] + (DigitBytes(ds) + rest), lookahead, ignore, Reading(Wrap32(v), ignore != MINUS, rest));
  }

  lemma ScanSigned(ds: seq<nat>, rest: Text, ignore: uint8, v: int)
    requires ds != [] && forall i :: 0 <= i < |ds| ==> ds[i] < 10
    requires Stops(rest, ignore) && v == Accumulate(0, ds, ignore - ZERO)
    ensures Scan([MINUS] + (DigitBytes(ds) + rest), ignore, 0, false) == Reading(Wrap32(v), ignore != MINUS, rest)
  {
    DigitInFront(ds, rest, DigitBytes(ds[1..]) + rest);
    ScanMinus(DigitBytes(ds) + rest, ignore);
    ScanDigits(ds, rest, ignore, 0, ignore != MINUS);
    AccumulateWraps(0, 0, ds, ignore - ZERO);
  }

  lemma ParsedAsScanned(text: Text, lookahead: LookaheadMode, ignore: uint8, r: Reading)
    requires text != [] && (text[0] == MINUS || IsDigit(text[0])) && Scan(text, ignore, 0, false) == r
    ensures Parsed(text, lookahead, ignore) == (if r.negative then Negated32(r.value) else r.value, r.rest)
  {
  }

  /** Any digits, behind a minus sign or not, are read as the number they spell, modulo 2^32. */
  lemma AnyDigitsRead(ds: seq<nat>, minus: bool, spelled: int, rest: Text, lookahead: LookaheadMode, ignore: uint8)
    requires ds != [] && forall i :: 0 <= i < |ds| ==> ds[i] < 10
    requires Stops(rest, ignore) && !StartsNumber(ignore)
    requires spelled == if minus then -(Value(ds, 10) as int) else Value(ds, 10)
    ensures ReadAs(Parsed(if minus then [45] + (DigitBytes(ds) + rest) else DigitBytes(ds) + rest, lookahead, ignore),
                   spelled, rest)
  {
    AllKept(ds, ignore - ZERO);
    WrapModulo(spelled, rest);
    if minus {
      ParsedSigned(ds, rest, lookahead, ignore, spelled);
    } else {
      ParsedUnsigned(ds, rest, lookahead, ignore, spelled);
    }
  }

  /** The number up to a multiple of 2^32, and what follows it. */
  predicate ReadAs(parsed: (int32, Text), spelled: int, rest: Text) {
    (parsed.0 - spelled) % 0x1_0000_0000 == 0 && parsed.1 == rest
  }

  /** The text without the ignored character. */
  function Without(text: Text, ignore: uint8): Text {
    if text == [] then [] else (if text[0] == ignore then [] else [text[0]]) + Without(text[1..], ignore)
  }

  ghost predicate DigitsOrIgnored(text: Text, ignore: uint8) {
    forall i :: 0 <= i < |text| ==> IsDigit(text[i]) || text[i] == ignore
  }

  lemma ScanFront(c: uint8, tail: Text, ignore: uint8, v: int32, negative: bool)
    requires IsDigit(c) || c == ignore
    requires !StartsNumber(ignore)
    ensures
      var w := if c == ignore then v else Wrap32(v * 10 + c - ZERO);
      Scan([c] + tail, ignore, v, negative) ==
        if Stops(tail, ignore) then Reading(w, negative, tail) else Scan(tail, ignore, w, negative)
  {
    assert ([c] + tail)[1..] == tail;
  }

  lemma {:induction false} ScanIgnored(text: Text, rest: Text, ignore: uint8, v: int32, negative: bool)
    requires text != [] && DigitsOrIgnored(text, ignore) && !StartsNumber(ignore) && Stops(rest, ignore)
    ensures
      var digits := Without(text, ignore);
      Scan(text + rest, ignore, v, negative) ==
        if digits == [] then Reading(v, negative, rest) else Scan(digits + rest, ignore, v, negative)
    decreases |text|
  {
    var c, tail := text[0], text[1..];
    var w: int32 := if c == ignore then v else Wrap32(v * 10 + c - ZERO);
    FrontApart(text, rest);
    ScanFront(c, tail + rest, ignore, v, negative);
    if tail == [] {
      assert tail + rest == rest && Without(tail, ignore) == [];
    } else {
      assert (tail + rest)[0] == tail[0];
      ScanIgnored(tail, rest, ignore, w, negative);
    }
    var digits := Without(tail, ignore);
    if c == ignore {
      assert Without(text, ignore) == digits;
    } else {
      OnlyDigits(tail, ignore);
      FrontApart([c] + digits, rest);
      ScanFront(c, digits + rest, ignore, v, negative);
      if digits == [] {
        assert digits + rest == rest;
      } else {
        assert (digits + rest)[0] == digits[0];
      }
    }
  }

  lemma FrontApart(text: Text, rest: Text)
    requires text != []
    ensures text + rest == [text[0]] + (text[1..] + rest)
  {
  }

  lemma {:induction false} OnlyDigits(text: Text, ignore: uint8)
    requires DigitsOrIgnored(text, ignore)
    ensures var digits := Without(text, ignore);
      (forall i :: 0 <= i < |digits| ==> IsDigit(digits[i])) && (digits != [] ==> digits[0] != ignore)
    decreases |text|
  {
    if text != [] {
      OnlyDigits(text[1..], ignore);
    }
  }

  /** Ignored characters between or behind the digits are as if they were not there. */
  lemma IgnoredSkipped(text: Text, rest: Text, lookahead: LookaheadMode, ignore: uint8)
    requires text != [] && IsDigit(text[0]) && DigitsOrIgnored(text, ignore)
    requires !StartsNumber(ignore) && Stops(rest, ignore)
    ensures Parsed(text + rest, lookahead, ignore) == Parsed(Without(text, ignore) + rest, lookahead, ignore)
    ensures Parsed([45] + (text + rest), lookahead, ignore)
         == Parsed([45] + (Without(text, ignore) + rest), lookahead, ignore)
  {
    var digits := Without(text, ignore);
    OnlyDigits(text, ignore);
    assert digits != [];
    ScanIgnored(text, rest, ignore, 0, false);
    ParsedAsScanned(text + rest, lookahead, ignore, Scan(text + rest, ignore, 0, false));
    ParsedAsScanned(digits + rest, lookahead, ignore, Scan(digits + rest, ignore, 0, false));
    ScanIgnored(text, rest, ignore, 0, true);
    ScanMinus(text + rest, ignore);
    ScanMinus(digits + rest, ignore);
    ParsedAsScanned([MINUS] + (text + rest), lookahead, ignore, Scan(text + rest, ignore, 0, true));
    ParsedAsScanned([MINUS] + (digits + rest), lookahead, ignore, Scan(digits + rest, ignore, 0, true));
  }

  lemma AllKept(ds: seq<nat>, g: int)
    requires (forall i :: 0 <= i < |ds| ==> ds[i] < 10) && !(0 <= g < 10)
    ensures Accumulate(0, ds, g) == Value(ds, 10)
  {
    NotAmongDigits(ds, g);
    LeavingOut(0, ds, g);
    AccumulateIsValue(ds);
  }

  lemma NotAmongDigits(ds: seq<nat>, g: int)
    requires (forall i :: 0 <= i < |ds| ==> ds[i] < 10) && !(0 <= g < 10)
    ensures g !in ds
  {
  }

  lemma WrapModulo(x: int, rest: Text)
    ensures ReadAs((Wrap32(x), rest), x, rest)
  {
    var k := Wrapped(x);
    assert Wrap32(x) - x == -k * 0x1_0000_0000;
  }
  /** What is read from the digits of m when the digit g is left out. */
  lemma ReadValue(m: nat, g: int)
    ensures
      var v := Accumulate(0, Digits(m, 10), g);
      v <= m && (v == m <==> m == 0 || g !in Digits(m, 10))
  {
    var ds := Digits(m, 10);
    DigitsAreNumeral(m, 10);
    AccumulateIsValue(ds);
    LeavingOut(0, ds, g);
  }

  lemma SpelledBytes(ds: seq<nat>)
    requires forall i :: 0 <= i < |ds| ==> ds[i] < 10
    ensures forall i :: 0 <= i < |ds| ==> Spell(ds, 'A')[i] as int < 256
    ensures Bytes(Spell(ds, 'A')) == DigitBytes(ds)
  {
  }

  lemma MinusBytes(s: string)
    requires forall i :: 0 <= i < |s| ==> s[i] as int < 256
    ensures forall i :: 0 <= i < |"-" + s| ==> ("-" + s)[i] as int < 256
    ensures Bytes("-" + s) == [MINUS] + Bytes(s)
  {
  }

  lemma DecimalBytes(n: int32)
    ensures forall i :: 0 <= i < |Decimal(n)| ==> Decimal(n)[i] as int < 256
    ensures forall i :: 0 <= i < |Digits(Magnitude(n), 10)| ==> Digits(Magnitude(n), 10)[i] < 10
    ensures Bytes(Decimal(n)) == (if n < 0 then [MINUS] else []) + DigitBytes(Digits(Magnitude(n), 10))
  {
    var ds := Digits(Magnitude(n), 10);
    DigitsAreNumeral(Magnitude(n), 10);
    SpelledBytes(ds);
    if n < 0 {
      MinusBytes(Spell(ds, 'A'));
    }
  }

  lemma IgnoredAmong(n: int32, ignore: uint8)
    requires forall i :: 0 <= i < |Decimal(n)| ==> Decimal(n)[i] as int < 256
    ensures ignore in Bytes(Decimal(n)) <==> (n < 0 && ignore == MINUS) || ignore - ZERO in Digits(Magnitude(n), 10)
  {
    DecimalBytes(n);
    var ds := Digits(Magnitude(n), 10);
    var digits := DigitBytes(ds);
    assert forall i :: 0 <= i < |ds| ==> digits[i] - ZERO == ds[i];
    if ignore - ZERO in ds {
      var i :| 0 <= i < |ds| && ds[i] == ignore - ZERO;
      assert digits[i] == ignore;
      assert ignore in digits;
    }
  }

  lemma SignInFront(text: Text, digits: Text, rest: Text)
    requires text == [MINUS] + digits
    ensures text + rest == [MINUS] + (digits + rest)
  {
  }

  lemma NothingInFront(text: Text, digits: Text, rest: Text)
    requires text == [] + digits
    ensures text + rest == digits + rest
  {
  }

  /** The outcome of reading print(n) back, in terms of the digits left after ignoring. */
  lemma ReadBackOutcome(n: int32, rest: Text, lookahead: LookaheadMode, ignore: uint8, v: int, signed: int)
    requires Stops(rest, ignore) && v == Accumulate(0, Digits(Magnitude(n), 10), ignore - ZERO)
    requires signed == if n < 0 && ignore != MINUS then -v else v
    ensures forall i :: 0 <= i < |Decimal(n)| ==> Decimal(n)[i] as int < 256
    ensures Parsed(Bytes(Decimal(n)) + rest, lookahead, ignore) == (Wrap32(signed), rest)
  {
    var ds := Digits(Magnitude(n), 10);
    DecimalBytes(n);
    if n < 0 {
      SignInFront(Bytes(Decimal(n)), DigitBytes(ds), rest);
      ParsedSigned(ds, rest, lookahead, ignore, signed);
    } else {
      NothingInFront(Bytes(Decimal(n)), DigitBytes(ds), rest);
      ParsedUnsigned(ds, rest, lookahead, ignore, signed);
    }
  }

  /** print(n) read back: parseInt returns n and stops right after it, unless the ignore character is one of
      those n is written with. LONG_MIN survives the loss of its sign, being its own negative. */
  lemma PrintedNumberReadsBack(n: int32, rest: Text, lookahead: LookaheadMode, ignore: uint8)
    requires Stops(rest, ignore)
    ensures forall i :: 0 <= i < |Decimal(n)| ==> Decimal(n)[i] as int < 256
    ensures
      var (value, left) := Parsed(Bytes(Decimal(n)) + rest, lookahead, ignore);
      && left == rest
      && (value == n <==> n == 0 || ignore !in Bytes(Decimal(n)) || (n == -0x8000_0000 && ignore == MINUS))
  {
    var g := ignore - ZERO;
    var ds := Digits(Magnitude(n), 10);
    var v: int := Accumulate(0, ds, g);
    var signed := if n < 0 && ignore != MINUS then -v else v;
    ReadBackOutcome(n, rest, lookahead, ignore, v, signed);
    IgnoredAmong(n, ignore);
    ReadValue(Magnitude(n), g);
    DecimalBytes(n);
    if ignore == MINUS {
      NotAmongDigits(ds, g);
    }
    SameAfterWrap(n, v, signed, ignore == MINUS, g in ds);
  }

  /** When the digits left over give n again. */
  lemma SameAfterWrap(n: int32, v: int, signed: int, signLost: bool, digitLost: bool)
    requires 0 <= v <= Magnitude(n) && (v == Magnitude(n) <==> n == 0 || !digitLost)
    requires signed == if n < 0 && !signLost then -v else v
    requires signLost ==> !digitLost
    ensures Wrap32(signed) == n <==>
            n == 0 || !((n < 0 && signLost) || digitLost) || (n == -0x8000_0000 && signLost)
  {
  }
}
