/** Escaped framing of commands to the ESP32 boot loader (ESP32BootROM.cpp), after RFC 1055. */
module Slip {
  import opened CTypes
  import Gf2

  const END: uint8 := 0xC0
  const ESC: uint8 := 0xDB
  const ESC_END: uint8 := 0xDC
  const ESC_ESC: uint8 := 0xDD

  function EscapeByte(b: uint8): seq<uint8> {
    if b == ESC then [ESC, ESC_ESC] else if b == END then [ESC, ESC_END] else [b]
  }

  function Escape(data: seq<uint8>): seq<uint8> {
    if data == [] then [] else EscapeByte(data[0]) + Escape(data[1..])
  }

  /** The receiver of RFC 1055 on the bytes between two END characters; an escaped byte it does not
      know is left alone. */
  function Decode(s: seq<uint8>): seq<uint8> {
    if s == [] then []
    else if s[0] != ESC then [s[0]] + Decode(s[1..])
    else if |s| == 1 then []
    else [if s[1] == ESC_END then END else if s[1] == ESC_ESC then ESC else s[1]] + Decode(s[2..])
  }

  /** The receiver itself: the packet up to the next END, unpacked, and what follows that. */
  function Receive(s: seq<uint8>): (seq<uint8>, seq<uint8>) {
    if s == [] then ([], [])
    else if s[0] == END then ([], s[1..])
    else if s[0] != ESC then
      var (packet, rest) := Receive(s[1..]);
      ([s[0]] + packet, rest)
    else if |s| == 1 then ([], [])
    else
      var (packet, rest) := Receive(s[2..]);
      ([if s[1] == ESC_END then END else if s[1] == ESC_ESC then ESC else s[1]] + packet, rest)
  }

  /** Receiving stops at the first END, which is never one of an escaped byte. */
  lemma {:induction false} ReceiveUpToEnd(s: seq<uint8>, rest: seq<uint8>)
    requires END !in s && (s != [] ==> s[|s| - 1] != ESC)
    ensures Receive(s + ([END] + rest)) == (Decode(s), rest)
    decreases |s|
  {
    var all := s + ([END] + rest);
    if s == [] {
      assert all[1..] == rest;
    } else if s[0] != ESC {
      assert all[1..] == s[1..] + ([END] + rest);
      ReceiveUpToEnd(s[1..], rest);
    } else {
      assert all[1] == s[1] && all[2..] == s[2..] + ([END] + rest);
      ReceiveUpToEnd(s[2..], rest);
    }
  }

  /** The two special characters and their escaped forms, as RFC 1055 fixes them. */
  lemma SpecialCharacters(b: uint8)
    requires b != 0xC0 && b != 0xDB
    ensures Escape([0xC0]) == [0xDB, 0xDC] && Escape([0xDB]) == [0xDB, 0xDD] && Escape([b]) == [b]
  {
    assert Escape([0xC0]) == EscapeByte(0xC0) + Escape([]);
    assert Escape([0xDB]) == EscapeByte(0xDB) + Escape([]);
    assert Escape([b]) == EscapeByte(b) + Escape([]);
  }

  lemma {:induction false} EscapeConcat(a: seq<uint8>, b: seq<uint8>)
    ensures Escape(a + b) == Escape(a) + Escape(b)
  {
    if a == [] {
      assert a + b == b;
    } else {
      assert (a + b)[1..] == a[1..] + b;
      EscapeConcat(a[1..], b);
    }
  }

  /** Whatever the bytes, the frame delimiter does not occur in their escaped form. */
  lemma {:induction false} NoEndInside(data: seq<uint8>)
    ensures END !in Escape(data)
  {
    if data != [] {
      NoEndInside(data[1..]);
    }
  }

  lemma DecodeByte(b: uint8, tail: seq<uint8>)
    ensures Decode(EscapeByte(b) + tail) == [b] + Decode(tail)
  {
    var s := EscapeByte(b) + tail;
    if b == ESC || b == END {
      assert s[2..] == tail;
    } else {
      assert s[1..] == tail;
    }
  }

  lemma {:induction false} DecodeEscape(data: seq<uint8>, rest: seq<uint8>)
    ensures Decode(Escape(data) + rest) == data + Decode(rest)
  {
    if data == [] {
      assert Escape(data) + rest == rest;
    } else {
      var tail := Escape(data[1..]) + rest;
      DecodeEscape(data[1..], rest);
      Rejoined(EscapeByte(data[0]), Escape(data[1..]), rest);
      DecodeByte(data[0], tail);
      FirstApart(data, Decode(rest));
    }
  }

  lemma Rejoined(a: seq<uint8>, b: seq<uint8>, c: seq<uint8>)
    ensures (a + b) + c == a + (b + c)
  {
  }

  lemma FirstApart(data: seq<uint8>, rest: seq<uint8>)
    requires data != []
    ensures [data[0]] + (data[1..] + rest) == data + rest
  {
  }

  lemma {:induction false} NoLooseEscape(data: seq<uint8>)
    ensures Escape(data) != [] ==> Escape(data)[|Escape(data)| - 1] != ESC
  {
    if data != [] {
      NoLooseEscape(data[1..]);
    }
  }

  /** What RFC 1055 promises: escaped and closed by END, any bytes arrive as they are, whatever follows. */
  lemma Received(data: seq<uint8>, rest: seq<uint8>)
    ensures Receive(Escape(data) + ([END] + rest)) == (data, rest)
  {
    NoEndInside(data);
    NoLooseEscape(data);
    ReceiveUpToEnd(Escape(data), rest);
    DecodeEscape(data, []);
    assert Escape(data) + [] == Escape(data) && data + Decode([]) == data;
  }

  // ---- commands ----

  /** Exclusive or of two bytes. */
  function Xor8(a: uint8, b: uint8): uint8 {
    assert Gf2.Pow2(8) == 256;
    Gf2.AddBound(a, b, 8);
    Gf2.Add(a, b)
  }

  /** Data commands carry the exclusive or of the bytes after their 16-byte header, seeded with 0xEF. */
  function Checksum(opcode: uint8, data: seq<uint8>): uint8 {
    if opcode == 0x03 then Folded(0xEF, if |data| < 16 then [] else data[16..]) else 0
  }

  function Folded(seed: uint8, data: seq<uint8>): uint8 {
    if data == [] then seed else Xor8(Folded(seed, data[..|data| - 1]), data[|data| - 1])
  }

  lemma {:induction false} FoldedFrom(seed: uint8, data: seq<uint8>)
    ensures Folded(seed, data) == Gf2.Add(seed, Folded(0, data))
    decreases |data|
  {
    if data != [] {
      var init, b := data[..|data| - 1], data[|data| - 1];
      FoldedFrom(seed, init);
      Gf2.AddAssoc(seed, Folded(0, init), b);
    }
  }

  /** The receiver's test: a data command's checksum and its payload from the 16th byte on xor to 0xEF. Other
      commands carry the checksum 0. */
  lemma ChecksumVerifies(opcode: uint8, data: seq<uint8>)
    ensures opcode == 0x03 && |data| <= 16 ==> Checksum(opcode, data) == 0xEF
    ensures opcode == 0x03 && |data| > 16 ==> Folded(Checksum(opcode, data), data[16..]) == 0xEF
    ensures opcode != 0x03 ==> Checksum(opcode, data) == 0
  {
    if opcode == 0x03 && |data| >= 16 {
      var payload := data[16..];
      FoldedFrom(0xEF, payload);
      FoldedFrom(Checksum(opcode, data), payload);
      Gf2.AddAssoc(0xEF, Folded(0, payload), Folded(0, payload));
      Gf2.AddSelf(Folded(0, payload));
    }
  }

  class Port {
    var written: seq<uint8>

    constructor ()
      ensures written == []
    {
      written := [];
    }

    method Write(b: uint8)
      modifies this
      ensures written == old(written) + [b]
    {
      written := written + [b];
    }
  }

  method WriteEscapedBytes(serial: Port, data: seq<uint8>)
    modifies serial
    ensures serial.written == old(serial.written) + Escape(data)
  {
    var written := 0;
    while written < |data|
      invariant 0 <= written <= |data|
      invariant serial.written == old(serial.written) + Escape(data[..written])
    {
      var b := data[written];
      EscapeNext(data, written);
      written := written + 1;
      if b == 0xDB {
        serial.Write(0xDB);
        serial.Write(0xDD);
      } else if b == 0xC0 {
        serial.Write(0xDB);
        serial.Write(0xDC);
      } else {
        serial.Write(b);
      }
    }
    assert data[..|data|] == data;
  }

  lemma EscapeNext(data: seq<uint8>, k: nat)
    requires k < |data|
    ensures Escape(data[..k + 1]) == Escape(data[..k]) + EscapeByte(data[k])
  {
    assert data[..k + 1] == data[..k] + [data[k]];
    EscapeConcat(data[..k], [data[k]]);
    assert Escape([data[k]]) == EscapeByte(data[k]) + Escape([]);
  }

  /** The four bytes of a 32-bit checksum that fits one byte, lowest first. */
  function ChecksumBytes(c: uint8): seq<uint8> {
    [c, 0, 0, 0]
  }

  method ComputeChecksum(opcode: uint8, data: seq<uint8>) returns (checksum: uint8)
    ensures checksum == Checksum(opcode, data)
  {
    checksum := 0;
    if opcode == 0x03 {
      checksum := 0xEF;
      var i := 16;
      while i < |data|
        invariant 16 <= i && (|data| >= 16 ==> i <= |data| && checksum == Folded(0xEF, data[16..i]))
        invariant |data| < 16 ==> checksum == 0xEF
      {
        assert data[16..i + 1][..i - 16] == data[16..i];
        checksum := Xor8(checksum, data[i]);
        i := i + 1;
      }
      assert |data| >= 16 ==> data[16..|data|] == data[16..];
    }
  }

  /** A whole command. The length field goes out as it is; checksum and data are escaped. */
  method Command(serial: Port, opcode: uint8, data: seq<uint8>)
    requires |data| < 0x1_0000
    modifies serial
    ensures serial.written == old(serial.written) + [END, 0x00, opcode, |data| % 256, |data| / 256]
                              + Escape(ChecksumBytes(Checksum(opcode, data)) + data) + [END]
  {
    var checksum := ComputeChecksum(opcode, data);
    WriteHeader(serial, opcode, |data|);
    ghost var header := serial.written;
    var sum := ChecksumBytes(checksum);
    WriteEscapedBytes(serial, sum);
    WriteEscapedBytes(serial, data);
    serial.Write(0xC0);
    EscapeConcat(sum, data);
    Rejoined(header, Escape(sum), Escape(data));
  }

  method WriteHeader(serial: Port, opcode: uint8, length: uint16)
    modifies serial
    ensures serial.written == old(serial.written) + [END, 0x00, opcode, length % 256, length / 256]
  {
    serial.Write(0xC0);
    serial.Write(0x00);
    serial.Write(opcode);
    serial.Write(length % 256);
    serial.Write(length / 256);
  }

  /** What the boot loader receives behind the length field, up to the closing END, whatever follows. */
  lemma CommandDecodes(opcode: uint8, data: seq<uint8>, rest: seq<uint8>)
    ensures
      var payload := ChecksumBytes(Checksum(opcode, data)) + data;
      Receive(Escape(payload) + ([END] + rest)) == (payload, rest)
  {
    Received(ChecksumBytes(Checksum(opcode, data)) + data, rest);
  }
}
