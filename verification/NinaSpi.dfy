/** Framing of commands and replies on the SPI link to the NINA module (spi_drv.cpp). */
module NinaSpi {
  import opened CTypes

  const START_CMD: uint8 := 0xE0
  const END_CMD: uint8 := 0xEE
  const ERR_CMD: uint8 := 0xEF
  const DUMMY_DATA: uint8 := 0xFF
  const TIMEOUT_CHAR: nat := 1000

  /** cmd | REPLY_FLAG and cmd & ~REPLY_FLAG: the top bit is the reply flag. */
  function WithReplyFlag(cmd: uint8): (code: uint8)
    ensures code >= 128 && code % 128 == cmd % 128
  {
    if cmd < 128 then cmd + 128 else cmd
  }

  function WithoutReplyFlag(cmd: uint8): (code: uint8)
    ensures code == cmd % 128
  {
    if cmd < 128 then cmd else cmd - 128
  }

  // ---- layout ----

  /** Each parameter behind its length. */
  function Layout(params: seq<seq<uint8>>): seq<uint8>
    requires forall i :: 0 <= i < |params| ==> |params[i]| < 256
  {
    if params == [] then [] else [|params[0]|] + params[0] + Layout(params[1..])
  }

  ghost predicate Sendable(params: seq<seq<uint8>>) {
    |params| < 256 && forall i :: 0 <= i < |params| ==> |params[i]| < 256
  }

  function Frame(code: uint8, params: seq<seq<uint8>>): seq<uint8>
    requires Sendable(params)
  {
    [START_CMD, code, |params|] + Layout(params) + [END_CMD]
  }

  // ---- reading ----

  /** The line reads as all ones once the module has nothing more to say. */
  function Head(s: seq<uint8>): uint8 {
    if s == [] then DUMMY_DATA else s[0]
  }

  function Tail(s: seq<uint8>): seq<uint8> {
    if s == [] then [] else s[1..]
  }

  /** waitSpiChar with `timeout` retries left: 1 on the awaited character, 0 on timeout, -1 on ERR_CMD. */
  function Awaited(s: seq<uint8>, waitChar: uint8, timeout: nat): (int, seq<uint8>)
    decreases timeout
  {
    var c := Head(s);
    if c == ERR_CMD then (-1, Tail(s))
    else if timeout > 0 && c != waitChar then Awaited(Tail(s), waitChar, timeout - 1)
    else (if c == waitChar then 1 else 0, Tail(s))
  }

  /** n bytes, padded by the idle line. */
  function Bytes(s: seq<uint8>, n: nat): (b: seq<uint8>)
    ensures |b| == n
  {
    if n == 0 then [] else [Head(s)] + Bytes(Tail(s), n - 1)
  }

  function Drop(s: seq<uint8>, n: nat): seq<uint8> {
    if n == 0 then s else Drop(Tail(s), n - 1)
  }

  /** n parameters, each behind its length. */
  function Params(s: seq<uint8>, n: nat): (p: (seq<seq<uint8>>, seq<uint8>))
    ensures |p.0| == n
    decreases n
  {
    if n == 0 then ([], s)
    else
      var length := Head(s);
      var rest := Params(Drop(Tail(s), length), n - 1);
      ([Bytes(Tail(s), length)] + rest.0, rest.1)
  }

  /** What waitResponseParams makes of the incoming bytes: its result, the parameters stored, and the bytes left. */
  datatype Parsed = Parsed(ok: bool, stored: seq<seq<uint8>>, rest: seq<uint8>)

  function ParseReply(s: seq<uint8>, cmd: uint8, numParam: uint8): Parsed {
    var (found, s1) := Awaited(s, START_CMD, TIMEOUT_CHAR);
    if found == 0 then Parsed(false, [], s1)
    else if Head(s1) != WithReplyFlag(cmd) then Parsed(false, [], Tail(s1))
    else
      var s2 := Tail(s1);
      var n := Head(s2);
      if n == 0 then Parsed(false, [], Tail(s2))
      else
        var (stored, s3) := Params(Tail(s2), n);
        if numParam != n then Parsed(false, stored, s3) else Parsed(true, stored, Tail(s3))
  }

  class SpiBus {
    var incoming: seq<uint8>
    var outgoing: seq<uint8>

    constructor (incoming: seq<uint8>)
      ensures this.incoming == incoming && outgoing == []
    {
      this.incoming, outgoing := incoming, [];
    }

    /** A full-duplex transfer of one byte. */
    method Transfer(data: uint8) returns (r: uint8)
      modifies this
      ensures r == Head(old(incoming)) && incoming == Tail(old(incoming)) && outgoing == old(outgoing) + [data]
    {
      r := if incoming == [] then DUMMY_DATA else incoming[0];
      incoming := if incoming == [] then [] else incoming[1..];
      outgoing := outgoing + [data];
    }

    method ReadChar() returns (r: uint8)
      modifies this
      ensures r == Head(old(incoming)) && incoming == Tail(old(incoming))
    {
      r := Transfer(DUMMY_DATA);
    }

    // ---- sending ----

    method SendCmd(cmd: uint8, numParam: uint8)
      modifies this
      ensures outgoing == old(outgoing) + [0xE0, cmd % 128, numParam] + if numParam == 0 then [0xEE] else []
    {
      var _ := Transfer(START_CMD);
      var _ := Transfer(WithoutReplyFlag(cmd));
      var _ := Transfer(numParam);
      if numParam == 0 {
        var _ := Transfer(END_CMD);
      }
    }

    method SendParam(param: seq<uint8>, lastParam: bool)
      requires |param| < 256
      modifies this
      ensures outgoing == old(outgoing) + [|param|] + param + if lastParam then [0xEE] else []
    {
      var _ := Transfer(|param|);
      for i := 0 to |param|
        invariant outgoing == old(outgoing) + [|param|] + param[..i]
      {
        assert param[..i + 1] == param[..i] + [param[i]];
        var _ := Transfer(param[i]);
      }
      assert param[..|param|] == param;
      if lastParam {
        var _ := Transfer(END_CMD);
      }
    }

    /** A whole command, the way the drivers issue it: the command, then each parameter, the last one marked. */
    method SendCommand(cmd: uint8, params: seq<seq<uint8>>)
      requires Sendable(params)
      modifies this
      ensures outgoing == old(outgoing) + Frame(cmd % 128, params)
    {
      SendCmd(cmd, |params|);
      ghost var header := old(outgoing) + [START_CMD, cmd % 128, |params|];
      for i := 0 to |params|
        invariant params != [] ==>
          outgoing == header + Layout(params[..i]) + if i == |params| then [END_CMD] else []
        invariant params == [] ==> outgoing == header + [END_CMD]
      {
        LayoutSnoc(params[..i], params[i]);
        assert params[..i + 1] == params[..i] + [params[i]];
        ghost var before, layout := outgoing, Layout(params[..i]);
        SendParam(params[i], i == |params| - 1);
        assert header + layout + [|params[i]|] + params[i] == header + (layout + ([|params[i]|] + params[i]));
      }
      assert params[..|params|] == params;
    }

    // ---- receiving ----

    method WaitSpiChar(waitChar: uint8) returns (r: int)
      modifies this
      ensures (r, incoming) == Awaited(old(incoming), waitChar, TIMEOUT_CHAR)
    {
      var timeout := TIMEOUT_CHAR;
      while true
        invariant 0 <= timeout
        invariant Awaited(incoming, waitChar, timeout) == Awaited(old(incoming), waitChar, TIMEOUT_CHAR)
        decreases timeout
      {
        var c := ReadChar();
        if c == ERR_CMD {
          return -1;
        }
        if timeout > 0 && c != waitChar {
          timeout := timeout - 1;
        } else {
          return if c == waitChar then 1 else 0;
        }
      }
    }

    /** One parameter: its length, then that many bytes into the caller's buffer. */
    method ReadParam(p: TParam)
      requires Head(incoming) <= p.param.Length
      modifies this, p, p.param
      ensures p.Holds(Bytes(Tail(old(incoming)), Head(old(incoming))))
      ensures incoming == Drop(Tail(old(incoming)), Head(old(incoming)))
    {
      p.paramLen := ReadChar();
      Fill(p.param, p.paramLen);
    }

    /** The byte loop of one parameter. */
    method Fill(buf: array<uint8>, n: nat)
      requires n <= buf.Length
      modifies this, buf
      ensures buf[..n] == Bytes(old(incoming), n) && incoming == Drop(old(incoming), n)
    {
      ghost var bytes, after := Bytes(incoming, n), Drop(incoming, n);
      assert buf[..0] == [];
      for ii := 0 to n
        invariant bytes == buf[..ii] + Bytes(incoming, n - ii)
        invariant after == Drop(incoming, n - ii)
      {
        FillNext(buf, ii, n - ii, bytes, after);
      }
    }

    method FillNext(buf: array<uint8>, ii: nat, left: nat, ghost bytes: seq<uint8>, ghost after: seq<uint8>)
      requires ii < buf.Length && left > 0
      requires bytes == buf[..ii] + Bytes(incoming, left) && after == Drop(incoming, left)
      modifies this, buf
      ensures bytes == buf[..ii + 1] + Bytes(incoming, left - 1) && after == Drop(incoming, left - 1)
    {
      ghost var done, later := buf[..ii], Bytes(Tail(incoming), left - 1);
      var b := ReadChar();
      buf[ii] := b;
      assert buf[..ii + 1] == done + [b];
      InFront(done, b, later);
    }

    method WaitResponseParams(cmd: uint8, numParam: uint8, params: array<TParam>) returns (ok: bool)
      requires Room(ParseReply(incoming, cmd, numParam).stored, params[..])
      requires Separate(params[..])
      modifies this, params[..], Buffers(params[..])
      ensures
        var p := ParseReply(old(incoming), cmd, numParam);
        ok == p.ok && incoming == p.rest
        && forall i :: 0 <= i < |p.stored| ==> params[i].Holds(p.stored[i])
    {
      var found := WaitSpiChar(START_CMD);
      if found == 0 {
        return false;
      }
      var code := ReadChar();
      if code != WithReplyFlag(cmd) {
        return false;
      }
      var n := ReadChar();
      if n == 0 {
        return false;
      }
      ReadParams(n, params);
      if numParam != n {
        return false;
      }
      var _ := ReadChar();
      ok := true;
    }

    /** The parameter loop. */
    method ReadParams(n: nat, params: array<TParam>)
      requires Room(Params(incoming, n).0, params[..]) && Separate(params[..])
      modifies this, params[..], Buffers(params[..])
      ensures incoming == Params(old(incoming), n).1
      ensures forall i :: 0 <= i < n ==> params[i].Holds(Params(old(incoming), n).0[i])
    {
      ghost var all, after := Params(incoming, n).0, Params(incoming, n).1;
      for i := 0 to n
        invariant after == Params(incoming, n - i).1 && all[i..] == Params(incoming, n - i).0
        invariant forall k :: 0 <= k < i ==> params[k].Holds(all[k])
      {
        ReadNext(params, i, n - i, all);
      }
    }

    /** The next parameter; the ones read before stay in their buffers. */
    method ReadNext(params: array<TParam>, i: nat, left: nat, ghost all: seq<seq<uint8>>)
      requires left > 0 && i + left == |all| && Room(all, params[..]) && Separate(params[..])
      requires Params(incoming, left).0 == all[i..]
      requires forall k :: 0 <= k < i ==> params[k].Holds(all[k])
      modifies this, params[..], Buffers(params[..])
      ensures Params(incoming, left - 1).0 == all[i + 1..]
      ensures Params(incoming, left - 1).1 == old(Params(incoming, left).1)
      ensures forall k :: 0 <= k <= i ==> params[k].Holds(all[k])
    {
      FirstOfRest(all, i);
      ReadParam(params[i]);
    }
  }

  lemma FirstOfRest(all: seq<seq<uint8>>, i: nat)
    requires i < |all|
    ensures all[i..][0] == all[i] && all[i..][1..] == all[i + 1..]
  {
  }

  lemma InFront(done: seq<uint8>, b: uint8, later: seq<uint8>)
    ensures done + ([b] + later) == (done + [b]) + later
  {
  }

  class TParam {
    var paramLen: uint8
    const param: array<uint8>

    constructor (param: array<uint8>)
      ensures this.param == param
    {
      this.param := param;
      paramLen := 0;
    }

    ghost predicate Holds(bytes: seq<uint8>)
      reads this, param
    {
      paramLen == |bytes| <= param.Length && param[..paramLen] == bytes
    }
  }

  ghost function Buffers(params: seq<TParam>): set<array<uint8>> {
    set p | p in params :: p.param
  }

  /** The caller's array and buffers take what the reply holds. */
  ghost predicate Room(stored: seq<seq<uint8>>, params: seq<TParam>) {
    |stored| <= |params| && forall i :: 0 <= i < |stored| ==> |stored[i]| <= params[i].param.Length
  }

  ghost predicate Separate(params: seq<TParam>) {
    forall i, j :: 0 <= i < j < |params| ==> params[i] != params[j] && params[i].param != params[j].param
  }

  lemma {:induction false} LayoutSnoc(params: seq<seq<uint8>>, p: seq<uint8>)
    requires |p| < 256 && forall i :: 0 <= i < |params| ==> |params[i]| < 256
    ensures Layout(params + [p]) == Layout(params) + ([|p|] + p)
  {
    if params == [] {
      assert ([] + [p])[1..] == [];
      assert Layout([p]) == [|p|] + p + Layout([]);
    } else {
      assert (params + [p])[1..] == params[1..] + [p];
      LayoutSnoc(params[1..], p);
    }
  }

  // ---- a reply laid out like a command parses back ----

  lemma {:induction false} BytesOf(b: seq<uint8>, rest: seq<uint8>)
    ensures Bytes(b + rest, |b|) == b && Drop(b + rest, |b|) == rest
    decreases |b|
  {
    if b == [] {
      assert b + rest == rest;
    } else {
      assert (b + rest)[1..] == b[1..] + rest;
      BytesOf(b[1..], rest);
    }
  }

  lemma FirstParam(p: seq<uint8>, tail: seq<uint8>, n: nat)
    requires |p| < 256
    ensures Params([|p|] + (p + tail), n + 1) == ([p] + Params(tail, n).0, Params(tail, n).1)
  {
    var s := [|p|] + (p + tail);
    assert s[1..] == p + tail;
    BytesOf(p, tail);
  }

  lemma LayoutFront(params: seq<seq<uint8>>, rest: seq<uint8>)
    requires params != [] && forall i :: 0 <= i < |params| ==> |params[i]| < 256
    ensures Layout(params) + rest == [|params[0]|] + (params[0] + (Layout(params[1..]) + rest))
  {
    Regroup([|params[0]|], params[0], Layout(params[1..]), rest);
  }

  lemma Regroup(a: seq<uint8>, b: seq<uint8>, c: seq<uint8>, d: seq<uint8>)
    ensures (a + b + c) + d == a + (b + (c + d))
  {
  }

  lemma {:induction false} ParamsOf(params: seq<seq<uint8>>, rest: seq<uint8>)
    requires forall i :: 0 <= i < |params| ==> |params[i]| < 256
    ensures Params(Layout(params) + rest, |params|) == (params, rest)
    decreases |params|
  {
    if params == [] {
      assert Layout(params) + rest == rest;
    } else {
      LayoutFront(params, rest);
      FirstParam(params[0], Layout(params[1..]) + rest, |params| - 1);
      ParamsOf(params[1..], rest);
      assert [params[0]] + params[1..] == params;
    }
  }

  /** Bytes that are neither START nor ERR are skipped, one per retry. */
  lemma {:induction false} SkipNoise(noise: seq<uint8>, s: seq<uint8>, timeout: nat)
    requires forall i :: 0 <= i < |noise| ==> noise[i] != START_CMD && noise[i] != ERR_CMD
    ensures |noise| <= timeout ==>
      Awaited(noise + s, START_CMD, timeout) == Awaited(s, START_CMD, timeout - |noise|)
    ensures |noise| > timeout ==> Awaited(noise + s, START_CMD, timeout).0 == 0
    decreases |noise|
  {
    if noise == [] {
      assert noise + s == s;
    } else {
      assert (noise + s)[1..] == noise[1..] + s;
      if timeout > 0 {
        SkipNoise(noise[1..], s, timeout - 1);
      }
    }
  }

  /** A reply after its first byte, and what follows it on the line. */
  function Body(code: uint8, params: seq<seq<uint8>>, rest: seq<uint8>): seq<uint8>
    requires Sendable(params)
  {
    [code] + ([|params|] + (Layout(params) + ([END_CMD] + rest)))
  }

  lemma ParseBody(code: uint8, params: seq<seq<uint8>>, rest: seq<uint8>, timeout: nat)
    requires Sendable(params)
    ensures
      var body := Body(code, params, rest);
      && Awaited([START_CMD] + body, START_CMD, timeout) == (1, body)
      && Head(body) == code && Head(Tail(body)) == |params|
      && Params(Tail(Tail(body)), |params|) == (params, [END_CMD] + rest)
  {
    var body, tail := Body(code, params, rest), Layout(params) + ([END_CMD] + rest);
    assert ([START_CMD] + body)[1..] == body;
    assert body[1..] == [|params|] + tail;
    assert body[1..][1..] == tail;
    ParamsOf(params, [END_CMD] + rest);
  }

  lemma FrameIsBody(code: uint8, params: seq<seq<uint8>>, rest: seq<uint8>)
    requires Sendable(params)
    ensures Frame(code, params) + rest == [START_CMD] + Body(code, params, rest)
    ensures Frame(code, params)[1..] + rest == Body(code, params, rest)
  {
    assert Frame(code, params)[1..] == [code, |params|] + Layout(params) + [END_CMD];
  }

  /** A reply laid out as a command is, with the reply bit set, behind noise without start or error byte: the
      same parameter list comes back and exactly the frame is consumed, if and only if the noise is short
      enough. */
  lemma ReplyRoundTrip(cmd: uint8, params: seq<seq<uint8>>, noise: seq<uint8>, rest: seq<uint8>)
    requires Sendable(params) && params != []
    requires forall i :: 0 <= i < |noise| ==> noise[i] != 0xE0 && noise[i] != 0xEF
    ensures
      var p := ParseReply(noise + (Frame(128 + cmd % 128, params) + rest), cmd, |params|);
      && (p.ok <==> |noise| <= 1000)
      && (p.ok ==> p == Parsed(true, params, rest))
  {
    assert WithReplyFlag(cmd) == 128 + cmd % 128;
    ReplyParsed(cmd, WithReplyFlag(cmd), params, noise, rest);
  }

  lemma ReplyParsed(cmd: uint8, code: uint8, params: seq<seq<uint8>>, noise: seq<uint8>, rest: seq<uint8>)
    requires Sendable(params) && params != [] && code == WithReplyFlag(cmd)
    requires forall i :: 0 <= i < |noise| ==> noise[i] != START_CMD && noise[i] != ERR_CMD
    ensures
      var p := ParseReply(noise + (Frame(code, params) + rest), cmd, |params|);
      && (p.ok <==> |noise| <= TIMEOUT_CHAR)
      && (p.ok ==> p == Parsed(true, params, rest))
  {
    FrameIsBody(code, params, rest);
    SkipNoise(noise, Frame(code, params) + rest, TIMEOUT_CHAR);
    if |noise| <= TIMEOUT_CHAR {
      ParseBody(code, params, rest, TIMEOUT_CHAR - |noise|);
      assert ([END_CMD] + rest)[1..] == rest;
    }
  }

  /** The bytes of a frame whose one parameter is one byte, and what the parser makes of them. */
  lemma OneByteFrame(code: uint8, b: uint8)
    ensures Frame(code, [[b]]) == [0xE0, code, 1, 1, b, 0xEE]
  {
    assert [[b]][1..] == [] && Layout([[b]]) == [1] + [b] + Layout([]);
  }

  lemma OneByteReply(cmd: uint8, b: uint8, rest: seq<uint8>, reply: seq<uint8>)
    requires cmd < 128 && reply == [0xE0, cmd + 128, 1, 1, b, 0xEE] + rest
    ensures ParseReply(reply, cmd, 1) == Parsed(true, [[b]], rest)
  {
    OneByteFrame(cmd + 128, b);
    WithNoNoise(reply);
    ReplyRoundTrip(cmd, [[b]], [], rest);
  }

  lemma WithNoNoise(s: seq<uint8>)
    ensures [] + s == s
  {
  }

  /** The error byte does not stop the parser: -1 counts as found, so with START and ERR in its place any
      bytes behind are taken in the same way. */
  lemma ErrorByteActsAsStart(cmd: uint8, numParam: uint8, noise: seq<uint8>, tail: seq<uint8>)
    requires forall i :: 0 <= i < |noise| ==> noise[i] != START_CMD && noise[i] != ERR_CMD
    ensures |noise| <= TIMEOUT_CHAR ==>
      ParseReply(noise + ([ERR_CMD] + tail), cmd, numParam) == ParseReply(noise + ([START_CMD] + tail), cmd, numParam)
  {
    SkipNoise(noise, [ERR_CMD] + tail, TIMEOUT_CHAR);
    SkipNoise(noise, [START_CMD] + tail, TIMEOUT_CHAR);
    assert ([ERR_CMD] + tail)[1..] == tail == ([START_CMD] + tail)[1..];
  }

  /** When an error reply is reported as a failure: if and only if too much noise precedes it, or the bytes
      behind the error byte are not the reply code and the awaited, non-zero number of parameters. */
  lemma ErrorReplyRefused(cmd: uint8, numParam: uint8, noise: seq<uint8>, tail: seq<uint8>)
    requires forall i :: 0 <= i < |noise| ==> noise[i] != START_CMD && noise[i] != ERR_CMD
    ensures !ParseReply(noise + ([ERR_CMD] + tail), cmd, numParam).ok <==>
      |noise| > 1000 || Head(tail) != 128 + cmd % 128 || numParam == 0 || Head(Tail(tail)) != numParam
  {
    SkipNoise(noise, [ERR_CMD] + tail, TIMEOUT_CHAR);
    assert ([ERR_CMD] + tail)[1..] == tail;
  }
}
