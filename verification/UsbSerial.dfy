/** The serial port over USB CDC: received packets pass through a ring buffer to the reader, sends wait for
    the USB stack (PluggableUSBSerial.h, USBSerial.cpp). */
module UsbSerial {
  import opened CTypes
  import opened UsbCdc
  import opened RingBuffer

  // ---- what can happen, and what it does ----

  /** What can happen to the port: host traffic, interrupts, control requests and calls of the program. */
  datatype Event =
    | PacketArrives(packet: seq<uint8>)
    | TransferDone
    | SetControlLineState(dtr: bool)
    | BusReset(cancelled: bool)
    | SetConfiguration
    | Call(call: ApiCall)

  datatype ApiCall = Begin | Send(buffer: seq<uint8>) | Available | Peek | Read

  /** What came of an event besides what arrived: a disconnect cut off bytes not yet handed over, a send was
      queued, or a call returned a value. */
  datatype Effect =
    | NoEffect
    | CutOff(unsent: nat)
    | Posted(op: AsyncWrite)
    | Returned(value: int)

  predicate Disconnects(e: Event) {
    e == SetControlLineState(false) || e.BusReset?
  }

  predicate IsSend(e: Event) {
    e.Call? && e.call.Send?
  }

  const RING_SIZE := 256

  /** The receive path by its counts: what waits where, and whether a packet is awaited. */
  datatype Rx = Rx(connected: bool, attached: bool, inProgress: bool, started: bool, unread: nat, ring: nat)

  /** onInterrupt: as much as fits moves on, and the next packet is asked for once nothing is left. */
  function Drained(rx: Rx): Rx {
    if !rx.connected || rx.inProgress then rx
    else
      var room := if rx.ring <= RING_SIZE then RING_SIZE - rx.ring else 0;
      var n := if rx.unread <= room then rx.unread else room;
      var left := rx.unread - n;
      rx.(unread := left, ring := rx.ring + n, inProgress := left == 0, started := rx.started || left == 0)
  }

  /** Moving on stops at an empty packet buffer or a full ring, and nowhere before. */
  lemma DrainedFully(rx: Rx)
    requires rx.ring <= 256
    ensures
      var d := Drained(rx);
      && d.ring + d.unread == rx.ring + rx.unread && d.ring <= 256
      && (rx.connected && !rx.inProgress ==> (d.unread == 0 || d.ring == 256) && (d.inProgress <==> d.unread == 0))
  {
  }

  function RxAfter(e: Event, rx: Rx): Rx {
    match e
    case PacketArrives(packet) =>
      if !rx.started || |packet| > CDC_MAX_PACKET_SIZE then rx
      else
        var full := rx.(unread := |packet|, started := false, inProgress := false);
        if rx.attached then Drained(full) else full
    case TransferDone => rx
    case SetControlLineState(dtr) =>
      if dtr then rx.(connected := true) else rx.(connected := false, inProgress := false, unread := 0)
    case BusReset(cancelled) =>
      rx.(connected := false, inProgress := false, unread := 0, started := rx.started && !cancelled)
    case SetConfiguration => if rx.unread == 0 then rx.(started := true, inProgress := true) else rx
    case Call(Send(_)) => rx
    case Call(Begin) => Drained(rx.(attached := true))
    case Call(Read) => var d := Drained(rx); d.(ring := if d.ring == 0 then 0 else d.ring - 1)
    case Call(_) => Drained(rx)
  }

  /** What read and peek return: the first byte received and not yet returned, or -1 if the ring is empty. */
  predicate NextByte(c: int, rx: Rx, received: seq<uint8>, returned: seq<uint8>) {
    if Drained(rx).ring == 0 then c == -1 else |returned| < |received| && c == received[|returned|]
  }

  /** The effect of an event in this state, but for the bytes a disconnect cuts off. A send starts at the end
      of the queued bytes. */
  ghost predicate CanHave(e: Event, f: Effect, rx: Rx, received: seq<uint8>, queued: seq<uint8>, returned: seq<uint8>) {
    match e
    case Call(Begin) => f == NoEffect
    case Call(Send(buffer)) => f.Posted? && f.op.buffer == buffer && f.op.start == |queued|
    case Call(Available) => f == Returned(Drained(rx).ring)
    case Call(_) => f.Returned? && NextByte(f.value, rx, received, returned)
    case _ => if Disconnects(e) then f.CutOff? else f == NoEffect
  }

  function Shorter(s: seq<uint8>, n: nat): seq<uint8> {
    if n <= |s| then s[..|s| - n] else []
  }

  lemma FrontLeft(received: seq<uint8>, returned: seq<uint8>, ring: seq<uint8>, unread: seq<uint8>, rx: Rx)
    requires received == returned + ring + unread && rx.ring == |ring| && rx.unread == |unread|
    ensures returned == Shorter(received, rx.ring + rx.unread)
  {
  }

  /** The bytes received, one event later. */
  function ReceivedAfter(e: Event, rx: Rx, received: seq<uint8>): seq<uint8> {
    if e.PacketArrives? && rx.started && |e.packet| <= CDC_MAX_PACKET_SIZE then received + e.packet
    else if Disconnects(e) then Shorter(received, rx.unread)
    else received
  }

  /** The bytes sent by the program, one event later. */
  function QueuedAfter(e: Event, f: Effect, connected: bool, queued: seq<uint8>): seq<uint8> {
    if IsSend(e) && connected then queued + e.call.buffer
    else if f.CutOff? then Shorter(queued, f.unsent)
    else queued
  }

  /** The bytes that read() has returned, one event later. */
  function ReturnedAfter(e: Event, value: int, returned: seq<uint8>): seq<uint8> {
    if e == Call(Read) && 0 <= value < 0x100 then returned + [value] else returned
  }

  /** The terminal is connected between DTR and the next disconnect. */
  function ConnectedAfter(e: Event, connected: bool): bool {
    if Disconnects(e) then false else connected || e.SetControlLineState?
  }

  lemma ConnectedFollows(e: Event, rx: Rx)
    ensures RxAfter(e, rx).connected == ConnectedAfter(e, rx.connected)
  {
  }

  // ---- over a run ----

  function ConnectedBy(events: seq<Event>): bool {
    if events == [] then false
    else ConnectedAfter(events[|events| - 1], ConnectedBy(events[..|events| - 1]))
  }

  /** The counts of the receive path after these events. */
  function RxBy(events: seq<Event>): Rx {
    if events == [] then Rx(false, false, false, false, 0, 0)
    else RxAfter(events[|events| - 1], RxBy(events[..|events| - 1]))
  }

  /** The packets received in a run, without what disconnects have cut off. */
  function ReceivedBy(events: seq<Event>): seq<uint8> {
    if events == [] then []
    else
      var n := |events| - 1;
      ReceivedAfter(events[n], RxBy(events[..n]), ReceivedBy(events[..n]))
  }

  /** The bytes sent in a run while connected, without what disconnects have cut off. */
  function QueuedBy(events: seq<Event>, effects: seq<Effect>): seq<uint8>
    requires |events| == |effects|
  {
    if events == [] then []
    else
      var n := |events| - 1;
      QueuedAfter(events[n], effects[n], ConnectedBy(events[..n]), QueuedBy(events[..n], effects[..n]))
  }

  /** The bytes that the reads of a run have returned. */
  function ReturnedBy(events: seq<Event>, values: seq<int>): seq<uint8>
    requires |events| == |values|
  {
    if events == [] then []
    else
      var n := |events| - 1;
      ReturnedAfter(events[n], values[n], ReturnedBy(events[..n], values[..n]))
  }

  /** How many transfers have reached the host. */
  function Transfers(events: seq<Event>): nat {
    if events == [] then 0
    else Transfers(events[..|events| - 1]) + if events[|events| - 1].TransferDone? then 1 else 0
  }

  predicate AnyDisconnect(events: seq<Event>) {
    exists j :: 0 <= j < |events| && Disconnects(events[j])
  }

  predicate FirstStops(events: seq<Event>) {
    events != [] && Disconnects(events[0])
  }

  /** The terminal was not connected when event i happened, or has disconnected since. */
  predicate CutOffSince(events: seq<Event>, i: nat)
    requires i < |events|
  {
    !ConnectedBy(events[..i]) || AnyDisconnect(events[i + 1..])
  }

  lemma AnyDisconnectSnoc(events: seq<Event>, e: Event)
    ensures AnyDisconnect(events + [e]) <==> AnyDisconnect(events) || Disconnects(e)
  {
    if AnyDisconnect(events) {
      var j :| 0 <= j < |events| && Disconnects(events[j]);
      assert (events + [e])[j] == events[j];
    }
    assert (events + [e])[|events|] == e;
  }

  lemma CutOffSnoc(events: seq<Event>, e: Event, i: nat)
    requires i < |events|
    ensures CutOffSince(events + [e], i) <==> CutOffSince(events, i) || Disconnects(e)
  {
    assert (events + [e])[..i] == events[..i];
    assert (events + [e])[i + 1..] == events[i + 1..] + [e];
    AnyDisconnectSnoc(events[i + 1..], e);
  }

  /** A send that is over: all its bytes are in place among those handed over, or it has failed because of
      a disconnect, with bytes not handed over. */
  ghost predicate Settled(op: AsyncWrite, sent: seq<uint8>, cutOff: bool)
    reads op
  {
    && op.complete
    && if op.result then op.txSize == 0 && Placed(op, sent) else cutOff && (op.txSize == 0 ==> op.buffer == [])
  }

  ghost predicate Failed(op: AsyncWrite)
    reads op
  {
    op.complete && !op.result
  }

  /** A send is over, or waits in the queue. */
  ghost predicate Accounted(op: AsyncWrite, queue: seq<AsyncWrite>, sent: seq<uint8>, cutOff: bool)
    reads op
  {
    if op.complete then Settled(op, sent, cutOff) else op in queue && !cutOff
  }

  /** The operation that joins the queue by an event. */
  ghost function Joining(f: Effect): seq<AsyncWrite>
    reads if f.Posted? then {f.op} else {}
  {
    if f.Posted? && !f.op.complete then [f.op] else []
  }

  /** A send that is over stays over. */
  lemma SettledStays(op: AsyncWrite, sent: seq<uint8>, longer: seq<uint8>, cutOff: bool, later: bool)
    requires Settled(op, sent, cutOff) && sent <= longer && (cutOff ==> later)
    ensures Settled(op, longer, later)
  {
    if op.result {
      PlacedLonger(op, sent, longer);
    }
  }

  /** A waiting send goes on waiting, or has finished at the front, or has been cut off. */
  lemma AccountedMoved(op: AsyncWrite, before: seq<AsyncWrite>, k: nat, joining: seq<AsyncWrite>,
                       after: seq<AsyncWrite>, sent: seq<uint8>, disconnects: bool)
    requires op in before && k <= |before| && FirstFinished(before, k, !disconnects, sent)
    requires after == before[k..] + joining && (disconnects ==> after == []) && Waiting(after)
    ensures Accounted(op, after, sent, disconnects)
    ensures disconnects ==> op.complete && !op.result
  {
    var j :| 0 <= j < |before| && before[j] == op;
    if j < k {
      assert Finished(before[j], !disconnects, sent);
    } else {
      assert after[j - k] == op;
    }
  }

  lemma QueueMembers(before: seq<AsyncWrite>, k: nat, joining: seq<AsyncWrite>, after: seq<AsyncWrite>)
    requires k <= |before| && after == before[k..] + joining
    ensures forall i {:trigger after[i]} :: 0 <= i < |after| ==> after[i] in before || after[i] in joining
  {
  }

  /** The place of a waiting send in the queue, from its number. */
  lemma PlaceInQueue(op: AsyncWrite, queue: seq<AsyncWrite>, marks: seq<nat>, queued: seq<uint8>, j: nat)
    requires Chained(queue, marks, queued) && j < |queue| && queue[j] == op
    ensures op.number - (|marks| - 1 - |queue|) == j
  {
    assert queue[j].number == op.number;
  }

  /** An operation that still waits has moved up by the k operations finished in front of it. */
  lemma MovedUp(op: AsyncWrite, before: seq<AsyncWrite>, marks: seq<nat>, queued: seq<uint8>, k: nat,
                joining: seq<AsyncWrite>, after: seq<AsyncWrite>, marks': seq<nat>, queued': seq<uint8>,
                sent: seq<uint8>, connected: bool)
    requires op in before && !op.complete && Chained(before, marks, queued) && Chained(after, marks', queued')
    requires k <= |before| && after == before[k..] + joining && FirstFinished(before, k, connected, sent)
    ensures op.number - (|marks'| - 1 - |after|) == op.number - (|marks| - 1 - |before|) - k
  {
    var j :| 0 <= j < |before| && before[j] == op;
    assert j < k ==> Finished(before[j], connected, sent);
    PlaceInQueue(op, before, marks, queued, j);
    PlaceInQueue(op, after, marks', queued', j - k);
  }

  /** No queued send ends before the first one does. */
  lemma {:induction false} SentBelow(queue: seq<AsyncWrite>, marks: seq<nat>, queued: seq<uint8>, j: nat)
    requires Chained(queue, marks, queued) && j < |queue|
    ensures queue[0].start + |queue[0].buffer| <= queue[j].start + |queue[j].buffer|
    decreases j
  {
    if j > 0 {
      SentBelow(queue, marks, queued, j - 1);
      assert queue[j - 1].start + |queue[j - 1].buffer| == queue[j].start;
    }
  }

  /** All sends posted among the effects are accounted for. */
  ghost predicate AllAccounted(effects: seq<Effect>, cutOff: seq<bool>, queue: seq<AsyncWrite>, sent: seq<uint8>)
    requires |effects| == |cutOff|
    reads set f | f in effects && f.Posted? :: f.op
  {
    forall i :: 0 <= i < |effects| && effects[i].Posted? ==> Accounted(effects[i].op, queue, sent, cutOff[i])
  }

  /** Each posted send has failed, or its bytes end within the first n. */
  ghost predicate EndBy(effects: seq<Effect>, n: nat)
    reads set f | f in effects && f.Posted? :: f.op
  {
    forall i {:trigger effects[i]} :: 0 <= i < |effects| && effects[i].Posted? ==>
      Failed(effects[i].op) || effects[i].op.start + |effects[i].op.buffer| <= n
  }

  /** Unless it has failed, a send ends before any later one starts. */
  ghost predicate Apart(effects: seq<Effect>)
    reads set f | f in effects && f.Posted? :: f.op
  {
    forall i, j {:trigger effects[i], effects[j]} ::
      0 <= i < j < |effects| && effects[i].Posted? && effects[j].Posted? ==>
      Failed(effects[i].op) || effects[i].op.start + |effects[i].op.buffer| <= effects[j].op.start
  }

  lemma ApartSnoc(effects: seq<Effect>, f: Effect, n: nat)
    requires Apart(effects) && EndBy(effects, n) && (f.Posted? ==> f.op.start == n)
    ensures Apart(effects + [f])
  {
  }

  function OrAll(flags: seq<bool>, flag: bool): (r: seq<bool>)
    ensures |r| == |flags|
  {
    seq(|flags|, i requires 0 <= i < |flags| => flags[i] || flag)
  }

  lemma ReadReturns(c: int, rx: Rx, received: seq<uint8>, queued: seq<uint8>, returned: seq<uint8>)
    requires -1 <= c < 0x100 && NextByte(c, rx, received, returned)
    ensures CanHave(Call(Read), Returned(c), rx, received, queued, returned)
    ensures ReturnedAfter(Call(Read), c, returned) == if c < 0 then returned else returned + [c]
  {
  }

  lemma StillEqual(a: seq<uint8>, c: seq<uint8>, d: seq<uint8>, more: seq<uint8>)
    requires a == c + d
    ensures a + more == c + (d + more)
  {
  }

  lemma OneAppended(a: seq<uint8>, buf: seq<uint8>, n: nat)
    requires n < |buf|
    ensures a + buf[..n] + [buf[n]] == a + buf[..n + 1]
  {
  }

  /** The bytes of the sends, one after the other. */
  function Joined(ops: seq<AsyncWrite>): seq<uint8> {
    if ops == [] then [] else Joined(ops[..|ops| - 1]) + ops[|ops| - 1].buffer
  }

  ghost predicate PacketSized(ops: seq<AsyncWrite>) {
    forall i {:trigger ops[i].buffer} :: 0 <= i < |ops| ==> 0 < |ops[i].buffer| <= CDC_MAX_PACKET_SIZE
  }

  /** n bytes are sent in full packets, but for the last one. */
  ghost predicate FullPackets(ops: seq<AsyncWrite>, n: nat) {
    forall i {:trigger ops[i].buffer} :: 0 <= i < |ops| ==> |ops[i].buffer| == Min(64, n - 64 * i)
  }

  /** A successful send was handed over before the later ones. */
  ghost predicate InOrder(ops: seq<AsyncWrite>)
    reads ops
  {
    forall i, j {:trigger ops[i].result, ops[j].start} :: 0 <= i < j < |ops| && ops[i].result ==>
      ops[i].start + |ops[i].buffer| <= ops[j].start
  }

  lemma EventsGrow(events: seq<Event>, n: nat)
    requires n <= |events|
    ensures if n < |events| then events[..n + 1] == events[..n] + [events[n]] else events[..n] == events
  {
  }

  lemma NothingYet(past: seq<Event>, events: seq<Event>, values: seq<int>)
    ensures past + events[..0] == past && values + [] == values
  {
  }

  lemma OneMoreEvent(past: seq<Event>, events: seq<Event>, n: nat, values: seq<int>, more: seq<int>, value: int)
    requires n < |events|
    ensures past + events[..n] + [events[n]] == past + events[..n + 1]
    ensures values + more + [value] == values + (more + [value])
  {
  }

  lemma PrefixGrows(buf: seq<uint8>, n: nat, m: nat)
    requires n + m <= |buf|
    ensures buf[..n + m] == buf[..n] + buf[n..n + m]
  {
  }

  lemma JoinedSnoc(ops: seq<AsyncWrite>, op: AsyncWrite)
    ensures Joined(ops + [op]) == Joined(ops) + op.buffer
  {
    assert (ops + [op])[..|ops|] == ops;
  }

  lemma {:induction false} JoinedAtLeast(ops: seq<AsyncWrite>)
    requires PacketSized(ops)
    ensures |Joined(ops)| >= |ops|
    decreases |ops|
  {
    if ops != [] {
      JoinedAtLeast(ops[..|ops| - 1]);
    }
  }

  lemma AllSettledSnoc(ops: seq<AsyncWrite>, op: AsyncWrite, sent: seq<uint8>, cutOff: bool)
    requires AllSettled(ops, sent, cutOff) && Settled(op, sent, cutOff)
    ensures AllSettled(ops + [op], sent, cutOff)
  {
    forall i | 0 <= i < |ops| ensures Settled((ops + [op])[i], sent, cutOff) {
      assert Settled(ops[i], sent, cutOff);
    }
  }

  lemma InOrderSnoc(ops: seq<AsyncWrite>, op: AsyncWrite, before: seq<uint8>, cutOff: bool)
    requires InOrder(ops) && AllSettled(ops, before, cutOff) && |before| <= op.start
    ensures InOrder(ops + [op])
  {
    forall i | 0 <= i < |ops| && ops[i].result ensures ops[i].start + |ops[i].buffer| <= op.start {
      assert Settled(ops[i], before, cutOff);
    }
  }

  /** How many bytes of the sends have not been handed over. */
  ghost function Missing(ops: seq<AsyncWrite>): nat
    reads ops
  {
    if ops == [] then 0 else Missing(ops[..|ops| - 1]) + ops[|ops| - 1].txSize
  }

  ghost predicate AllSettled(ops: seq<AsyncWrite>, sent: seq<uint8>, cutOff: bool)
    reads ops
  {
    forall i {:trigger Settled(ops[i], sent, cutOff)} :: 0 <= i < |ops| ==> Settled(ops[i], sent, cutOff)
  }

  lemma AllSettledStay(ops: seq<AsyncWrite>, sent: seq<uint8>, longer: seq<uint8>, cutOff: bool, later: bool)
    requires AllSettled(ops, sent, cutOff) && sent <= longer && (cutOff ==> later)
    ensures AllSettled(ops, longer, later)
  {
    forall i | 0 <= i < |ops| ensures Settled(ops[i], longer, later) {
      assert Settled(ops[i], sent, cutOff);
      SettledStays(ops[i], sent, longer, cutOff, later);
    }
  }

  lemma {:induction false} MissingNone(ops: seq<AsyncWrite>, sent: seq<uint8>, cutOff: bool)
    requires AllSettled(ops, sent, cutOff) && PacketSized(ops)
    ensures Missing(ops) == 0 <==> forall i :: 0 <= i < |ops| ==> ops[i].result
    decreases |ops|
  {
    if ops != [] {
      var n := |ops| - 1;
      assert forall i :: 0 <= i < n ==> ops[..n][i] == ops[i];
      assert forall i :: 0 <= i < n ==> Settled(ops[i], sent, cutOff);
      assert Settled(ops[n], sent, cutOff);
      MissingNone(ops[..n], sent, cutOff);
    }
  }

  lemma EventsSplit(events: seq<Event>, used: nat, n: nat)
    requires used <= |events| && n <= |events| - used
    ensures AnyDisconnect(events[..used + n]) <==> AnyDisconnect(events[..used]) || AnyDisconnect(events[used..][..n])
  {
    var all, left, right := events[..used + n], events[..used], events[used..][..n];
    if AnyDisconnect(left) {
      var j :| 0 <= j < |left| && Disconnects(left[j]);
      assert all[j] == left[j];
    }
    if AnyDisconnect(right) {
      var j :| 0 <= j < |right| && Disconnects(right[j]);
      assert all[used + j] == right[j];
    }
    if AnyDisconnect(all) {
      var j :| 0 <= j < |all| && Disconnects(all[j]);
      assert if j < used then left[j] == all[j] else right[j - used] == all[j];
    }
  }

  lemma OneMore(events: seq<Event>, n: nat)
    requires n < |events|
    ensures AnyDisconnect(events[..n + 1]) <==> AnyDisconnect(events[..n]) || Disconnects(events[n])
    ensures Transfers(events[..n + 1]) == Transfers(events[..n]) + if events[n].TransferDone? then 1 else 0
  {
    assert events[..n + 1] == events[..n] + [events[n]];
    assert events[..n + 1][..n] == events[..n];
    AnyDisconnectSnoc(events[..n], events[n]);
  }

  /** Every event has had an effect it can have after those before it. */
  ghost predicate Happened(events: seq<Event>, effects: seq<Effect>, values: seq<int>) {
    && |events| == |effects| == |values|
    && forall i {:trigger effects[i]} :: 0 <= i < |events| ==>
         CouldHave(events[i], effects[i], events[..i], effects[..i], values[..i])
  }

  ghost predicate CouldHave(e: Event, f: Effect, past: seq<Event>, effects: seq<Effect>, values: seq<int>)
    requires |past| == |effects| == |values|
  {
    CanHave(e, f, RxBy(past), ReceivedBy(past), QueuedBy(past, effects), ReturnedBy(past, values))
  }

  /** What the calls returned. */
  ghost predicate Values(effects: seq<Effect>, values: seq<int>) {
    && |values| == |effects|
    && forall i {:trigger effects[i]} :: 0 <= i < |effects| && effects[i].Returned? ==> values[i] == effects[i].value
  }

  lemma RunSnoc(events: seq<Event>, effects: seq<Effect>, values: seq<int>, e: Event, f: Effect, value: int)
    requires Happened(events, effects, values) && CouldHave(e, f, events, effects, values)
    ensures Happened(events + [e], effects + [f], values + [value])
    ensures RxBy(events + [e]) == RxAfter(e, RxBy(events))
    ensures ConnectedBy(events + [e]) == ConnectedAfter(e, ConnectedBy(events))
    ensures ReceivedBy(events + [e]) == ReceivedAfter(e, RxBy(events), ReceivedBy(events))
    ensures QueuedBy(events + [e], effects + [f]) == QueuedAfter(e, f, ConnectedBy(events), QueuedBy(events, effects))
  {
    assert (events + [e])[..|events|] == events && (effects + [f])[..|events|] == effects;
    HappenedSnoc(events, effects, values, e, f, value);
  }

  lemma HappenedSnoc(events: seq<Event>, effects: seq<Effect>, values: seq<int>, e: Event, f: Effect, value: int)
    requires Happened(events, effects, values) && CouldHave(e, f, events, effects, values)
    ensures Happened(events + [e], effects + [f], values + [value])
  {
    var events', effects', values' := events + [e], effects + [f], values + [value];
    forall i | 0 <= i <= |events|
      ensures CouldHave(events'[i], effects'[i], events'[..i], effects'[..i], values'[..i])
    {
      assert events'[..i] == events[..i] && effects'[..i] == effects[..i] && values'[..i] == values[..i];
      if i < |events| {
        assert CouldHave(events[i], effects[i], events[..i], effects[..i], values[..i]);
      } else {
        assert events[..i] == events && effects[..i] == effects && values[..i] == values;
      }
    }
  }

  lemma ReturnedSnoc(events: seq<Event>, values: seq<int>, e: Event, value: int)
    requires |events| == |values|
    ensures ReturnedBy(events + [e], values + [value]) == ReturnedAfter(e, value, ReturnedBy(events, values))
  {
    assert (events + [e])[..|events|] == events && (values + [value])[..|events|] == values;
  }

  lemma ValuesSnoc(effects: seq<Effect>, values: seq<int>, f: Effect, value: int)
    requires Values(effects, values) && (f.Returned? ==> f.value == value)
    ensures Values(effects + [f], values + [value])
  {
  }

  /** For each event, whether a send posted by it would have been cut off by now. */
  function CutOffs(events: seq<Event>): (r: seq<bool>)
    ensures |r| == |events|
  {
    seq(|events|, i requires 0 <= i < |events| => CutOffSince(events, i))
  }

  lemma CutOffsSnoc(events: seq<Event>, e: Event)
    ensures CutOffs(events + [e]) == OrAll(CutOffs(events), Disconnects(e)) + [!ConnectedBy(events)]
  {
    var all := CutOffs(events + [e]);
    forall i | 0 <= i < |events| ensures all[i] == (CutOffSince(events, i) || Disconnects(e)) {
      CutOffSnoc(events, e, i);
    }
    assert (events + [e])[..|events|] == events && (events + [e])[|events| + 1..] == [];
  }

  lemma AccountedSnoc(effects: seq<Effect>, cutOff: seq<bool>, f: Effect, cut: bool,
                      queue: seq<AsyncWrite>, sent: seq<uint8>)
    requires |effects| == |cutOff| && AllAccounted(effects, cutOff, queue, sent)
    requires f.Posted? ==> Accounted(f.op, queue, sent, cut)
    ensures AllAccounted(effects + [f], cutOff + [cut], queue, sent)
  {
  }

  class USBSerial {
    const cdc: USBCDC
    const rxBuffer: RingBufferN
    /** begin() has registered onInterrupt as a receive callback. */
    var attached: bool
    /** The bytes that read() has returned. */
    ghost var returned: seq<uint8>

    ghost predicate Parts()
      reads rxBuffer
    {
      && rxBuffer.Valid() && rxBuffer.N == 256
      && rxBuffer.aucBuffer != cdc.rxBuffer && rxBuffer.aucBuffer != cdc.txBuffer
    }

    /** Bytes taken out of the packet buffer have been returned or wait in the ring, in order. */
    ghost predicate Conserved()
      requires rxBuffer.Valid()
      reads this`returned, cdc`taken, rxBuffer, rxBuffer.aucBuffer
    {
      cdc.taken == returned + rxBuffer.Contents()
    }

    ghost predicate Valid()
      reads this, cdc, cdc.txList, cdc.rxList, cdc.rxBuffer, rxBuffer, rxBuffer.aucBuffer
    {
      Parts() && cdc.Valid() && cdc.rxList == [] && Conserved()
    }

    constructor ()
      ensures Valid() && !cdc.connected && !attached && fresh(cdc) && fresh(rxBuffer)
      ensures fresh(cdc.txBuffer) && fresh(cdc.rxBuffer) && fresh(rxBuffer.aucBuffer)
      ensures returned == cdc.received == cdc.queued == [] && cdc.txList == []
      ensures !cdc.outStarted && cdc.sent == [] && !cdc.txInProgress
    {
      cdc := new USBCDC();
      rxBuffer := new RingBufferN(256);
      attached := false;
      returned := [];
    }

    /** Nothing is lost, duplicated or reordered between the packets and the reader, a full ring included. */
    lemma NothingLost()
      requires Valid()
      ensures cdc.received == returned + rxBuffer.Contents() + cdc.Unread()
    {
    }

    /** The oldest byte of the ring is the next one to return. */
    lemma FrontOfRing()
      requires Valid()
      ensures rxBuffer.Contents() != [] ==>
        |returned| < |cdc.received| && cdc.received[|returned|] == rxBuffer.Contents()[0]
    {
      NothingLost();
    }

    /** With nothing left to move, the ring has a byte exactly while not all have been returned. */
    lemma ByteWaits()
      requires Valid() && (cdc.connected ==> cdc.rxSize == 0 || |rxBuffer.Contents()| == 256)
      ensures cdc.connected ==> (|rxBuffer.Contents()| > 0 <==> |returned| < |cdc.received|)
    {
      NothingLost();
    }

    lemma RingKept(contents: seq<uint8>)
      requires Parts() && cdc.Valid() && cdc.rxList == [] && cdc.taken == returned + contents
      requires rxBuffer.Contents() == contents
      ensures Valid()
    {
    }

    // ---- receiving ----

    ghost function RxView(): Rx
      reads cdc`connected, cdc`rxInProgress, cdc`outStarted, cdc`rxSize, rxBuffer`numElems, this`attached
    {
      Rx(cdc.connected, attached, cdc.rxInProgress, cdc.outStarted, cdc.rxSize, rxBuffer.numElems)
    }

    /** What holds one event later, from what held before. */
    ghost predicate After(e: Event, f: Effect, rx: Rx, received: seq<uint8>, queued: seq<uint8>, returned: seq<uint8>)
      reads cdc`connected, cdc`rxInProgress, cdc`outStarted, cdc`rxSize, rxBuffer`numElems
      reads cdc`received, cdc`queued, this`attached, this`returned
    {
      && CanHave(e, f, rx, received, queued, returned) && RxView() == RxAfter(e, rx)
      && cdc.received == ReceivedAfter(e, rx, received)
      && cdc.queued == QueuedAfter(e, f, rx.connected, queued)
      && this.returned == ReturnedAfter(e, if f.Returned? then f.value else 0, returned)
    }

    /** The number of bytes waiting in the packet buffer. */
    method AvailableInPacket() returns (size: nat)
      requires Valid()
      ensures size == if cdc.rxInProgress then 0 else |cdc.Unread()|
    {
      size := 0;
      if !cdc.rxInProgress {
        size := Min(cdc.rxSize, CDC_MAX_PACKET_SIZE);
      }
    }

    /** The front of the packet buffer, as far as the ring has room for it. */
    ghost function Movable(): seq<uint8>
      requires Valid()
      reads this, cdc, cdc.txList, cdc.rxList, cdc.rxBuffer, rxBuffer, rxBuffer.aucBuffer
    {
      if cdc.connected && !cdc.rxInProgress
        then cdc.Unread()[..Min(|cdc.Unread()|, rxBuffer.N - |rxBuffer.Contents()|)]
        else []
    }

    /** Moves as many bytes as fit from the packet buffer to the ring, and lets the next packet come once all
        are moved. */
    method OnInterrupt()
      requires Valid()
      modifies cdc`rxBuf, cdc`rxSize, cdc`outStarted, cdc`rxInProgress, cdc`taken, rxBuffer, rxBuffer.aucBuffer
      ensures Valid() && (cdc.connected ==> cdc.rxSize == 0 || |rxBuffer.Contents()| == 256)
      ensures rxBuffer.Contents() == old(rxBuffer.Contents()) + old(Movable())
      ensures RxView() == Drained(old(RxView()))
    {
      DrainedFully(RxView());
      var buf := TakeMovable();
      StillEqual(old(cdc.taken), returned, rxBuffer.Contents(), buf);
      StoreTaken(buf);
    }

    /** The bytes to move leave the packet buffer. */
    method TakeMovable() returns (buf: seq<uint8>)
      requires Valid()
      modifies cdc`rxBuf, cdc`rxSize, cdc`outStarted, cdc`rxInProgress, cdc`taken
      ensures cdc.Valid() && cdc.taken == old(cdc.taken) + buf && buf == old(Movable())
      ensures RxView().(ring := old(RxView().ring) + |buf|) == Drained(old(RxView()))
    {
      var howMany := AvailableInPacket();
      if howMany > rxBuffer.AvailableForStore() {
        howMany := rxBuffer.AvailableForStore();
      }
      buf := ReceiveNb(howMany);
    }

    method StoreTaken(buf: seq<uint8>)
      requires Parts() && cdc.Valid() && cdc.rxList == [] && |buf| <= rxBuffer.AvailableForStore()
      requires cdc.taken == returned + (rxBuffer.Contents() + buf)
      modifies rxBuffer, rxBuffer.aucBuffer
      ensures Valid() && rxBuffer.Contents() == old(rxBuffer.Contents()) + buf
    {
      Store(buf);
      assert cdc.Valid() == old(cdc.Valid());
    }

    /** receive_nb, seen from the port: the ring stays as it is. */
    method ReceiveNb(size: nat) returns (buf: seq<uint8>)
      requires Valid()
      modifies cdc`rxBuf, cdc`rxSize, cdc`outStarted, cdc`rxInProgress, cdc`taken
      ensures cdc.Valid() && cdc.taken == old(cdc.taken) + buf
      ensures buf == if cdc.connected && !old(cdc.rxInProgress)
                       then old(cdc.Unread())[..Min(|old(cdc.Unread())|, size)] else []
      ensures if cdc.connected && !old(cdc.rxInProgress)
              then cdc.rxSize == old(cdc.rxSize) - |buf| && cdc.rxInProgress == (cdc.rxSize == 0)
                   && cdc.outStarted == (old(cdc.outStarted) || cdc.rxSize == 0)
              else RxView() == old(RxView())
    {
      buf := cdc.ReceiveNb(size);
      assert cdc.TxValid() == old(cdc.TxValid());
    }

    /** The copy loop of onInterrupt. */
    method Store(buf: seq<uint8>)
      requires rxBuffer.Valid() && |buf| <= rxBuffer.AvailableForStore()
      modifies rxBuffer, rxBuffer.aucBuffer
      ensures rxBuffer.Valid() && rxBuffer.Contents() == old(rxBuffer.Contents()) + buf
    {
      var toRead := |buf|;
      ghost var before := rxBuffer.Contents();
      while rxBuffer.AvailableForStore() > 0 && toRead > 0
        invariant rxBuffer.Valid() && 0 <= toRead <= |buf| && toRead <= rxBuffer.AvailableForStore()
        invariant rxBuffer.Contents() == before + buf[..|buf| - toRead]
        decreases toRead
      {
        StoreNext(buf, |buf| - toRead, before);
        toRead := toRead - 1;
      }
      assert buf[..|buf|] == buf;
    }

    method StoreNext(buf: seq<uint8>, n: nat, ghost before: seq<uint8>)
      requires rxBuffer.Valid() && n < |buf| && rxBuffer.AvailableForStore() > 0
      requires rxBuffer.Contents() == before + buf[..n]
      modifies rxBuffer, rxBuffer.aucBuffer
      ensures rxBuffer.Valid() && rxBuffer.AvailableForStore() == old(rxBuffer.AvailableForStore()) - 1
      ensures rxBuffer.Contents() == before + buf[..n + 1]
    {
      OneAppended(before, buf, n);
      rxBuffer.StoreChar(buf[n]);
    }

    method Begin()
      requires Valid()
      modifies this`attached
      modifies cdc`rxBuf, cdc`rxSize, cdc`outStarted, cdc`rxInProgress, cdc`taken, rxBuffer, rxBuffer.aucBuffer
      ensures Valid() && attached
      ensures After(Call(ApiCall.Begin), NoEffect, old(RxView()), old(cdc.received), old(cdc.queued), old(returned))
      ensures rxBuffer.Contents() == old(rxBuffer.Contents() + Movable())
    {
      attached := true;
      OnInterrupt();
    }

    method Available() returns (n: nat)
      requires Valid()
      modifies cdc`rxBuf, cdc`rxSize, cdc`outStarted, cdc`rxInProgress, cdc`taken, rxBuffer, rxBuffer.aucBuffer
      ensures Valid() && n == |rxBuffer.Contents()|
      ensures cdc.connected ==> (n > 0 <==> |returned| < |cdc.received|)
      ensures After(Call(ApiCall.Available), Returned(n),
                    old(RxView()), old(cdc.received), old(cdc.queued), old(returned))
      ensures rxBuffer.Contents() == old(rxBuffer.Contents() + Movable())
    {
      OnInterrupt();
      ByteWaits();
      n := rxBuffer.Available();
    }

    method Peek() returns (c: int)
      requires Valid()
      modifies cdc`rxBuf, cdc`rxSize, cdc`outStarted, cdc`rxInProgress, cdc`taken, rxBuffer, rxBuffer.aucBuffer
      ensures Valid() && c == if rxBuffer.Contents() == [] then -1 else rxBuffer.Contents()[0]
      ensures cdc.connected ==> (c >= 0 <==> |returned| < |cdc.received|)
      ensures After(Call(ApiCall.Peek), Returned(c), old(RxView()), old(cdc.received), old(cdc.queued), old(returned))
      ensures rxBuffer.Contents() == old(rxBuffer.Contents() + Movable())
    {
      OnInterrupt();
      c := rxBuffer.Peek();
      PeekAfter(c, old(RxView()));
    }

    lemma PeekAfter(c: int, rx: Rx)
      requires Valid() && (cdc.connected ==> cdc.rxSize == 0 || |rxBuffer.Contents()| == 256)
      requires RxView() == Drained(rx) && c == if rxBuffer.Contents() == [] then -1 else rxBuffer.Contents()[0]
      ensures cdc.connected ==> (c >= 0 <==> |returned| < |cdc.received|)
      ensures After(Call(ApiCall.Peek), Returned(c), rx, cdc.received, cdc.queued, returned)
    {
      FrontOfRing();
      ByteWaits();
    }

    method Read() returns (c: int)
      requires Valid()
      modifies this`returned
      modifies cdc`rxBuf, cdc`rxSize, cdc`outStarted, cdc`rxInProgress, cdc`taken, rxBuffer, rxBuffer.aucBuffer
      ensures Valid()
      ensures After(Call(ApiCall.Read), Returned(c), old(RxView()), old(cdc.received), old(cdc.queued), old(returned))
      ensures old(rxBuffer.Contents() + Movable()) == (if c < 0 then [] else [c]) + rxBuffer.Contents()
      ensures c < 0 ==> rxBuffer.Contents() == []
      ensures cdc.connected ==> (c >= 0 <==> |old(returned)| < |cdc.received|)
    {
      OnInterrupt();
      c := TakeChar();
      assert After(Call(ApiCall.Read), Returned(c), old(RxView()), cdc.received, cdc.queued, old(returned)) by {
        ReadAfter(c, old(RxView()), cdc.received, cdc.queued, old(returned));
      }
    }

    lemma ReadAfter(c: int, rx: Rx, received: seq<uint8>, queued: seq<uint8>, before: seq<uint8>)
      requires -1 <= c < 0x100 && cdc.received == received && cdc.queued == queued && NextByte(c, rx, received, before)
      requires RxView() == Drained(rx).(ring := rxBuffer.numElems)
      requires Drained(rx).ring == rxBuffer.numElems + if c < 0 then 0 else 1
      requires returned == if c < 0 then before else before + [c]
      ensures After(Call(ApiCall.Read), Returned(c), rx, received, queued, before)
    {
      ReadReturns(c, rx, received, queued, before);
    }

    /** read_char, with what it returns on record. */
    method TakeChar() returns (c: int)
      requires Valid() && (cdc.connected ==> cdc.rxSize == 0 || |rxBuffer.Contents()| == 256)
      modifies this`returned, rxBuffer
      ensures c >= 0 ==> |old(returned)| < |cdc.received| && c == cdc.received[|old(returned)|]
      ensures cdc.connected ==> (c >= 0 <==> |old(returned)| < |cdc.received|)
      ensures Valid() && -1 <= c < 0x100 && returned == if c < 0 then old(returned) else old(returned) + [c]
      ensures old(rxBuffer.Contents()) == (if c < 0 then [] else [c]) + rxBuffer.Contents()
      ensures c < 0 ==> rxBuffer.Contents() == []
    {
      FrontOfRing();
      ByteWaits();
      c := rxBuffer.ReadChar();
      if c >= 0 {
        assert returned + ([c] + rxBuffer.Contents()) == (returned + [c]) + rxBuffer.Contents();
        returned := returned + [c];
      }
      assert cdc.Valid() == old(cdc.Valid());
    }

    /** _receive_isr with its data_rx callback, which moves what fits into the ring at once. */
    method ReceiveIsr(packet: seq<uint8>)
      requires Valid() && cdc.outStarted && |packet| <= CDC_MAX_PACKET_SIZE
      modifies cdc`rxList, cdc`rxBuf, cdc`rxSize, cdc`outStarted, cdc`rxInProgress, cdc`taken, cdc`received
      modifies cdc.rxBuffer, rxBuffer, rxBuffer.aucBuffer
      ensures Valid() && cdc.received == old(cdc.received) + packet
      ensures rxBuffer.Contents() == old(rxBuffer.Contents())
        + if attached && cdc.connected then packet[..Min(|packet|, rxBuffer.N - |old(rxBuffer.Contents())|)] else []
      ensures RxView() == RxAfter(PacketArrives(packet), old(RxView()))
    {
      var dataRx, _ := cdc.ReceiveIsr(packet);
      assert rxBuffer.Contents() == old(rxBuffer.Contents());
      if dataRx && attached {
        OnInterrupt();
      }
    }

    // ---- sending, up to the wait ----

    /** _send_isr: the transfer in flight has reached the host. */
    method SendIsr() returns (ghost k: nat)
      requires Valid()
      modifies cdc`txList, cdc`txSize, cdc`txInProgress, cdc`packets, cdc`cuts, cdc`sent, cdc.txBuffer, cdc.txList
      ensures Valid() && old(cdc.sent) <= cdc.sent
      ensures After(TransferDone, NoEffect, old(RxView()), old(cdc.received), old(cdc.queued), old(returned))
      ensures k <= |old(cdc.txList)| && cdc.txList == old(cdc.txList)[k..]
      ensures FirstFinished(old(cdc.txList), k, true, cdc.sent)
      ensures old(cdc.txList) != [] ==> |cdc.sent| + k > |old(cdc.sent)|
    {
      k := cdc.SendIsr();
      RingKept(old(rxBuffer.Contents()));
    }

    /** send, up to the point where its caller starts waiting. */
    method Post(buffer: seq<uint8>) returns (op: AsyncWrite)
      requires Valid()
      modifies cdc`txList, cdc`txSize, cdc`txInProgress, cdc`packets, cdc`cuts, cdc`sent, cdc`queued, cdc`marks
      modifies cdc.txBuffer
      ensures Valid() && fresh(op) && op.buffer == buffer && old(cdc.sent) <= cdc.sent
      ensures After(Call(ApiCall.Send(buffer)), Posted(op),
                    old(RxView()), old(cdc.received), old(cdc.queued), old(returned))
      ensures cdc.txList == old(cdc.txList) + if op.complete then [] else [op]
      ensures forall i :: 0 <= i < |cdc.txList| ==> cdc.txList[i] in old(cdc.txList) || fresh(cdc.txList[i])
      ensures Accounted(op, cdc.txList, cdc.sent, !cdc.connected)
      ensures cdc.connected && buffer != [] ==> cdc.txInProgress && (old(cdc.txInProgress) ==> !op.complete)
      ensures op.start == |old(cdc.queued)|
    {
      op := SendOp(buffer);
      PostAfter(op, old(RxView()), old(cdc.received), old(cdc.queued), old(returned));
      InQueue(op, old(cdc.txList));
    }

    /** The same as seen by the CDC layer: the ring stays as it is. */
    method SendOp(buffer: seq<uint8>) returns (op: AsyncWrite)
      requires Valid()
      modifies cdc`txList, cdc`txSize, cdc`txInProgress, cdc`packets, cdc`cuts, cdc`sent, cdc`queued, cdc`marks
      modifies cdc.txBuffer
      ensures Valid() && fresh(op) && op.buffer == buffer && old(cdc.sent) <= cdc.sent
      ensures cdc.queued == if cdc.connected then old(cdc.queued) + buffer else old(cdc.queued)
      ensures op.complete ==> Finished(op, cdc.connected, cdc.sent)
      ensures !op.complete ==> cdc.connected
      ensures cdc.txList == old(cdc.txList) + if op.complete then [] else [op]
      ensures cdc.connected && buffer != [] ==> cdc.txInProgress && (old(cdc.txInProgress) ==> !op.complete)
      ensures op.start == |old(cdc.queued)|
    {
      op := cdc.Send(buffer);
      assert Parts() == old(Parts()) && Conserved() == old(Conserved());
    }

    lemma InQueue(op: AsyncWrite, before: seq<AsyncWrite>)
      requires cdc.txList == before + if op.complete then [] else [op]
      requires if op.complete then Finished(op, cdc.connected, cdc.sent) else cdc.connected
      ensures Accounted(op, cdc.txList, cdc.sent, !cdc.connected)
      ensures forall i :: 0 <= i < |cdc.txList| ==> cdc.txList[i] in before || cdc.txList[i] == op
    {
      if !op.complete {
        assert cdc.txList[|cdc.txList| - 1] == op;
      }
    }

    lemma PostAfter(op: AsyncWrite, rx: Rx, received: seq<uint8>, queued: seq<uint8>, returned: seq<uint8>)
      requires RxView() == rx && cdc.received == received && this.returned == returned
      requires cdc.queued == (if rx.connected then queued + op.buffer else queued) && op.start == |queued|
      ensures After(Call(ApiCall.Send(op.buffer)), Posted(op), rx, received, queued, returned)
    {
    }

    // ---- one event ----

    method ChangeTerminalConnected(on: bool) returns (ghost f: Effect, ghost k: nat)
      requires Valid()
      modifies cdc, cdc.txBuffer, cdc.txList
      ensures Valid() && cdc.sent == old(cdc.sent) && cdc.outStarted == old(cdc.outStarted)
      ensures f == if on then NoEffect else CutOff(|old(cdc.queued)| - |cdc.sent|)
      ensures After(SetControlLineState(on), f, old(RxView()), old(cdc.received), old(cdc.queued), old(returned))
      ensures k <= |old(cdc.txList)| && cdc.txList == old(cdc.txList)[k..]
      ensures FirstFinished(old(cdc.txList), k, on, cdc.sent)
      ensures !on ==> cdc.txList == []
    {
      f, k := NoEffect, 0;
      if !on {
        f, k := CutOff(|cdc.queued| - |cdc.sent|), |cdc.txList|;
      }
      cdc.ChangeTerminalConnected(on);
    }

    method Reset(cancelled: bool) returns (ghost f: Effect, ghost k: nat)
      requires Valid()
      modifies cdc, cdc.txBuffer, cdc.txList
      ensures Valid() && cdc.sent == old(cdc.sent) && cdc.outStarted == (old(cdc.outStarted) && !cancelled)
      ensures f == CutOff(|old(cdc.queued)| - |cdc.sent|)
      ensures After(BusReset(cancelled), f, old(RxView()), old(cdc.received), old(cdc.queued), old(returned))
      ensures k <= |old(cdc.txList)| && cdc.txList == old(cdc.txList)[k..]
      ensures FirstFinished(old(cdc.txList), k, false, cdc.sent)
      ensures cdc.txList == []
    {
      f, k := CutOff(|cdc.queued| - |cdc.sent|), |cdc.txList|;
      cdc.CallbackReset(cancelled);
    }

    /** The host answers a started OUT transfer. */
    method Deliver(packet: seq<uint8>)
      requires Valid()
      modifies cdc`rxList, cdc`rxBuf, cdc`rxSize, cdc`outStarted, cdc`rxInProgress, cdc`taken, cdc`received
      modifies cdc.rxBuffer, rxBuffer, rxBuffer.aucBuffer
      ensures Valid()
      ensures After(PacketArrives(packet), NoEffect, old(RxView()), old(cdc.received), old(cdc.queued), old(returned))
    {
      if cdc.outStarted && |packet| <= CDC_MAX_PACKET_SIZE {
        ReceiveIsr(packet);
      }
    }

    /** The host selects the configuration, while no received byte waits. */
    method SelectConfiguration()
      requires Valid()
      modifies cdc`outStarted, cdc`rxInProgress
      ensures Valid() && (cdc.rxSize == 0 ==> cdc.outStarted)
      ensures After(SetConfiguration, NoEffect, old(RxView()), old(cdc.received), old(cdc.queued), old(returned))
    {
      if cdc.rxSize == 0 {
        cdc.CallbackSetConfiguration();
      }
    }

    /** A host-side event, as far as the environment can produce it in this state: packets answer a started
        OUT transfer, and the configuration is selected while no received byte waits. */
    method HostStep(e: Event) returns (ghost f: Effect, ghost k: nat)
      requires Valid() && !e.Call?
      modifies cdc, cdc.txBuffer, cdc.txList, cdc.rxBuffer, rxBuffer, rxBuffer.aucBuffer
      ensures Valid() && old(cdc.sent) <= cdc.sent
      ensures After(e, f, old(RxView()), old(cdc.received), old(cdc.queued), old(returned))
      ensures k <= |old(cdc.txList)| && cdc.txList == old(cdc.txList)[k..]
      ensures FirstFinished(old(cdc.txList), k, !Disconnects(e), cdc.sent)
      ensures Disconnects(e) ==> cdc.txList == []
      ensures e.TransferDone? && old(cdc.txList) != [] ==> |cdc.sent| + k > |old(cdc.sent)|
    {
      f, k := NoEffect, 0;
      match e {
        case PacketArrives(packet) =>
          Deliver(packet);
        case TransferDone =>
          k := SendIsr();
        case SetControlLineState(dtr) =>
          f, k := ChangeTerminalConnected(dtr);
        case BusReset(cancelled) =>
          f, k := Reset(cancelled);
        case SetConfiguration =>
          SelectConfiguration();
        case Call(_) =>
      }
    }

    /** A call of the program that takes bytes or asks for them. */
    method ReaderStep(e: Event) returns (value: int, ghost f: Effect)
      requires Valid() && e.Call? && !e.call.Send?
      modifies this
      modifies cdc`rxBuf, cdc`rxSize, cdc`outStarted, cdc`rxInProgress, cdc`taken, rxBuffer, rxBuffer.aucBuffer
      ensures Valid() && !f.Posted? && (f.Returned? ==> f.value == value)
      ensures After(e, f, old(RxView()), old(cdc.received), old(cdc.queued), old(returned))
    {
      value, f := 0, NoEffect;
      match e.call {
        case Begin =>
          Begin();
        case Available =>
          value := Available();
          f := Returned(value);
        case Peek =>
          value := Peek();
          f := Returned(value);
        case Read =>
          value := Read();
          f := Returned(value);
        case Send(_) =>
      }
    }

    /** A call of the program. */
    method CallStep(e: Event) returns (value: int, ghost f: Effect)
      requires Valid() && e.Call?
      modifies this, cdc, cdc.txBuffer, rxBuffer, rxBuffer.aucBuffer
      ensures Valid() && old(cdc.sent) <= cdc.sent
      ensures After(e, f, old(RxView()), old(cdc.received), old(cdc.queued), old(returned))
      ensures cdc.txList == old(cdc.txList) + Joining(f)
      ensures f.Posted? ==> fresh(f.op) && Accounted(f.op, cdc.txList, cdc.sent, !cdc.connected)
      ensures f.Returned? ==> f.value == value
    {
      if e.call.Send? {
        value := 0;
        var op := Post(e.call.buffer);
        f := Posted(op);
      } else {
        value, f := ReaderStep(e);
      }
    }

    /** Any event. */
    method AnyStep(e: Event) returns (value: int, ghost f: Effect, ghost k: nat)
      requires Valid()
      modifies this, cdc, cdc.txBuffer, cdc.txList, cdc.rxBuffer, rxBuffer, rxBuffer.aucBuffer
      ensures Valid() && old(cdc.sent) <= cdc.sent
      ensures After(e, f, old(RxView()), old(cdc.received), old(cdc.queued), old(returned))
      ensures cdc.connected == ConnectedAfter(e, old(cdc.connected))
      ensures k <= |old(cdc.txList)| && cdc.txList == old(cdc.txList)[k..] + Joining(f)
      ensures FirstFinished(old(cdc.txList), k, !Disconnects(e), cdc.sent) && (Disconnects(e) ==> cdc.txList == [])
      ensures forall i :: 0 <= i < |cdc.txList| ==> cdc.txList[i] in old(cdc.txList) || fresh(cdc.txList[i])
      ensures f.Posted? ==> fresh(f.op) && Accounted(f.op, cdc.txList, cdc.sent, !cdc.connected)
      ensures f.Returned? ==> f.value == value
      ensures e.TransferDone? && old(cdc.txList) != [] ==> |cdc.sent| + k > |old(cdc.sent)|
    {
      value, k := 0, 0;
      ConnectedFollows(e, RxView());
      if e.Call? {
        value, f := CallStep(e);
        assert old(cdc.txList)[0..] == old(cdc.txList);
      } else {
        f, k := HostStep(e);
      }
      QueueMembers(old(cdc.txList), k, Joining(f), cdc.txList);
    }

    /** Any event. Sends posted before stay accounted for. */
    method Step(e: Event, ghost effects: seq<Effect>, ghost cutOff: seq<bool>)
      returns (value: int, ghost f: Effect, ghost k: nat)
      requires Valid() && |effects| == |cutOff| && AllAccounted(effects, cutOff, cdc.txList, cdc.sent)
      modifies this, cdc, cdc.txBuffer, cdc.txList, cdc.rxBuffer, rxBuffer, rxBuffer.aucBuffer
      ensures Valid() && old(cdc.sent) <= cdc.sent
      ensures After(e, f, old(RxView()), old(cdc.received), old(cdc.queued), old(returned))
      ensures cdc.connected == ConnectedAfter(e, old(cdc.connected))
      ensures k <= |old(cdc.txList)| && cdc.txList == old(cdc.txList)[k..] + Joining(f)
      ensures AllAccounted(effects, OrAll(cutOff, Disconnects(e)), cdc.txList, cdc.sent)
      ensures forall i :: 0 <= i < |cdc.txList| ==> cdc.txList[i] in old(cdc.txList) || fresh(cdc.txList[i])
      ensures f.Posted? ==> fresh(f.op) && Accounted(f.op, cdc.txList, cdc.sent, !cdc.connected)
      ensures f.Returned? ==> f.value == value
      ensures e.TransferDone? && old(cdc.txList) != [] ==> |cdc.sent| + k > |old(cdc.sent)|
      ensures forall i :: 0 <= i < |effects| && effects[i].Posted? && old(Failed(effects[i].op)) ==>
        Failed(effects[i].op)
    {
      value, f, k := AnyStep(e);
      forall i | 0 <= i < |effects| && effects[i].Posted?
        ensures Accounted(effects[i].op, cdc.txList, cdc.sent, cutOff[i] || Disconnects(e))
      {
        ghost var op := effects[i].op;
        if old(op.complete) {
          assert Settled(op, old(cdc.sent), cutOff[i]);
          SettledStays(op, old(cdc.sent), cdc.sent, cutOff[i], cutOff[i] || Disconnects(e));
        } else {
          AccountedMoved(op, old(cdc.txList), k, Joining(f), cdc.txList, cdc.sent, Disconnects(e));
        }
      }
    }

    /** All sends that have not failed end within the queued bytes. */
    lemma EndsQueued(effects: seq<Effect>, cutOff: seq<bool>)
      requires Valid() && |effects| == |cutOff| && AllAccounted(effects, cutOff, cdc.txList, cdc.sent)
      ensures EndBy(effects, |cdc.queued|)
    {
      forall i | 0 <= i < |effects| && effects[i].Posted? && !Failed(effects[i].op)
        ensures effects[i].op.start + |effects[i].op.buffer| <= |cdc.queued|
      {
        var op := effects[i].op;
        assert Accounted(op, cdc.txList, cdc.sent, cutOff[i]);
        if !op.complete {
          var j :| 0 <= j < |cdc.txList| && cdc.txList[j] == op;
          assert Placed(cdc.txList[j], cdc.queued);
        }
      }
    }

    // ---- sending, with the wait ----

    /** The number of sends in front of a waiting one. */
    ghost function Ahead(op: AsyncWrite): int
      reads cdc`marks, cdc`txList
    {
      op.number - (|cdc.marks| - 1 - |cdc.txList|)
    }

    /** A waiting send has not been handed over. */
    lemma NotYetSent(op: AsyncWrite)
      requires Valid() && op in cdc.txList
      ensures 0 <= Ahead(op) < |cdc.txList| && |cdc.sent| <= op.start + |op.buffer|
    {
      var j :| 0 <= j < |cdc.txList| && cdc.txList[j] == op;
      PlaceInQueue(op, cdc.txList, cdc.marks, cdc.queued, j);
      SentBelow(cdc.txList, cdc.marks, cdc.queued, j);
    }

    /** Any event while, or after, op's caller waits. */
    method WaitStep(e: Event, op: AsyncWrite, ghost cutOff: bool)
      requires Valid() && Accounted(op, cdc.txList, cdc.sent, cutOff)
      modifies this, cdc, cdc.txBuffer, cdc.txList, cdc.rxBuffer, rxBuffer, rxBuffer.aucBuffer
      ensures Valid() && old(cdc.sent) <= cdc.sent && cdc.connected == ConnectedAfter(e, old(cdc.connected))
      ensures Accounted(op, cdc.txList, cdc.sent, cutOff || Disconnects(e))
      ensures forall i :: 0 <= i < |cdc.txList| ==> cdc.txList[i] in old(cdc.txList) || fresh(cdc.txList[i])
      ensures !old(op.complete) && Disconnects(e) ==> op.complete && !op.result
      ensures old(op.complete) ==> op.complete && op.result == old(op.result)
      ensures !op.complete ==>
        |cdc.sent| - Ahead(op) >= |old(cdc.sent)| - old(Ahead(op)) + if e.TransferDone? then 1 else 0
    {
      ghost var list, marks, queued := cdc.txList, cdc.marks, cdc.queued;
      var _, f, k := AnyStep(e);
      assert !op.complete ==> Ahead(op) == old(Ahead(op)) - k by {
        if !op.complete {
          MovedUp(op, list, marks, queued, k, Joining(f), cdc.txList, cdc.marks, cdc.queued, cdc.sent, !Disconnects(e));
        }
      }
      assert Accounted(op, cdc.txList, cdc.sent, cutOff || Disconnects(e))
        && (!old(op.complete) && Disconnects(e) ==> op.complete && !op.result) by {
        if old(op.complete) {
          assert Settled(op, old(cdc.sent), cutOff);
          SettledStays(op, old(cdc.sent), cdc.sent, cutOff, cutOff || Disconnects(e));
        } else {
          AccountedMoved(op, old(cdc.txList), k, Joining(f), cdc.txList, cdc.sent, Disconnects(e));
        }
      }
    }

    /** op's caller waits until its operation is complete, and goes on at some time after. Up to then the
        events of the list happen, as far as number `used`. */
    method Await(op: AsyncWrite, events: seq<Event>, ghost cutOff: bool) returns (used: nat)
      requires Valid() && Accounted(op, cdc.txList, cdc.sent, cutOff)
      modifies this, cdc, cdc.txBuffer, cdc.txList, cdc.rxBuffer, rxBuffer, rxBuffer.aucBuffer
      ensures Valid() && old(cdc.sent) <= cdc.sent && used <= |events| && (!op.complete ==> used == |events|)
      ensures Accounted(op, cdc.txList, cdc.sent, cutOff || AnyDisconnect(events[..used]))
      ensures forall i :: 0 <= i < |cdc.txList| ==> cdc.txList[i] in old(cdc.txList) || fresh(cdc.txList[i])
      ensures old(cdc.connected) && !cdc.connected ==> AnyDisconnect(events[..used])
      ensures !old(op.complete) && FirstStops(events) ==> op.complete && !op.result
      ensures old(op.complete) ==> op.complete && op.result == old(op.result)
      ensures !op.complete ==> |cdc.sent| - Ahead(op) >= |old(cdc.sent)| - old(Ahead(op)) + Transfers(events)
    {
      used := 0;
      var late: bool := *;
      while used < |events| && (!op.complete || late)
        invariant Valid() && old(cdc.sent) <= cdc.sent && used <= |events|
        invariant forall i :: 0 <= i < |cdc.txList| ==> cdc.txList[i] in old(cdc.txList) || fresh(cdc.txList[i])
        invariant Accounted(op, cdc.txList, cdc.sent, cutOff || AnyDisconnect(events[..used]))
        invariant old(cdc.connected) && !cdc.connected ==> AnyDisconnect(events[..used])
        invariant !old(op.complete) && FirstStops(events) ==>
          if used == 0 then !op.complete else op.complete && !op.result
        invariant old(op.complete) ==> op.complete && op.result == old(op.result)
        invariant !op.complete ==>
          |cdc.sent| - Ahead(op) >= |old(cdc.sent)| - old(Ahead(op)) + Transfers(events[..used])
      {
        ghost var queue := cdc.txList;
        WaitStep(events[used], op, cutOff || AnyDisconnect(events[..used]));
        forall i | 0 <= i < |cdc.txList| ensures cdc.txList[i] in old(cdc.txList) || fresh(cdc.txList[i]) {
          if cdc.txList[i] in queue {
            var j :| 0 <= j < |queue| && queue[j] == cdc.txList[i];
            assert queue[j] in old(cdc.txList) || fresh(queue[j]);
          }
        }
        OneMore(events, used);
        used := used + 1;
        late := *;
      }
      assert used == |events| ==> events[..used] == events;
    }

    /** The whole of send: the call returns the operation's result once it is complete. */
    method Send(buffer: seq<uint8>, events: seq<Event>) returns (op: AsyncWrite, used: nat)
      requires Valid()
      modifies this, cdc, cdc.txBuffer, cdc.txList, cdc.rxBuffer, rxBuffer, rxBuffer.aucBuffer
      ensures Valid() && old(cdc.sent) <= cdc.sent && fresh(op) && op.buffer == buffer
      ensures used <= |events| && (!op.complete ==> used == |events|)
      ensures Accounted(op, cdc.txList, cdc.sent, !old(cdc.connected) || AnyDisconnect(events[..used]))
      ensures forall i :: 0 <= i < |cdc.txList| ==> cdc.txList[i] in old(cdc.txList) || fresh(cdc.txList[i])
      ensures old(cdc.connected) && !cdc.connected ==> AnyDisconnect(events[..used])
      ensures op.start == |old(cdc.queued)|
      ensures !op.complete ==> Transfers(events) <= |old(cdc.queued)| - |old(cdc.sent)| + |buffer| + |old(cdc.txList)|
      ensures old(cdc.txInProgress) && buffer != [] && FirstStops(events) ==> op.complete && !op.result
    {
      op := Post(buffer);
      ghost var waits := !op.complete;
      if waits {
        NotYetSent(op);
      }
      ghost var posted := cdc.txList;
      used := Await(op, events, !cdc.connected);
      if !op.complete {
        NotYetSent(op);
      }
      forall i | 0 <= i < |cdc.txList| ensures cdc.txList[i] in old(cdc.txList) || fresh(cdc.txList[i]) {
        if cdc.txList[i] in posted {
          var j :| 0 <= j < |posted| && posted[j] == cdc.txList[i];
          assert posted[j] in old(cdc.txList) || fresh(posted[j]);
        }
      }
    }

    /** These sends are over, one behind the other, and were to hand over these bytes. */
    ghost predicate Written(ops: seq<AsyncWrite>, bytes: seq<uint8>, cutOff: bool)
      reads cdc`sent, ops
    {
      Joined(ops) == bytes && PacketSized(ops) && AllSettled(ops, cdc.sent, cutOff) && InOrder(ops)
    }

    /** write: chunks of at most a packet, each waiting for the one before. If the events end before that, a
        send still waits and the call has not returned. The count returned is that of all bytes; it is the
        number of bytes handed over if and only if no send has failed. */
    method Write(buf: seq<uint8>, events: seq<Event>)
      returns (sent: nat, over: seq<AsyncWrite>, waiting: Option<AsyncWrite>, used: nat)
      requires Valid()
      modifies this, cdc, cdc.txBuffer, cdc.txList, cdc.rxBuffer, rxBuffer, rxBuffer.aucBuffer
      ensures Valid() && old(cdc.sent) <= cdc.sent && used <= |events|
      ensures !old(cdc.connected) ==> sent == 0 && over == [] && waiting == None
      ensures old(cdc.connected) ==> sent <= |buf| && (waiting == None <==> sent == |buf|)
      ensures waiting.Some? ==> used == |events| && !waiting.value.complete
      ensures old(cdc.connected) ==> Written(over, buf[..sent], AnyDisconnect(events[..used]))
      ensures FullPackets(over, |buf|)
      ensures old(cdc.connected) && waiting == None ==>
        (sent == |buf| - Missing(over) <==> forall i :: 0 <= i < |over| ==> over[i].result)
      ensures old(cdc.txInProgress) && buf != [] && FirstStops(events) ==>
        over != [] && Failed(over[0])
    {
      if !cdc.connected {
        return 0, [], None, 0;
      }
      sent, over, waiting, used := WriteChunks(buf, events);
      if waiting == None {
        assert buf[..sent] == buf;
        MissingNone(over, cdc.sent, AnyDisconnect(events[..used]));
      }
    }

    /** write of a single byte, by _putc: it returns the byte itself once that is handed over, -1 if the send has
        failed, and nothing yet while the send waits. */
    method WriteByte(c: uint8, events: seq<Event>)
      returns (value: Option<int>, op: Option<AsyncWrite>, used: nat)
      requires Valid()
      modifies this, cdc, cdc.txBuffer, cdc.txList, cdc.rxBuffer, rxBuffer, rxBuffer.aucBuffer
      ensures Valid() && old(cdc.sent) <= cdc.sent && used <= |events|
      ensures !old(cdc.connected) ==> value == Some(0) && op == None
      ensures old(cdc.connected) ==> op.Some? && op.value.buffer == [c] && op.value.start == |old(cdc.queued)|
      ensures old(cdc.connected) ==> Accounted(op.value, cdc.txList, cdc.sent, AnyDisconnect(events[..used]))
      ensures old(cdc.connected) ==>
        value == if !op.value.complete then None else Some(if op.value.result then c else -1)
    {
      if !cdc.connected {
        return Some(0), None, 0;
      }
      var posted;
      posted, used := Send([c], events);
      op := Some(posted);
      value := if posted.complete then Some(if posted.result then c else -1) else None;
    }

    /** The loop of write. */
    method WriteChunks(buf: seq<uint8>, events: seq<Event>)
      returns (sent: nat, over: seq<AsyncWrite>, waiting: Option<AsyncWrite>, used: nat)
      requires Valid() && cdc.connected
      modifies this, cdc, cdc.txBuffer, cdc.txList, cdc.rxBuffer, rxBuffer, rxBuffer.aucBuffer
      ensures Valid() && old(cdc.sent) <= cdc.sent && used <= |events|
      ensures sent <= |buf| && (waiting == None <==> sent == |buf|)
      ensures waiting.Some? ==> used == |events| && !waiting.value.complete
      ensures Written(over, buf[..sent], AnyDisconnect(events[..used])) && FullPackets(over, |buf|)
      ensures old(cdc.txInProgress) && buf != [] && FirstStops(events) ==>
        over != [] && Failed(over[0])
    {
      sent, over, waiting, used := 0, [], None, 0;
      ghost var first := cdc.txInProgress && FirstStops(events);
      while sent < |buf| && waiting == None
        invariant Valid() && old(cdc.sent) <= cdc.sent && Writing(buf, events, sent, over, waiting, used, first)
        invariant forall i :: 0 <= i < |cdc.txList| ==> cdc.txList[i] in old(cdc.txList) || fresh(cdc.txList[i])
        decreases |buf| - sent, if waiting == None then 1 else 0
      {
        sent, over, waiting, used := WriteChunk(buf, events, sent, over, used, first);
      }
    }

    /** How far a write has come. `first` tells that the first event disconnects a transfer in flight. */
    ghost predicate Writing(buf: seq<uint8>, events: seq<Event>, sent: nat, over: seq<AsyncWrite>,
                            waiting: Option<AsyncWrite>, used: nat, first: bool)
      reads cdc`sent, cdc`connected, cdc`txInProgress, over, if waiting.Some? then {waiting.value} else {}
    {
      && sent == Min(64 * |over|, |buf|) && used <= |events| && FullPackets(over, |buf|)
      && Written(over, buf[..sent], AnyDisconnect(events[..used]))
      && (!cdc.connected ==> AnyDisconnect(events[..used]))
      && (waiting.Some? ==> sent < |buf| && used == |events| && !waiting.value.complete)
      && (first ==> if over == [] then FirstStops(events) && sent == used == 0 && waiting == None && cdc.txInProgress
                    else Failed(over[0]))
    }

    /** One turn of the loop of write. */
    method WriteChunk(buf: seq<uint8>, events: seq<Event>, sent0: nat, over0: seq<AsyncWrite>, used0: nat,
                      ghost first: bool)
      returns (sent: nat, over: seq<AsyncWrite>, waiting: Option<AsyncWrite>, used: nat)
      requires Valid() && Writing(buf, events, sent0, over0, None, used0, first) && sent0 < |buf|
      modifies this, cdc, cdc.txBuffer, cdc.txList, cdc.rxBuffer, rxBuffer, rxBuffer.aucBuffer
      ensures Valid() && old(cdc.sent) <= cdc.sent && Writing(buf, events, sent, over, waiting, used, first)
      ensures forall i :: 0 <= i < |cdc.txList| ==> cdc.txList[i] in old(cdc.txList) || fresh(cdc.txList[i])
      ensures if waiting == None then sent > sent0 else sent == sent0
    {
      sent, over, waiting, used := sent0, over0, None, used0;
      var toSend := Min(|buf| - sent, CDC_MAX_PACKET_SIZE);
      ghost var cutOff := AnyDisconnect(events[..used]);
      var op;
      op, used, cutOff := SendNext(buf[sent..sent + toSend], events, used, over, buf[..sent], cutOff);
      if op.complete {
        PrefixGrows(buf, sent, toSend);
        over, sent := over + [op], sent + toSend;
      } else {
        waiting := Some(op);
      }
    }

    /** The next chunk of a write, whose earlier sends are over. */
    method SendNext(chunk: seq<uint8>, events: seq<Event>, from: nat, ops: seq<AsyncWrite>,
                    ghost bytes: seq<uint8>, ghost before: bool)
      returns (op: AsyncWrite, used: nat, ghost cutOff: bool)
      requires Valid() && from <= |events| && 0 < |chunk| <= CDC_MAX_PACKET_SIZE
      requires before == AnyDisconnect(events[..from]) && Written(ops, bytes, before) && (!cdc.connected ==> before)
      modifies this, cdc, cdc.txBuffer, cdc.txList, cdc.rxBuffer, rxBuffer, rxBuffer.aucBuffer
      ensures Valid() && old(cdc.sent) <= cdc.sent && from <= used <= |events| && (!op.complete ==> used == |events|)
      ensures forall i :: 0 <= i < |cdc.txList| ==> cdc.txList[i] in old(cdc.txList) || fresh(cdc.txList[i])
      ensures cutOff == AnyDisconnect(events[..used]) && (!cdc.connected ==> cutOff)
      ensures op.buffer == chunk
      ensures if op.complete then Written(ops + [op], bytes + chunk, cutOff) else Written(ops, bytes, cutOff)
      ensures old(cdc.txInProgress) && FirstStops(events) && from == 0 ==> Failed(op)
      ensures ops != [] && old(Failed(ops[0])) ==> Failed(ops[0])
    {
      var n;
      assert from == 0 ==> events[from..] == events;
      op, n := SendKeeping(chunk, events[from..], ops, before);
      used := from + n;
      EventsSplit(events, from, n);
      cutOff := AnyDisconnect(events[..used]);
      WrittenStays(ops, bytes, old(cdc.sent), before, cutOff);
      assert op.complete ==> Written(ops + [op], bytes + chunk, cutOff) by {
        if op.complete {
          SettledStays(op, cdc.sent, cdc.sent, !old(cdc.connected) || AnyDisconnect(events[from..][..n]), cutOff);
          WrittenSnoc(ops, bytes, op, old(cdc.sent), before, cutOff);
        }
      }
    }

    /** A send while others are over: they stay as they are. */
    method SendKeeping(chunk: seq<uint8>, events: seq<Event>, ops: seq<AsyncWrite>, ghost cutOff: bool)
      returns (op: AsyncWrite, used: nat)
      requires Valid() && AllSettled(ops, cdc.sent, cutOff) && chunk != []
      modifies this, cdc, cdc.txBuffer, cdc.txList, cdc.rxBuffer, rxBuffer, rxBuffer.aucBuffer
      ensures Valid() && old(cdc.sent) <= cdc.sent && op.buffer == chunk && op.start >= |old(cdc.sent)|
      ensures used <= |events| && (!op.complete ==> used == |events|)
      ensures Accounted(op, cdc.txList, cdc.sent, !old(cdc.connected) || AnyDisconnect(events[..used]))
      ensures forall i :: 0 <= i < |cdc.txList| ==> cdc.txList[i] in old(cdc.txList) || fresh(cdc.txList[i])
      ensures old(cdc.connected) && !cdc.connected ==> AnyDisconnect(events[..used])
      ensures old(cdc.txInProgress) && FirstStops(events) ==> Failed(op)
      ensures AllSettled(ops, old(cdc.sent), cutOff) && (old(InOrder(ops)) ==> InOrder(ops))
      ensures ops != [] && old(Failed(ops[0])) ==> Failed(ops[0])
    {
      forall i | 0 <= i < |ops| ensures ops[i] !in cdc.txList && ops[i].complete {
        assert Settled(ops[i], cdc.sent, cutOff);
      }
      op, used := Send(chunk, events);
      forall i | 0 <= i < |ops| ensures Settled(ops[i], old(cdc.sent), cutOff) {
        assert old(Settled(ops[i], cdc.sent, cutOff));
      }
      assert InOrder(ops) == old(InOrder(ops));
    }

    lemma WrittenStays(ops: seq<AsyncWrite>, bytes: seq<uint8>, before: seq<uint8>, cutOff: bool, later: bool)
      requires Joined(ops) == bytes && PacketSized(ops) && AllSettled(ops, before, cutOff) && InOrder(ops)
      requires before <= cdc.sent && (cutOff ==> later)
      ensures Written(ops, bytes, later)
    {
      AllSettledStay(ops, before, cdc.sent, cutOff, later);
    }

    lemma WrittenSnoc(ops: seq<AsyncWrite>, bytes: seq<uint8>, op: AsyncWrite, before: seq<uint8>,
                      cutOff: bool, later: bool)
      requires Written(ops, bytes, later) && AllSettled(ops, before, cutOff) && |before| <= op.start
      requires 0 < |op.buffer| <= CDC_MAX_PACKET_SIZE && Settled(op, cdc.sent, later)
      ensures Written(ops + [op], bytes + op.buffer, later)
    {
      JoinedSnoc(ops, op);
      AllSettledSnoc(ops, op, cdc.sent, later);
      InOrderSnoc(ops, op, before, cutOff);
    }

    // ---- over a run ----

    /** The port is where these events, with these effects and values, have brought it from its start. */
    ghost predicate Recorded(events: seq<Event>, effects: seq<Effect>, values: seq<int>)
      reads this, cdc, rxBuffer, set f | f in effects && f.Posted? :: f.op
    {
      && Happened(events, effects, values) && Values(effects, values) && Apart(effects)
      && RxView() == RxBy(events) && cdc.connected == ConnectedBy(events)
      && cdc.received == ReceivedBy(events)
      && cdc.queued == QueuedBy(events, effects)
      && returned == ReturnedBy(events, values)
      && AllAccounted(effects, CutOffs(events), cdc.txList, cdc.sent)
    }

    /** The next event of a run. */
    method RecordStep(ghost past: seq<Event>, e: Event, ghost effects: seq<Effect>, ghost values: seq<int>)
      returns (value: int, ghost f: Effect)
      requires Valid() && Recorded(past, effects, values)
      modifies this, cdc, cdc.txBuffer, cdc.txList, cdc.rxBuffer, rxBuffer, rxBuffer.aucBuffer
      ensures Valid() && Recorded(past + [e], effects + [f], values + [value])
      ensures forall i :: 0 <= i < |cdc.txList| ==> cdc.txList[i] in old(cdc.txList) || fresh(cdc.txList[i])
    {
      ghost var k, n := 0, |cdc.queued|;
      EndsQueued(effects, CutOffs(past));
      value, f, k := Step(e, effects, CutOffs(past));
      ApartSnoc(effects, f, n);
      RecordGrows(past, e, effects, f, values, value);
    }

    lemma RecordGrows(past: seq<Event>, e: Event, effects: seq<Effect>, f: Effect, values: seq<int>, value: int)
      requires Happened(past, effects, values) && Values(effects, values) && (f.Returned? ==> f.value == value)
      requires Apart(effects + [f])
      requires After(e, f, RxBy(past), ReceivedBy(past), QueuedBy(past, effects), ReturnedBy(past, values))
      requires RxBy(past).connected == ConnectedBy(past) && cdc.connected == ConnectedAfter(e, ConnectedBy(past))
      requires AllAccounted(effects, OrAll(CutOffs(past), Disconnects(e)), cdc.txList, cdc.sent)
      requires f.Posted? ==> Accounted(f.op, cdc.txList, cdc.sent, !ConnectedBy(past))
      ensures Recorded(past + [e], effects + [f], values + [value])
    {
      RunSnoc(past, effects, values, e, f, value);
      CutOffsSnoc(past, e);
      AccountedSnoc(effects, OrAll(CutOffs(past), Disconnects(e)), f, !ConnectedBy(past), cdc.txList, cdc.sent);
      ValuesSnoc(effects, values, f, value);
      ReturnedSnoc(past, values, e, value);
    }

    /** A run goes on with these events, one after the other. */
    method RecordMore(ghost past: seq<Event>, events: seq<Event>, ghost effects0: seq<Effect>, ghost values0: seq<int>)
      returns (values: seq<int>, ghost effects: seq<Effect>)
      requires Valid() && Recorded(past, effects0, values0)
      modifies this, cdc, cdc.txBuffer, cdc.txList, cdc.rxBuffer, rxBuffer, rxBuffer.aucBuffer
      ensures Valid() && Recorded(past + events, effects, values0 + values)
    {
      values, effects := [], effects0;
      ghost var now, all := past, values0;
      NothingYet(past, events, values0);
      for i := 0 to |events|
        invariant Valid() && Recorded(now, effects, all)
        invariant now == past + events[..i] && all == values0 + values
        invariant forall k :: 0 <= k < |cdc.txList| ==> cdc.txList[k] in old(cdc.txList) || fresh(cdc.txList[k])
      {
        var value;
        ghost var f, queue := NoEffect, cdc.txList;
        value, f := RecordStep(now, events[i], effects, all);
        OneMoreEvent(past, events, i, values0, values, value);
        now, all, values, effects := now + [events[i]], all + [value], values + [value], effects + [f];
        forall k | 0 <= k < |cdc.txList| ensures cdc.txList[k] in old(cdc.txList) || fresh(cdc.txList[k]) {
          if cdc.txList[k] in queue {
            var j :| 0 <= j < |queue| && queue[j] == cdc.txList[k];
            assert queue[j] in old(cdc.txList) || fresh(queue[j]);
          }
        }
      }
      EventsGrow(events, |events|);
    }

    method RecordAll(events: seq<Event>) returns (values: seq<int>, ghost effects: seq<Effect>)
      requires Valid() && Recorded([], [], [])
      modifies this, cdc, cdc.txBuffer, cdc.txList, cdc.rxBuffer, rxBuffer, rxBuffer.aucBuffer
      ensures Valid() && Recorded(events, effects, values)
    {
      values, effects := RecordMore([], events, [], []);
      assert [] + events == events && [] + values == values;
    }

    /** The counts tell how much of what was received has been returned. */
    lemma BytesKept(received: seq<uint8>, read: seq<uint8>, rx: Rx)
      requires Valid() && cdc.received == received && returned == read && RxView() == rx
      ensures received == read + rxBuffer.Contents() + cdc.Unread()
      ensures read == Shorter(received, rx.ring + rx.unread)
    {
      NothingLost();
      FrontLeft(received, read, rxBuffer.Contents(), cdc.Unread(), rx);
    }

    lemma BytesKeptOver(events: seq<Event>, values: seq<int>)
      requires Valid() && |events| == |values| && RxView() == RxBy(events)
      requires cdc.received == ReceivedBy(events) && returned == ReturnedBy(events, values)
      ensures ReceivedBy(events) == ReturnedBy(events, values) + rxBuffer.Contents() + cdc.Unread()
      ensures ReturnedBy(events, values) == Shorter(ReceivedBy(events), RxBy(events).ring + RxBy(events).unread)
    {
      BytesKept(ReceivedBy(events), ReturnedBy(events, values), RxBy(events));
    }

    /** What the record of a run amounts to. */
    lemma RunMeans(events: seq<Event>, effects: seq<Effect>, values: seq<int>)
      requires Valid() && Recorded(events, effects, values)
      ensures Happened(events, effects, values) && Values(effects, values) && cdc.connected == ConnectedBy(events)
      ensures ReceivedBy(events) == ReturnedBy(events, values) + rxBuffer.Contents() + cdc.Unread()
      ensures ReturnedBy(events, values) == Shorter(ReceivedBy(events), RxBy(events).ring + RxBy(events).unread)
      ensures cdc.sent <= cdc.queued == QueuedBy(events, effects) && Packets(cdc.packets, cdc.cuts, |cdc.sent|)
    {
      BytesKeptOver(events, values);
    }

    lemma SendsAccounted(events: seq<Event>, effects: seq<Effect>, values: seq<int>)
      requires Recorded(events, effects, values)
      ensures forall i :: 0 <= i < |events| && IsSend(events[i]) ==>
        effects[i].Posted? && Accounted(effects[i].op, cdc.txList, cdc.sent, CutOffSince(events, i))
    {
      forall i | 0 <= i < |events| && IsSend(events[i])
        ensures effects[i].Posted? && Accounted(effects[i].op, cdc.txList, cdc.sent, CutOffSince(events, i))
      {
        assert CouldHave(events[i], effects[i], events[..i], effects[..i], values[..i]);
        assert CutOffs(events)[i] == CutOffSince(events, i);
      }
    }
  }

  /** Any run of the port from its start. Every byte of the packets received is one that read() has returned,
      or waits in the ring or the packet buffer, in order, but for what disconnects have cut off. What was
      handed over is a prefix of what was sent, in packets. Every send is over or waits; it stands where the
      bytes queued before it end, apart from all other sends that have not failed. */
  method Run(events: seq<Event>) returns (port: USBSerial, values: seq<int>, ghost effects: seq<Effect>)
    ensures port.Valid() && Happened(events, effects, values) && Values(effects, values)
    ensures ReceivedBy(events) == ReturnedBy(events, values) + port.rxBuffer.Contents() + port.cdc.Unread()
    ensures ReturnedBy(events, values) == Shorter(ReceivedBy(events), RxBy(events).ring + RxBy(events).unread)
    ensures port.cdc.connected == ConnectedBy(events)
    ensures port.cdc.sent <= port.cdc.queued == QueuedBy(events, effects)
    ensures Packets(port.cdc.packets, port.cdc.cuts, |port.cdc.sent|)
    ensures forall i :: 0 <= i < |events| && IsSend(events[i]) ==>
      effects[i].Posted? && Accounted(effects[i].op, port.cdc.txList, port.cdc.sent, CutOffSince(events, i))
    ensures Apart(effects)
  {
    port := new USBSerial();
    values, effects := port.RecordAll(events);
    port.RunMeans(events, effects, values);
    port.SendsAccounted(events, effects, values);
  }

  /** A run in which write returns a wrong count: it queues a byte behind a transfer in flight, and the
      terminal disconnects. */
  method WriteMiscounts(first: uint8, second: uint8) returns (port: USBSerial, sent: nat, over: seq<AsyncWrite>)
    ensures port.Valid() && sent == 1 && |over| == 1 && over[0].buffer == [second]
    ensures Failed(over[0]) && Missing(over) > 0
  {
    port := InFlight(first);
    var waiting, used;
    var events := [SetControlLineState(false)];
    sent, over, waiting, used := port.Write([second], events);
    assert Disconnects(events[0]);
    OneByteWritten(over, second, sent);
  }

  lemma OneByteWritten(over: seq<AsyncWrite>, second: uint8, sent: nat)
    requires over != [] && sent <= 1 && PacketSized(over) && Joined(over) == [second][..sent]
    ensures sent == 1 && |over| == 1 && over[0].buffer == [second]
  {
    JoinedAtLeast(over);
    assert over[..0] == [] && Joined(over) == Joined(over[..0]) + over[0].buffer;
  }

  /** A connected port, and one with a transfer in flight. */
  method Connected() returns (port: USBSerial)
    ensures fresh(port) && fresh(port.cdc) && fresh(port.rxBuffer)
    ensures fresh(port.cdc.txBuffer) && fresh(port.cdc.rxBuffer) && fresh(port.rxBuffer.aucBuffer)
    ensures port.Valid() && port.cdc.connected && port.cdc.txList == []
  {
    port := new USBSerial();
    var _, _ := port.ChangeTerminalConnected(true);
  }

  method InFlight(first: uint8) returns (port: USBSerial)
    ensures fresh(port) && fresh(port.cdc) && fresh(port.rxBuffer)
    ensures fresh(port.cdc.txBuffer) && fresh(port.cdc.rxBuffer) && fresh(port.rxBuffer.aucBuffer)
    ensures port.Valid() && port.cdc.connected && port.cdc.txInProgress
    ensures forall i :: 0 <= i < |port.cdc.txList| ==> fresh(port.cdc.txList[i])
  {
    port := Connected();
    var _ := port.Post([first]);
  }
}
