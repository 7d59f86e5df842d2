/** The USB CDC data path: queued writes and reads over one packet buffer each (USBCDC.cpp). */
module UsbCdc {
  import opened CTypes

  const CDC_MAX_PACKET_SIZE := 64

  // ---- the transmit stream ----

  /** A queued send: its bytes, and the offset and number of those its caller still wants handed over. */
  class AsyncWrite {
    const buffer: seq<uint8>
    var txBuf: nat
    var txSize: nat
    var result: bool
    var complete: bool
    /** Its number among the sends of its time, and where its bytes stand in the stream of queued bytes. */
    ghost const number: nat
    ghost const start: nat

    constructor (buffer: seq<uint8>, ghost number: nat, ghost start: nat)
      ensures this.buffer == buffer && txBuf == 0 && txSize == |buffer| && !result && !complete
      ensures this.number == number && this.start == start
    {
      this.buffer, txBuf, txSize, result, complete := buffer, 0, |buffer|, false, false;
      this.number, this.start := number, start;
    }
  }

  /** A stream of n bytes in packets of these sizes, one behind the other from these positions on. */
  ghost predicate Packets(sizes: seq<nat>, starts: seq<nat>, n: nat) {
    && |starts| == |sizes| + 1 && starts[0] == 0 && starts[|sizes|] == n
    && forall i {:trigger sizes[i]} :: 0 <= i < |sizes| ==>
         0 < sizes[i] <= CDC_MAX_PACKET_SIZE && starts[i + 1] == starts[i] + sizes[i]
  }

  lemma PacketsSnoc(sizes: seq<nat>, starts: seq<nat>, n: nat, size: nat)
    requires Packets(sizes, starts, n) && 0 < size <= CDC_MAX_PACKET_SIZE
    ensures Packets(sizes + [size], starts + [n + size], n + size)
  {
  }

  /** The bytes stand in the stream from position `at` on. */
  ghost predicate Holds(stream: seq<uint8>, at: nat, bytes: seq<uint8>) {
    at + |bytes| <= |stream| && stream[at..at + |bytes|] == bytes
  }

  lemma HoldsLonger(stream: seq<uint8>, at: nat, bytes: seq<uint8>, more: seq<uint8>)
    requires Holds(stream, at, bytes)
    ensures Holds(stream + more, at, bytes)
  {
  }

  lemma HoldsMore(stream: seq<uint8>, at: nat, bytes: seq<uint8>, more: seq<uint8>)
    requires at + |bytes| == |stream| && Holds(stream, at, bytes)
    ensures Holds(stream + more, at, bytes + more)
  {
    assert (stream + more)[at..] == stream[at..] + more;
  }

  /** The operation's bytes stand in the stream, where they were queued. */
  ghost predicate Placed(op: AsyncWrite, stream: seq<uint8>) {
    Holds(stream, op.start, op.buffer)
  }

  /** Queued operations are numbered without a gap. */
  ghost predicate Numbered(list: seq<AsyncWrite>) {
    forall i {:trigger list[i].number} :: 0 <= i < |list| ==> list[i].number == list[0].number + i
  }

  /** The operations stand one behind the other at the end of the stream; marks are the places where one
      starts, and its end. */
  ghost predicate Chained(list: seq<AsyncWrite>, marks: seq<nat>, stream: seq<uint8>) {
    && |marks| > |list| && marks[|marks| - 1] == |stream|
    && (forall i {:trigger Placed(list[i], stream)} :: 0 <= i < |list| ==> Placed(list[i], stream))
    && (forall i {:trigger list[i].number} :: 0 <= i < |list| ==> list[i].number == |marks| - 1 - |list| + i)
    && (forall i {:trigger list[i].start} :: 0 <= i < |list| ==>
          var n := |marks| - 1 - |list| + i;
          list[i].start == marks[n] && list[i].start + |list[i].buffer| == marks[n + 1])
  }

  /** The operation's next byte is number pos of the stream. */
  ghost predicate NextIs(op: AsyncWrite, pos: nat)
    reads op`txBuf, op`txSize
  {
    pos == op.start + op.txBuf && op.txBuf + op.txSize == |op.buffer|
  }

  /** From number `from` on, the operations have not been started. */
  ghost predicate Unstarted(list: seq<AsyncWrite>, from: nat)
    reads list
  {
    forall i :: from <= i < |list| ==> !list[i].complete && list[i].txBuf == 0 && list[i].txSize == |list[i].buffer|
  }

  /** The first operation is not complete, and wants more bytes unless it never had any. */
  ghost predicate Waiting(list: seq<AsyncWrite>)
    reads list
  {
    && Numbered(list) && Unstarted(list, 1)
    && (list != [] ==> !list[0].complete && (list[0].txSize == 0 ==> list[0].buffer == []))
  }

  /** The operation is complete, with success and all its bytes in the stream if it was connected. */
  ghost predicate Finished(op: AsyncWrite, connected: bool, stream: seq<uint8>)
    reads op
  {
    && op.complete && (op.result <==> connected)
    && if connected then op.txSize == 0 && Placed(op, stream) else op.txSize == 0 ==> op.buffer == []
  }

  ghost predicate FirstFinished(list: seq<AsyncWrite>, k: nat, connected: bool, stream: seq<uint8>)
    requires k <= |list|
    reads list
  {
    forall i {:trigger Finished(list[i], connected, stream)} :: 0 <= i < k ==> Finished(list[i], connected, stream)
  }

  lemma PlacedLonger(op: AsyncWrite, stream: seq<uint8>, longer: seq<uint8>)
    requires Placed(op, stream) && stream <= longer
    ensures Placed(op, longer)
  {
    HoldsLonger(stream, op.start, op.buffer, longer[|stream|..]);
    assert stream + longer[|stream|..] == longer;
  }

  /** What finished operations had placed stays placed. */
  lemma StillFinished(list: seq<AsyncWrite>, k: nat, connected: bool, stream: seq<uint8>, longer: seq<uint8>)
    requires k <= |list| && FirstFinished(list, k, connected, stream) && stream <= longer
    ensures FirstFinished(list, k, connected, longer)
  {
    forall i | 0 <= i < k ensures Finished(list[i], connected, longer) {
      assert Finished(list[i], connected, stream);
      if connected {
        PlacedLonger(list[i], stream, longer);
      }
    }
  }

  lemma ChainedAppend(list: seq<AsyncWrite>, op: AsyncWrite, marks: seq<nat>, stream: seq<uint8>)
    requires Chained(list, marks, stream) && op.number == |marks| - 1 && op.start == |stream|
    ensures Chained(list + [op], marks + [|stream| + |op.buffer|], stream + op.buffer)
  {
    forall i | 0 <= i < |list| ensures Placed(list[i], stream + op.buffer) {
      PlacedLonger(list[i], stream, stream + op.buffer);
    }
    assert Placed(op, stream + op.buffer);
  }

  lemma ChainedPop(list: seq<AsyncWrite>, marks: seq<nat>, stream: seq<uint8>)
    requires Chained(list, marks, stream) && list != []
    ensures Chained(list[1..], marks, stream)
    ensures list[0].start + |list[0].buffer| == if |list| == 1 then |stream| else list[1].start
  {
  }

  lemma WaitingPop(list: seq<AsyncWrite>)
    requires Numbered(list) && Unstarted(list, 1) && list != []
    ensures Waiting(list[1..]) && list[0] !in list[1..]
  {
    var rest := list[1..];
    forall i | 0 <= i < |rest|
      ensures rest[i].number == list[0].number + 1 + i
      ensures !rest[i].complete && rest[i].txBuf == 0 && rest[i].txSize == |rest[i].buffer|
    {
      assert rest[i] == list[i + 1];
    }
  }

  /** The next n bytes of an operation extend what was handed over within what was queued. */
  lemma HandedOver(sent: seq<uint8>, queued: seq<uint8>, buffer: seq<uint8>, txBuf: nat, n: nat)
    requires sent <= queued && txBuf + n <= |buffer| && txBuf <= |sent| && Holds(queued, |sent| - txBuf, buffer)
    ensures sent + buffer[txBuf..txBuf + n] <= queued
  {
    var at := |sent| - txBuf;
    var all := sent + buffer[txBuf..txBuf + n];
    forall k | 0 <= k < |all| ensures all[k] == queued[k] {
      if k >= |sent| {
        var j := txBuf + (k - |sent|);
        assert buffer[j] == queued[at..at + |buffer|][j];
      }
    }
  }

  /** What is placed within what was queued, and ends within what was handed over, is placed there. */
  lemma PlacedInPrefix(op: AsyncWrite, sent: seq<uint8>, queued: seq<uint8>)
    requires Placed(op, queued) && sent <= queued && op.start + |op.buffer| <= |sent|
    ensures Placed(op, sent)
  {
    var end := op.start + |op.buffer|;
    assert sent[op.start..end] == queued[op.start..end];
  }

  // ---- the receive stream ----

  /** A queued receive: what it got so far and how much more it wants. */
  class AsyncRead {
    const size: nat
    const all: bool
    var got: seq<uint8>
    var rxSize: nat
    var result: bool
    var complete: bool
    /** Its number, and where its first byte stands in the stream of bytes taken out of the packet buffer. */
    ghost const number: nat
    ghost var from: nat

    constructor (size: nat, all: bool, ghost number: nat)
      ensures this.size == rxSize == size && this.all == all && got == [] && !result && !complete
      ensures this.number == number
    {
      this.size, this.all, this.number := size, all, number;
      got, rxSize, result, complete := [], size, false, false;
    }
  }

  /** The operation got consecutive bytes of the stream, and no more than it asked for. */
  ghost predicate Obtained(op: AsyncRead, taken: seq<uint8>)
    reads op
  {
    |op.got| + op.rxSize == op.size && (op.got != [] ==> Holds(taken, op.from, op.got))
  }

  /** The bytes the operation has got are the last ones taken. */
  ghost predicate Continues(op: AsyncRead, taken: seq<uint8>)
    reads op
  {
    Obtained(op, taken) && (op.got != [] ==> op.from + |op.got| == |taken|)
  }

  /** All it asked for, or anything at all when that is enough. */
  ghost predicate Enough(op: AsyncRead)
    reads op
  {
    op.rxSize == 0 || (!op.all && op.got != [])
  }

  /** The operation is complete, with success and the bytes it wanted if it was connected. */
  ghost predicate Answered(op: AsyncRead, connected: bool, taken: seq<uint8>)
    reads op
  {
    op.complete && (op.result <==> connected) && (connected ==> Obtained(op, taken) && Enough(op))
  }

  ghost predicate FirstAnswered(list: seq<AsyncRead>, k: nat, connected: bool, taken: seq<uint8>)
    requires k <= |list|
    reads list
  {
    forall i {:trigger Answered(list[i], connected, taken)} :: 0 <= i < k ==> Answered(list[i], connected, taken)
  }

  lemma StillAnswered(list: seq<AsyncRead>, k: nat, connected: bool, taken: seq<uint8>, more: seq<uint8>)
    requires k <= |list| && FirstAnswered(list, k, connected, taken)
    ensures FirstAnswered(list, k, connected, taken + more)
  {
    forall i | 0 <= i < k ensures Answered(list[i], connected, taken + more) {
      assert Answered(list[i], connected, taken);
      if connected && list[i].got != [] {
        HoldsLonger(taken, list[i].from, list[i].got, more);
      }
    }
  }

  ghost predicate Untouched(list: seq<AsyncRead>, from: nat)
    reads list
  {
    forall i :: from <= i < |list| ==> !list[i].complete && list[i].got == [] && list[i].rxSize == list[i].size
  }

  ghost predicate ReadsNumbered(list: seq<AsyncRead>) {
    forall i {:trigger list[i].number} :: 0 <= i < |list| ==> list[i].number == list[0].number + i
  }

  /** Only the first reader may have got bytes already. */
  ghost predicate Reading(list: seq<AsyncRead>)
    reads list
  {
    ReadsNumbered(list) && Untouched(list, 1) && (list != [] ==> !list[0].complete)
  }

  lemma ReadingPop(list: seq<AsyncRead>, taken: seq<uint8>)
    requires ReadsNumbered(list) && Untouched(list, 1) && list != []
    ensures Reading(list[1..]) && list[0] !in list[1..]
    ensures |list| > 1 ==> Continues(list[1], taken)
  {
    var rest := list[1..];
    forall i | 0 <= i < |rest|
      ensures rest[i].number == list[0].number + 1 + i
      ensures !rest[i].complete && rest[i].got == [] && rest[i].rxSize == rest[i].size
    {
      assert rest[i] == list[i + 1];
    }
  }

  lemma SplitUnread(buffer: seq<uint8>, from: nat, size: nat, n: nat, taken: seq<uint8>)
    requires n <= size && from + size <= |buffer|
    ensures buffer[from..from + size] == buffer[from..from + n] + buffer[from + n..from + size]
    ensures buffer[from..from + n] == buffer[from..from + size][..n]
    ensures taken + buffer[from..from + size] == (taken + buffer[from..from + n]) + buffer[from + n..from + size]
  {
    var all, left, right := buffer[from..from + size], buffer[from..from + n], buffer[from + n..from + size];
    assert all == left + right;
    assert taken + (left + right) == (taken + left) + right;
    assert left == all[..n];
  }

  lemma NothingQueued()
    ensures Packets([], [0], 0) && Chained([], [0], [])
  {
  }

  class USBCDC {
    var connected: bool

    var txList: seq<AsyncWrite>
    var txInProgress: bool
    const txBuffer: array<uint8>
    var txSize: nat

    var rxList: seq<AsyncRead>
    var rxInProgress: bool
    const rxBuffer: array<uint8>
    var rxBuf: nat     // offset of the unread bytes in rxBuffer
    var rxSize: nat

    /** The USB stack holds a started OUT transfer. */
    var outStarted: bool

    // The bytes given to the USB stack, the sizes of the packets, and where they start.
    ghost var sent: seq<uint8>
    ghost var packets: seq<nat>
    ghost var cuts: seq<nat>

    // The bytes of all sends in queue order, without those a disconnect has cut off, and where sends start.
    ghost var queued: seq<uint8>
    ghost var marks: seq<nat>

    // The bytes received, without those a disconnect has cut off, and those taken out of the packet buffer.
    ghost var received: seq<uint8>
    ghost var taken: seq<uint8>

    ghost predicate Buffers() {
      txBuffer.Length == rxBuffer.Length == CDC_MAX_PACKET_SIZE && txBuffer != rxBuffer
    }

    ghost predicate TxFlags()
      reads this`connected, this`txInProgress, this`txSize
    {
      txSize <= CDC_MAX_PACKET_SIZE && (txInProgress <==> txSize > 0) && (txInProgress ==> connected)
    }

    ghost predicate Chunked()
      reads this`packets, this`cuts, this`sent
    {
      Packets(packets, cuts, |sent|)
    }

    /** The bytes handed over and those the list still wants make up what was queued, in order. */
    ghost predicate TxStream()
      reads this`txList, this`sent, this`queued, this`marks, txList
    {
      && sent <= queued && Chained(txList, marks, queued)
      && if txList == [] then |sent| == |queued| else NextIs(txList[0], |sent|)
    }

    /** Between steps, sends wait only behind a transfer in flight. */
    ghost predicate TxValid()
      reads this`connected, this`txList, this`txInProgress, this`txSize, this`packets, this`cuts, this`sent, this`queued
      reads this`marks, txList
    {
      TxFlags() && Chunked() && Waiting(txList) && TxStream() && (txList != [] ==> txInProgress)
    }

    ghost function Unread(): seq<uint8>
      requires Buffers() && rxBuf + rxSize <= CDC_MAX_PACKET_SIZE
      reads this`rxBuf, this`rxSize, rxBuffer
    {
      rxBuffer[rxBuf..rxBuf + rxSize]
    }

    ghost predicate RxFlags()
      reads this`rxInProgress, this`rxBuf, this`rxSize, this`outStarted
    {
      && rxBuf + rxSize <= CDC_MAX_PACKET_SIZE
      && (rxInProgress ==> outStarted)
      && (outStarted ==> rxSize == 0)
      && (rxSize == 0 && !outStarted ==> rxBuf == 0)
    }

    /** The bytes taken out and the unread part of the buffer make up what was received, in order. */
    ghost predicate RxStream()
      requires Buffers() && rxBuf + rxSize <= CDC_MAX_PACKET_SIZE
      reads this`rxBuf, this`rxSize, this`received, this`taken, rxBuffer
    {
      received == taken + Unread()
    }

    ghost predicate HeadReads()
      reads this`rxList, this`taken, rxList
    {
      Reading(rxList) && (rxList != [] ==> Continues(rxList[0], taken))
    }

    /** Between steps, receives wait only behind a read in progress. */
    ghost predicate RxValid()
      requires Buffers()
      reads this`connected, this`rxList, this`rxInProgress, this`rxBuf, this`rxSize, this`outStarted
      reads this`received, this`taken, rxBuffer, rxList
    {
      RxFlags() && RxStream() && HeadReads() && (rxList != [] ==> connected && rxInProgress)
    }

    ghost predicate Valid()
      reads this, txList, rxList, rxBuffer
    {
      Buffers() && TxValid() && RxValid()
    }

    constructor ()
      ensures Valid() && fresh(txBuffer) && fresh(rxBuffer)
      ensures !connected && txList == [] && rxList == [] && !rxInProgress && !outStarted && rxSize == 0
      ensures queued == [] && sent == [] && packets == [] && received == [] && taken == []
    {
      connected := false;
      txList, txInProgress, txSize := [], false, 0;
      rxList, rxInProgress, rxBuf, rxSize := [], false, 0, 0;
      outStarted := false;
      txBuffer := new uint8[64];
      rxBuffer := new uint8[64];
      sent, packets, cuts, queued, marks := [], [], [0], [], [0];
      received, taken := [], [];
      new;
      StartValid();
    }

    lemma StartValid()
      requires Buffers() && !connected && !txInProgress && !rxInProgress && !outStarted
      requires txList == [] && rxList == [] && txSize == rxSize == rxBuf == 0
      requires sent == [] && packets == [] && cuts == [0] && queued == [] && marks == [0]
      requires received == [] && taken == []
      ensures Valid()
    {
      NothingQueued();
    }

    // ---- transmit ----

    /** Hands the filled part of the buffer to the USB stack, which accepts it when nothing is in flight. */
    method SendIsrStart(ghost data: seq<uint8>)
      requires Buffers() && Chunked() && txSize <= CDC_MAX_PACKET_SIZE && data == txBuffer[..txSize]
      modifies this`txInProgress, this`packets, this`cuts, this`sent
      ensures Chunked() && (txInProgress <==> old(txInProgress) || txSize > 0)
      ensures old(txInProgress) || txSize == 0 ==> sent == old(sent) && packets == old(packets)
      ensures !old(txInProgress) && txSize > 0 ==> sent == old(sent) + data && packets == old(packets) + [|data|]
    {
      if !txInProgress && txSize > 0 {
        PacketsSnoc(packets, cuts, |sent|, txSize);
        packets := packets + [txSize];
        sent := sent + txBuffer[..txSize];
        cuts := cuts + [|sent|];
        txInProgress := true;
      }
    }

    /** send_nb with immediate start: as many bytes as the packet buffer takes, none without a connection
        or while a transfer is in flight. */
    method SendNb(buffer: seq<uint8>) returns (actual: nat)
      requires Buffers() && TxFlags() && Chunked()
      modifies this`txSize, this`txInProgress, this`packets, this`cuts, this`sent, txBuffer
      ensures TxFlags() && Chunked()
      ensures actual == if connected && !old(txInProgress) then Min(|buffer|, CDC_MAX_PACKET_SIZE) else 0
      ensures sent == old(sent) + buffer[..actual]
      ensures packets == if actual > 0 then old(packets) + [actual] else old(packets)
      ensures txInProgress <==> old(txInProgress) || actual > 0
    {
      actual := 0;
      if connected && !txInProgress {
        var free := CDC_MAX_PACKET_SIZE - txSize;
        var writeSize := if free > |buffer| then |buffer| else free;
        FillTxBuffer(buffer[..writeSize]);
        txSize := txSize + writeSize;
        actual := writeSize;
        SendIsrStart(buffer[..writeSize]);
      }
    }

    method FillTxBuffer(data: seq<uint8>)
      requires |data| <= txBuffer.Length
      modifies txBuffer
      ensures txBuffer[..|data|] == data
    {
      forall i | 0 <= i < |data| {
        txBuffer[i] := data[i];
      }
    }

    /** The head of the queue hands over what the packet buffer takes. */
    method HandOver(op: AsyncWrite) returns (actual: nat)
      requires Buffers() && TxFlags() && Chunked() && connected
      requires sent <= queued && Placed(op, queued) && NextIs(op, |sent|)
      modifies this`txSize, this`txInProgress, this`packets, this`cuts, this`sent, txBuffer, op`txBuf, op`txSize
      ensures TxFlags() && Chunked() && sent <= queued && NextIs(op, |sent|)
      ensures actual == if old(txInProgress) then 0 else Min(old(op.txSize), CDC_MAX_PACKET_SIZE)
      ensures op.txSize == old(op.txSize) - actual && old(sent) <= sent && |sent| == |old(sent)| + actual
      ensures (txInProgress <==> old(txInProgress) || actual > 0)
    {
      ghost var before, txBuf := sent, op.txBuf;
      actual := SendNb(op.buffer[op.txBuf..]);
      HandedOver(before, queued, op.buffer, txBuf, actual);
      assert op.buffer[txBuf..][..actual] == op.buffer[txBuf..txBuf + actual];
      op.txSize := op.txSize - actual;
      op.txBuf := op.txBuf + actual;
    }

    /** AsyncWrite::process. Not done, it waits for a transfer in flight. */
    method ProcessWrite(op: AsyncWrite) returns (done: bool)
      requires Buffers() && TxFlags() && Chunked()
      requires connected ==> sent <= queued && Placed(op, queued) && NextIs(op, |sent|)
      modifies this`txSize, this`txInProgress, this`packets, this`cuts, this`sent, txBuffer, op`txBuf
      modifies op`txSize, op`result
      ensures TxFlags() && Chunked()
      ensures connected ==> sent <= queued && NextIs(op, |sent|) && (done <==> op.txSize == 0)
      ensures done ==> (op.result <==> connected)
      ensures !connected ==> done && op.txSize == old(op.txSize) && sent == old(sent)
      ensures old(sent) <= sent && |sent| <= |old(sent)| + old(op.txSize)
      ensures !done ==> txInProgress && (old(txInProgress) || |sent| > |old(sent)|)
      ensures old(txInProgress) ==> txInProgress
      ensures connected && old(op.txSize) > 0 ==> txInProgress && (old(txInProgress) ==> !done)
    {
      if !connected {
        op.result := false;
        return true;
      }
      var _ := HandOver(op);
      done := op.txSize == 0;
      if done {
        op.result := true;
      }
    }

    /** One turn of OperationList::process: a finished head leaves the queue. */
    method ProcessHead() returns (done: bool)
      requires Buffers() && TxFlags() && Chunked() && Waiting(txList) && txList != [] && (connected ==> TxStream())
      modifies this`txList, this`txSize, this`txInProgress, this`packets, this`cuts, this`sent, txBuffer, txList[0]
      ensures TxFlags() && Chunked() && Waiting(txList) && (connected ==> TxStream())
      ensures txList == if done then old(txList)[1..] else old(txList)
      ensures done ==> Finished(old(txList[0]), connected, sent)
      ensures old(sent) <= sent && (!connected ==> done && sent == old(sent))
      ensures !done ==> txInProgress && (old(txInProgress) || |sent| > |old(sent)|)
      ensures old(txInProgress) ==> txInProgress
      ensures connected && old(txList[0].txSize) > 0 ==> txInProgress && (old(txInProgress) ==> !done)
    {
      var op := txList[0];
      ghost var list := txList;
      assert forall i {:trigger list[i]} :: 1 <= i < |list| ==> list[i].number != op.number;
      assert connected ==> Placed(op, queued);
      done := ProcessWrite(op);
      assert Unstarted(list, 1);
      if done {
        PopTx(op);
      }
    }

    /** The finished head leaves the queue. */
    method PopTx(op: AsyncWrite)
      requires txList != [] && op == txList[0] && Numbered(txList) && Unstarted(txList, 1)
      requires connected ==> sent <= queued && Chained(txList, marks, queued) && NextIs(op, |sent|) && op.txSize == 0
      modifies this`txList, op`complete
      ensures op.complete && Waiting(txList) && txList == old(txList)[1..]
      ensures connected ==> TxStream() && Placed(op, sent)
    {
      WaitingPop(txList);
      if connected {
        assert Placed(op, queued);
        ChainedPop(txList, marks, queued);
        PlacedInPrefix(op, sent, queued);
      }
      txList := txList[1..];
      op.complete := true;
    }

    /** The next head, those before it being finished. */
    method ProcessNext(ghost all: seq<AsyncWrite>, ghost k: nat) returns (done: bool)
      requires Buffers() && TxFlags() && Chunked() && Waiting(txList) && txList != [] && (connected ==> TxStream())
      requires Numbered(all) && k < |all| && txList == all[k..] && FirstFinished(all, k, connected, sent)
      modifies this`txList, this`txSize, this`txInProgress, this`packets, this`cuts, this`sent, txBuffer, all[k]
      ensures TxFlags() && Chunked() && Waiting(txList) && (connected ==> TxStream())
      ensures txList == (if done then all[k + 1..] else all[k..])
      ensures FirstFinished(all, if done then k + 1 else k, connected, sent)
      ensures old(sent) <= sent && (!connected ==> done && sent == old(sent))
      ensures !done ==> txInProgress && (old(txInProgress) || |sent| > |old(sent)|)
      ensures old(txInProgress) ==> txInProgress
      ensures connected && old(all[k].txSize) > 0 ==> txInProgress && (old(txInProgress) ==> !done)
    {
      assert txList[0] == all[k];
      done := ProcessHead();
      assert FirstFinished(all, k, connected, old(sent));
      StillFinished(all, k, connected, old(sent), sent);
    }

    /** OperationList::process: completes operations from the head on, until one is not finished. */
    method ProcessTx() returns (ghost k: nat)
      requires Buffers() && TxFlags() && Chunked() && Waiting(txList) && (connected ==> TxStream())
      modifies this`txList, this`txSize, this`txInProgress, this`packets, this`cuts, this`sent, txBuffer, txList
      ensures TxFlags() && Chunked() && Waiting(txList) && (connected ==> TxStream())
      ensures k <= |old(txList)| && txList == old(txList)[k..] && (txList != [] ==> txInProgress)
      ensures FirstFinished(old(txList), k, connected, sent)
      ensures old(sent) <= sent
      ensures !connected ==> txList == [] && sent == old(sent)
      ensures !old(txInProgress) && old(txList) != [] ==> |sent| + k > |old(sent)|
      ensures connected && old(txList) != [] && old(txList[0].txSize) > 0 ==>
        txInProgress && (old(txInProgress) ==> k == 0)
    {
      k := 0;
      ghost var all := txList;
      ghost var first := connected && all != [] && all[0].txSize > 0;
      while txList != []
        invariant k <= |all| && txList == all[k..]
        invariant TxFlags() && Chunked() && Waiting(txList) && (connected ==> TxStream())
        invariant FirstFinished(all, k, connected, sent)
        invariant old(sent) <= sent && (!connected ==> sent == old(sent))
        invariant k == 0 ==> txInProgress == old(txInProgress)
        invariant first ==> if k == 0 then all[0].txSize > 0 else txInProgress && !old(txInProgress)
        decreases |txList|
      {
        var done := ProcessNext(all, k);
        if !done {
          break;
        }
        k := k + 1;
      }
    }

    /** OperationList::add: the operation is processed at once if nothing is in front of it. */
    method AddWrite(op: AsyncWrite)
      requires Buffers() && TxValid() && NextUp(op) && !op.complete
      requires op.txBuf == 0 && op.txSize == |op.buffer|
      modifies this`txList, this`txSize, this`txInProgress, this`packets, this`cuts, this`sent, this`queued
      modifies this`marks, txBuffer, op
      ensures TxValid() && old(sent) <= sent
      ensures queued == if connected then old(queued) + op.buffer else old(queued)
      ensures if op.complete then Finished(op, connected, sent) && txList == old(txList)
              else connected && txList == old(txList) + [op]
      ensures connected && op.buffer != [] ==> txInProgress && (old(txInProgress) ==> !op.complete)
    {
      if txList == [] {
        Enqueue(op);
        ProcessOnly(op);
      } else {
        Enqueue(op);
      }
    }

    method ProcessOnly(op: AsyncWrite)
      requires Buffers() && TxFlags() && Chunked() && Waiting(txList) && txList == [op] && (connected ==> TxStream())
      modifies this`txList, this`txSize, this`txInProgress, this`packets, this`cuts, this`sent, txBuffer, op
      ensures TxFlags() && Chunked() && Waiting(txList) && (connected ==> TxStream())
      ensures old(sent) <= sent && (!connected ==> sent == old(sent)) && (txList != [] ==> txInProgress)
      ensures if op.complete then Finished(op, connected, sent) && txList == [] else connected && txList == [op]
      ensures connected && old(op.txSize) > 0 ==> txInProgress && (old(txInProgress) ==> !op.complete)
    {
      var k := ProcessTx();
      if k == 0 {
        assert txList == [op] && !txList[0].complete;
      } else {
        assert k == 1 && txList == [];
        assert Finished(old(txList)[0], connected, sent);
      }
    }

    /** The operation carries the next number and starts at the end of the queued bytes. */
    ghost predicate NextUp(op: AsyncWrite)
      reads this`marks, this`queued
    {
      op.number == |marks| - 1 && op.start == |queued|
    }

    method Enqueue(op: AsyncWrite)
      requires Buffers() && TxValid() && NextUp(op) && !op.complete
      requires op.txBuf == 0 && op.txSize == |op.buffer|
      modifies this`txList, this`queued, this`marks
      ensures Waiting(txList) && txList == old(txList) + [op] && (connected ==> TxStream())
      ensures !connected ==> marks == old(marks)
      ensures queued == if connected then old(queued) + op.buffer else old(queued)
    {
      if connected {
        ChainedAppend(txList, op, marks, queued);
        marks := marks + [|queued| + |op.buffer|];
        queued := queued + op.buffer;
      }
      txList := txList + [op];
    }

    /** send, up to the point where its caller starts waiting. */
    method Send(buffer: seq<uint8>) returns (op: AsyncWrite)
      requires Valid()
      modifies this`txList, this`txSize, this`txInProgress, this`packets, this`cuts, this`sent, this`queued
      modifies this`marks, txBuffer
      ensures Valid() && fresh(op) && op.buffer == buffer && old(sent) <= sent
      ensures queued == if connected then old(queued) + buffer else old(queued)
      ensures if op.complete then Finished(op, connected, sent) && txList == old(txList)
              else connected && txList == old(txList) + [op]
      ensures connected && buffer != [] ==> txInProgress && (old(txInProgress) ==> !op.complete)
      ensures op.start == |old(queued)|
    {
      op := new AsyncWrite(buffer, |marks| - 1, |queued|);
      AddWrite(op);
      assert RxValid() == old(RxValid());
    }

    /** The transmit side of _send_isr. */
    method TxDone() returns (ghost k: nat)
      requires Buffers() && TxValid()
      modifies this`txList, this`txSize, this`txInProgress, this`packets, this`cuts, this`sent, txBuffer, txList
      ensures TxValid() && old(sent) <= sent
      ensures k <= |old(txList)| && txList == old(txList)[k..] && FirstFinished(old(txList), k, true, sent)
      ensures old(txList) != [] ==> |sent| + k > |old(sent)|
    {
      txSize := 0;
      txInProgress := false;
      k := ProcessTx();
    }

    /** The transfer in flight has reached the host. */
    method SendIsr() returns (ghost k: nat)
      requires Valid()
      modifies this`txList, this`txSize, this`txInProgress, this`packets, this`cuts, this`sent, txBuffer, txList
      ensures Valid() && old(sent) <= sent
      ensures k <= |old(txList)| && txList == old(txList)[k..] && FirstFinished(old(txList), k, true, sent)
      ensures old(txList) != [] ==> |sent| + k > |old(sent)|
    {
      k := TxDone();
      assert RxValid() == old(RxValid());
    }

    // ---- receive ----

    /** Asks the USB stack for the next packet; a read already started there stays the only one. */
    method ReceiveIsrStart()
      requires rxInProgress ==> outStarted
      modifies this`outStarted, this`rxInProgress
      ensures rxSize == 0 ==> outStarted && rxInProgress
      ensures rxSize != 0 ==> outStarted == old(outStarted) && rxInProgress == old(rxInProgress)
    {
      if rxSize == 0 && !rxInProgress {
        outStarted := true;
        rxInProgress := true;
      }
    }

    /** Takes up to `size` bytes out of the packet buffer, and asks for the next packet once it is empty. */
    method ReceiveNb(size: nat) returns (data: seq<uint8>)
      requires Buffers() && RxFlags() && RxStream()
      modifies this`rxBuf, this`rxSize, this`outStarted, this`rxInProgress, this`taken
      ensures RxFlags() && RxStream() && taken == old(taken) + data
      ensures !connected || old(rxInProgress) ==>
        data == [] && RxUnchanged(old(rxBuf), old(rxSize), old(rxInProgress), old(outStarted))
      ensures connected && !old(rxInProgress) ==>
        data == old(Unread())[..Min(old(rxSize), size)] && rxSize == old(rxSize) - |data|
        && (rxSize == 0 ==> rxInProgress)
    {
      data := [];
      if connected && !rxInProgress {
        data := CopyOut(if rxSize > size then size else rxSize);
        if rxSize == 0 {
          ReceiveIsrStart();
        }
      }
    }

    method CopyOut(copySize: nat) returns (data: seq<uint8>)
      requires Buffers() && rxBuf + rxSize <= CDC_MAX_PACKET_SIZE && RxStream() && copySize <= rxSize
      modifies this`rxBuf, this`rxSize, this`taken
      ensures rxBuf == old(rxBuf) + copySize && rxSize == old(rxSize) - copySize
      ensures RxStream() && taken == old(taken) + data && data == old(Unread())[..copySize]
    {
      data := rxBuffer[rxBuf..rxBuf + copySize];
      SplitUnread(rxBuffer[..], rxBuf, rxSize, copySize, taken);
      rxBuf := rxBuf + copySize;
      rxSize := rxSize - copySize;
      taken := taken + data;
    }

    /** A read gets what the packet buffer holds for it. */
    method GetMore(op: AsyncRead) returns (ghost data: seq<uint8>)
      requires Buffers() && RxFlags() && RxStream() && Continues(op, taken) && connected
      modifies this`rxBuf, this`rxSize, this`outStarted, this`rxInProgress, this`taken
      modifies op`got, op`rxSize, op`from
      ensures RxFlags() && RxStream() && Continues(op, taken)
      ensures taken == old(taken) + data && op.got == old(op.got) + data && (op.rxSize > 0 ==> rxInProgress)
    {
      if op.got == [] {
        op.from := |taken|;
      }
      ghost var from, got, before := op.from, op.got, taken;
      var more := ReceiveNb(op.rxSize);
      HoldsMore(before, from, got, more);
      op.got := op.got + more;
      op.rxSize := op.rxSize - |more|;
      data := more;
    }

    /** AsyncRead::process. Not done, it waits for a read in progress. */
    method ProcessRead(op: AsyncRead) returns (done: bool, ghost data: seq<uint8>)
      requires Buffers() && RxFlags() && RxStream() && Continues(op, taken)
      modifies this`rxBuf, this`rxSize, this`outStarted, this`rxInProgress, this`taken
      modifies op`got, op`rxSize, op`result, op`from
      ensures RxFlags() && RxStream() && Continues(op, taken)
      ensures taken == old(taken) + data && op.got == old(op.got) + data
      ensures done ==> (op.result <==> connected)
      ensures if connected then done <==> Enough(op)
              else done && RxUnchanged(old(rxBuf), old(rxSize), old(rxInProgress), old(outStarted))
      ensures !done ==> rxInProgress
    {
      if !connected {
        op.result := false;
        return true, [];
      }
      data := GetMore(op);
      done := (!op.all && |op.got| > 0) || op.rxSize == 0;
      if done {
        op.result := true;
      } else {
        ReceiveIsrStart();
      }
    }

    ghost predicate RxUnchanged(buf: nat, size: nat, inProgress: bool, started: bool)
      reads this`rxBuf, this`rxSize, this`rxInProgress, this`outStarted
    {
      rxBuf == buf && rxSize == size && rxInProgress == inProgress && outStarted == started
    }

    /** One turn of OperationList::process: a finished head leaves the queue. */
    method ProcessReadHead() returns (done: bool, ghost data: seq<uint8>)
      requires Buffers() && RxFlags() && RxStream() && HeadReads() && rxList != []
      modifies this`rxList, this`rxBuf, this`rxSize, this`outStarted, this`rxInProgress, this`taken, rxList[0]
      ensures RxFlags() && RxStream() && HeadReads() && taken == old(taken) + data
      ensures rxList == if done then old(rxList)[1..] else old(rxList)
      ensures done ==> Answered(old(rxList[0]), connected, taken)
      ensures !done ==> connected && rxInProgress
      ensures !connected ==> data == [] && RxUnchanged(old(rxBuf), old(rxSize), old(rxInProgress), old(outStarted))
    {
      var op := rxList[0];
      done, data := ReadFirst(op);
      if done {
        PopRx(op);
      }
    }

    /** The head is processed; those behind it stay as they are. */
    method ReadFirst(op: AsyncRead) returns (done: bool, ghost data: seq<uint8>)
      requires Buffers() && RxFlags() && RxStream() && HeadReads() && rxList != [] && op == rxList[0]
      modifies this`rxBuf, this`rxSize, this`outStarted, this`rxInProgress, this`taken
      modifies op`got, op`rxSize, op`result, op`from
      ensures RxFlags() && RxStream() && HeadReads() && taken == old(taken) + data
      ensures done ==> (op.result <==> connected) && (connected ==> Enough(op))
      ensures !done ==> connected && rxInProgress
      ensures !connected ==> data == [] && RxUnchanged(old(rxBuf), old(rxSize), old(rxInProgress), old(outStarted))
    {
      ghost var list := rxList;
      assert forall i {:trigger list[i]} :: 1 <= i < |list| ==> list[i].number != op.number;
      done, data := ProcessRead(op);
      assert Untouched(list, 1);
    }

    method PopRx(op: AsyncRead)
      requires rxList != [] && op == rxList[0] && ReadsNumbered(rxList) && Untouched(rxList, 1)
      modifies this`rxList, op`complete
      ensures op.complete && HeadReads() && rxList == old(rxList)[1..]
    {
      ReadingPop(rxList, taken);
      rxList := rxList[1..];
      op.complete := true;
    }

    method ProcessNextRead(ghost all: seq<AsyncRead>, ghost k: nat) returns (done: bool, ghost data: seq<uint8>)
      requires Buffers() && RxFlags() && RxStream() && HeadReads() && rxList != []
      requires ReadsNumbered(all) && k < |all| && rxList == all[k..] && FirstAnswered(all, k, connected, taken)
      modifies this`rxList, this`rxBuf, this`rxSize, this`outStarted, this`rxInProgress, this`taken, all[k]
      ensures RxFlags() && RxStream() && HeadReads() && taken == old(taken) + data
      ensures rxList == (if done then all[k + 1..] else all[k..])
      ensures FirstAnswered(all, if done then k + 1 else k, connected, taken)
      ensures !done ==> connected && rxInProgress
      ensures !connected ==> data == [] && RxUnchanged(old(rxBuf), old(rxSize), old(rxInProgress), old(outStarted))
    {
      assert rxList[0] == all[k];
      done, data := ProcessReadHead();
      assert FirstAnswered(all, k, connected, old(taken));
      StillAnswered(all, k, connected, old(taken), data);
    }

    method ProcessRx() returns (ghost k: nat)
      requires Buffers() && RxFlags() && RxStream() && HeadReads()
      modifies this`rxList, this`rxBuf, this`rxSize, this`outStarted, this`rxInProgress, this`taken, rxList
      ensures RxFlags() && RxStream() && HeadReads() && (rxList != [] ==> connected && rxInProgress)
      ensures old(taken) <= taken
      ensures k <= |old(rxList)| && rxList == old(rxList)[k..] && FirstAnswered(old(rxList), k, connected, taken)
      ensures !connected || old(rxList) == [] ==>
        rxList == [] && taken == old(taken) && RxUnchanged(old(rxBuf), old(rxSize), old(rxInProgress), old(outStarted))
    {
      k := 0;
      ghost var all := rxList;
      while rxList != []
        invariant k <= |all| && rxList == all[k..]
        invariant RxFlags() && RxStream() && HeadReads() && FirstAnswered(all, k, connected, taken)
        invariant old(taken) <= taken
        invariant !connected || all == [] ==>
          taken == old(taken) && RxUnchanged(old(rxBuf), old(rxSize), old(rxInProgress), old(outStarted))
        decreases |rxList|
      {
        var done, _ := ProcessNextRead(all, k);
        if !done {
          break;
        }
        k := k + 1;
      }
    }

    /** receive, up to the point where its caller starts waiting. */
    method Receive(size: nat, readAll: bool) returns (op: AsyncRead)
      requires Valid()
      modifies this`rxList, this`rxBuf, this`rxSize, this`outStarted, this`rxInProgress, this`taken
      ensures Valid() && fresh(op) && op.size == size && op.all == readAll && old(taken) <= taken
      ensures if op.complete then Answered(op, connected, taken) && rxList == old(rxList)
              else connected && rxList == old(rxList) + [op]
      ensures op.complete && op.result ==>
        |op.got| <= size && if readAll then |op.got| == size else size == 0 || op.got != []
    {
      op := new AsyncRead(size, readAll, if rxList == [] then 0 else rxList[0].number + |rxList|);
      AddRead(op);
      assert TxValid() == old(TxValid());
    }

    /** OperationList::add for reads. */
    method AddRead(op: AsyncRead)
      requires Buffers() && RxValid() && !op.complete && op.got == [] && op.rxSize == op.size
      requires rxList != [] ==> op.number == rxList[0].number + |rxList|
      modifies this`rxList, this`rxBuf, this`rxSize, this`outStarted, this`rxInProgress, this`taken, op
      ensures RxValid() && old(taken) <= taken
      ensures if op.complete then Answered(op, connected, taken) && rxList == old(rxList)
              else connected && rxList == old(rxList) + [op]
    {
      var wasEmpty := rxList == [];
      rxList := rxList + [op];
      if wasEmpty {
        ReadOnly(op);
      }
    }

    method ReadOnly(op: AsyncRead)
      requires Buffers() && RxFlags() && RxStream() && HeadReads() && rxList == [op]
      modifies this`rxList, this`rxBuf, this`rxSize, this`outStarted, this`rxInProgress, this`taken, op
      ensures RxValid() && old(taken) <= taken
      ensures if op.complete then Answered(op, connected, taken) && rxList == [] else connected && rxList == [op]
    {
      var k := ProcessRx();
      if k == 0 {
        assert rxList == [op] && !rxList[0].complete;
      } else {
        assert k == 1 && rxList == [];
      }
    }

    /** A packet has arrived for the started OUT transfer. The source's assertion that the buffer is
        empty holds. The result says whether the bytes are left for data_rx. */
    method ReceiveIsr(packet: seq<uint8>) returns (dataRx: bool, ghost k: nat)
      requires Valid() && outStarted && |packet| <= CDC_MAX_PACKET_SIZE
      modifies this`rxList, this`rxBuf, this`rxSize, this`outStarted, this`rxInProgress, this`taken, this`received
      modifies rxList, rxBuffer
      ensures Valid() && received == old(received) + packet && dataRx == !rxInProgress
      ensures k <= |old(rxList)| && rxList == old(rxList)[k..] && FirstAnswered(old(rxList), k, connected, taken)
      ensures old(rxList) == [] ==> dataRx && taken == old(taken) && Unread() == packet && !outStarted
    {
      assert rxSize == 0;
      LoadPacket(packet);
      k := ProcessRx();
      assert TxValid() == old(TxValid());
      dataRx := !rxInProgress;
    }

    method LoadPacket(packet: seq<uint8>)
      requires Buffers() && RxFlags() && RxStream() && outStarted && |packet| <= CDC_MAX_PACKET_SIZE
      modifies this`rxBuf, this`rxSize, this`outStarted, this`rxInProgress, this`received, rxBuffer
      ensures RxFlags() && RxStream() && received == old(received) + packet && !rxInProgress && !outStarted
      ensures Unread() == packet
    {
      rxBuf := 0;
      forall i | 0 <= i < |packet| {
        rxBuffer[i] := packet[i];
      }
      rxSize := |packet|;
      outStarted := false;
      rxInProgress := false;
      received := received + packet;
      assert rxBuffer[0..|packet|] == packet;
    }

    // ---- connection ----

    /** A change of the terminal state. Disconnecting fails every waiting operation and cuts off the bytes
        not yet handed over or taken. The source aborts the IN endpoint twice, so a started OUT transfer
        stays started. */
    method ChangeTerminalConnected(on: bool)
      requires Valid()
      modifies this, txBuffer, txList, rxList
      ensures Valid() && connected == on && outStarted == old(outStarted) && sent == old(sent) && taken == old(taken)
      ensures on ==> unchanged(`queued) && unchanged(`received) && unchanged(`txList) && unchanged(`rxList)
      ensures on ==> unchanged(`txInProgress) && unchanged(`rxInProgress) && unchanged(`rxBuf) && unchanged(`rxSize)
      ensures !on ==> queued == sent && txList == [] && !txInProgress
      ensures !on ==> received == taken && rxList == [] && !rxInProgress && rxSize == rxBuf == 0
      ensures !on ==> FirstFinished(old(txList), |old(txList)|, false, sent)
      ensures !on ==> FirstAnswered(old(rxList), |old(rxList)|, false, taken)
    {
      connected := on;
      if connected {
        assert RxValid();
      } else {
        Abort();
      }
    }

    /** Both aborts of a disconnect. */
    method Abort()
      requires Buffers() && !connected && Chunked() && Waiting(txList) && RxFlags() && HeadReads()
      modifies this`txList, this`txSize, this`txInProgress, this`packets, this`cuts, this`sent, this`queued
      modifies this`marks, txBuffer, txList
      modifies this`rxList, this`rxBuf, this`rxSize, this`outStarted, this`rxInProgress, this`taken
      modifies this`received, rxList
      ensures Valid() && outStarted == old(outStarted) && sent == old(sent) && taken == old(taken)
      ensures queued == sent && txList == [] && !txInProgress
      ensures received == taken && rxList == [] && !rxInProgress && rxSize == rxBuf == 0
      ensures FirstFinished(old(txList), |old(txList)|, false, sent)
      ensures FirstAnswered(old(rxList), |old(rxList)|, false, taken)
    {
      AbortTx();
      label aborted:
      AbortRx();
      assert TxValid() == old@aborted(TxValid());
    }

    method AbortTx()
      requires Buffers() && !connected && Chunked() && Waiting(txList)
      modifies this`txList, this`txSize, this`txInProgress, this`packets, this`cuts, this`sent, this`queued
      modifies this`marks, txBuffer, txList
      ensures TxValid() && txList == [] && !txInProgress && queued == sent == old(sent)
      ensures FirstFinished(old(txList), |old(txList)|, false, sent)
    {
      txInProgress := false;
      txSize := 0;
      queued, marks := sent, [|sent|];
      var k := ProcessTx();
    }

    method AbortRx()
      requires Buffers() && !connected && RxFlags() && HeadReads()
      modifies this`rxList, this`rxBuf, this`rxSize, this`outStarted, this`rxInProgress, this`taken
      modifies this`received, rxList
      ensures RxValid() && rxList == [] && !rxInProgress && outStarted == old(outStarted)
      ensures received == taken == old(taken) && rxSize == rxBuf == 0
      ensures FirstAnswered(old(rxList), |old(rxList)|, false, taken)
    {
      rxInProgress := false;
      rxBuf := 0;
      rxSize := 0;
      received := taken;
      var k := ProcessRx();
    }

    /** A bus reset; the stack may or may not have dropped the transfers it held. */
    method CallbackReset(cancelled: bool)
      requires Valid()
      modifies this, txBuffer, txList, rxList
      ensures Valid() && !connected && sent == old(sent) && taken == old(taken)
      ensures outStarted == (old(outStarted) && !cancelled)
      ensures queued == sent && txList == [] && !txInProgress
      ensures received == taken && rxList == [] && !rxInProgress && rxSize == rxBuf == 0
      ensures FirstFinished(old(txList), |old(txList)|, false, sent)
      ensures FirstAnswered(old(rxList), |old(rxList)|, false, taken)
    {
      ChangeTerminalConnected(false);
      if cancelled {
        outStarted := false;
      }
    }

    /** The host selects the configuration: the first read is started. Its buffer pointer is then the start of
        the buffer. */
    method CallbackSetConfiguration()
      requires Valid() && rxSize == 0
      modifies this`outStarted, this`rxInProgress
      ensures Valid() && outStarted && rxInProgress
    {
      if !outStarted {
        assert rxBuf == 0;
        outStarted := true;
      }
      rxInProgress := true;
    }
  }
}
