/** The byte queue between the USB interrupt and the reader (RingBuffer.h). */
module RingBuffer {
  import opened CTypes

  /** An index at most one lap past the end, brought back into the array. */
  function Wrapped(k: nat, n: nat): nat {
    if k < n then k else k - n
  }

  /** n bytes from `start` on, going round. */
  function Window(buf: seq<uint8>, start: nat, n: nat): (s: seq<uint8>)
    requires start < |buf| && n <= |buf|
    ensures |s| == n
    ensures forall k :: 0 <= k < n ==> s[k] == buf[Wrapped(start + k, |buf|)]
  {
    seq(n, k requires 0 <= k < n => buf[Wrapped(start + k, |buf|)])
  }

  class RingBufferN {
    const N: nat
    const aucBuffer: array<uint8>
    var iHead: nat
    var iTail: nat
    var numElems: nat

    ghost predicate Valid()
      reads this
    {
      && N == aucBuffer.Length > 0
      && iHead < N && iTail < N && numElems <= N
      && iHead == Wrapped(iTail + numElems, N)
    }

    /** The stored bytes, oldest first. */
    ghost function Contents(): (s: seq<uint8>)
      requires Valid()
      reads this, aucBuffer
      ensures |s| == numElems
    {
      Window(aucBuffer[..], iTail, numElems)
    }

    constructor (n: nat)
      requires n > 0
      ensures Valid() && fresh(aucBuffer) && N == n && Contents() == []
    {
      N := n;
      aucBuffer := new uint8[n](_ => 0);
      iHead, iTail, numElems := 0, 0, 0;
    }

    method StoreChar(c: uint8)
      requires Valid()
      modifies this, aucBuffer
      ensures Valid()
      ensures Contents() == if |old(Contents())| < N then old(Contents()) + [c] else old(Contents())
    {
      if !IsFull() {
        aucBuffer[iHead] := c;
        iHead := NextIndex(iHead);
        numElems := numElems + 1;
      }
    }

    method Clear()
      requires Valid()
      modifies this
      ensures Valid() && Contents() == []
    {
      iHead, iTail, numElems := 0, 0, 0;
    }

    method ReadChar() returns (c: int)
      requires Valid()
      modifies this
      ensures Valid() && -1 <= c < 256
      ensures old(Contents()) == [] ==> c == -1 && Contents() == []
      ensures old(Contents()) != [] ==> c >= 0 && [c] + Contents() == old(Contents())
    {
      if numElems == 0 {
        return -1;
      }
      c := aucBuffer[iTail];
      assert c == Contents()[0];
      iTail := NextIndex(iTail);
      numElems := numElems - 1;
    }

    function Available(): (n: nat)
      requires Valid()
      reads this, aucBuffer
      ensures n == |Contents()|
    {
      numElems
    }

    function AvailableForStore(): (n: nat)
      requires Valid()
      reads this, aucBuffer
      ensures n == N - |Contents()|
    {
      N - numElems
    }

    method Peek() returns (c: int)
      requires Valid()
      ensures c == if Contents() == [] then -1 else Contents()[0]
    {
      if numElems == 0 {
        return -1;
      }
      c := aucBuffer[iTail];
      assert c == Contents()[0];
    }

    predicate IsFull()
      reads this
    {
      numElems == N
    }

    function NextIndex(index: nat): (k: nat)
      requires index < N
      ensures k == Wrapped(index + 1, N)
    {
      ModByLap(index + 1, N);
      (index + 1) % N
    }
  }

  lemma ModByLap(k: nat, n: nat)
    requires 0 < k <= n
    ensures k % n == if k < n then k else k - n
  {
  }
}
