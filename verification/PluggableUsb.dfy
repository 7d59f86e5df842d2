/** Allocation of interfaces and endpoints to plugged modules (PluggableUSB.cpp). */
module PluggableUsb {
  import opened CTypes

  class PluggableUSBModule {
    const numEndpoints: uint8
    const numInterfaces: uint8
    const endpointType: seq<uint32>
    var pluggedInterface: uint8
    var pluggedEndpoint: uint8
    var next: PluggableUSBModule?

    constructor (numEps: uint8, numIfs: uint8, epType: seq<uint32>)
      requires |epType| >= numEps
      ensures numEndpoints == numEps && numInterfaces == numIfs && endpointType == epType && next == null
    {
      numEndpoints, numInterfaces, endpointType := numEps, numIfs, epType;
      pluggedInterface, pluggedEndpoint, next := 0, 0, null;
    }
  }

  /** The modules own consecutive ranges, from the first numbers up to just below the given ends;
      interface numbers go round at 256. */
  ghost predicate Owned(ms: seq<PluggableUSBModule>, firstIf: uint8, firstEp: uint8, endIf: uint8, endEp: nat)
    reads ms`pluggedInterface, ms`pluggedEndpoint
  {
    if ms == [] then endIf == firstIf && endEp == firstEp
    else
      var m := ms[|ms| - 1];
      && AddByte(m.pluggedInterface, m.numInterfaces) == endIf
      && m.pluggedEndpoint + m.numEndpoints == endEp
      && Owned(ms[..|ms| - 1], firstIf, firstEp, m.pluggedInterface, m.pluggedEndpoint)
  }

  /** Addition in an 8-bit variable. */
  function AddByte(a: uint8, b: uint8): uint8 {
    if a + b < 256 then a + b else a + b - 256
  }

  ghost predicate Linked(ms: seq<PluggableUSBModule>, root: PluggableUSBModule?)
    reads ms`next
  {
    && (forall i, j :: 0 <= i < j < |ms| ==> ms[i] != ms[j])
    && root == (if ms == [] then null else ms[0])
    && (forall i :: 0 <= i < |ms| - 1 ==> ms[i].next != null && ms[i].next == ms[i + 1])
    && (ms != [] ==> ms[|ms| - 1].next == null)
  }

  /** The endpoint slots of a module hold the types it declares. */
  ghost predicate SlotsHold(m: PluggableUSBModule, epBuffer: array<uint32>)
    reads m`pluggedEndpoint, epBuffer
  {
    && |m.endpointType| >= m.numEndpoints
    && m.pluggedEndpoint + m.numEndpoints <= epBuffer.Length
    && forall e :: 0 <= e < m.numEndpoints ==> epBuffer[m.pluggedEndpoint + e] == m.endpointType[e]
  }

  class PluggableUSB {
    var lastIf: uint8
    var lastEp: uint8
    const totalEP: uint8
    var rootNode: PluggableUSBModule?
    const epBuffer: array<uint32>
    /** Where the core starts numbering. */
    ghost const firstIf: uint8
    ghost const firstEp: uint8
    /** The linked list, in order. */
    ghost var modules: seq<PluggableUSBModule>

    constructor (firstIf: uint8, firstEp: uint8, totalEP: uint8)
      requires firstEp <= totalEP
      ensures Valid() && modules == [] && fresh(epBuffer)
    {
      lastIf, lastEp, this.totalEP, rootNode := firstIf, firstEp, totalEP, null;
      epBuffer := new uint32[256](_ => 0);
      this.firstIf, this.firstEp := firstIf, firstEp;
      modules := [];
    }

    ghost predicate Valid()
      reads this, modules, epBuffer
    {
      && Linked(modules, rootNode)
      && lastEp <= totalEP <= epBuffer.Length
      && Owned(modules, firstIf, firstEp, lastIf, lastEp)
      && forall i :: 0 <= i < |modules| ==> SlotsHold(modules[i], epBuffer)
    }

    method Plug(node: PluggableUSBModule) returns (ok: bool)
      requires Valid() && node !in modules && node.next == null && |node.endpointType| >= node.numEndpoints
      modifies this`lastIf, this`lastEp, this`rootNode, this`modules, modules`next, epBuffer
      modifies node`pluggedInterface, node`pluggedEndpoint
      ensures Valid() && (ok ==> node.pluggedInterface == old(lastIf) && node.pluggedEndpoint == old(lastEp))
      ensures ok <==> old(lastEp) + node.numEndpoints <= totalEP
      ensures ok ==> modules == old(modules) + [node]
      ensures !ok ==> unchanged(this) && unchanged(node) && unchanged(old(modules)) && unchanged(epBuffer)
    {
      if lastEp + node.numEndpoints > totalEP {
        return false;
      }
      OwnedBelow(modules, firstIf, firstEp, lastIf, lastEp);
      ghost var before := modules;
      Append(node);
      assert Owned(before, firstIf, firstEp, lastIf, lastEp);
      Allocate(node, before);
      ok := true;
    }

    /** The pointer walk to the end of the list. */
    method Append(node: PluggableUSBModule)
      requires Linked(modules, rootNode) && node !in modules && node.next == null
      modifies this`rootNode, this`modules, modules`next
      ensures Linked(modules, rootNode) && modules == old(modules) + [node]
    {
      if rootNode == null {
        rootNode := node;
      } else {
        var current: PluggableUSBModule := rootNode;
        ghost var i := 0;
        while current.next != null
          invariant 0 <= i < |modules| && current == modules[i] && Linked(modules, rootNode)
          decreases |modules| - i
          modifies {}
        {
          assert modules[i].next == modules[i + 1];
          current := current.next;
          i := i + 1;
        }
        assert modules[i].next == null && i == |modules| - 1;
        current.next := node;
      }
      modules := modules + [node];
    }

    /** Numbers and endpoint slots for the module just appended. */
    method Allocate(node: PluggableUSBModule, ghost before: seq<PluggableUSBModule>)
      requires node !in before && Owned(before, firstIf, firstEp, lastIf, lastEp)
      requires |node.endpointType| >= node.numEndpoints && lastEp + node.numEndpoints <= totalEP <= epBuffer.Length
      requires forall i :: 0 <= i < |before| ==>
        SlotsHold(before[i], epBuffer) && before[i].pluggedEndpoint + before[i].numEndpoints <= lastEp
      modifies this`lastIf, this`lastEp, node`pluggedInterface, node`pluggedEndpoint, epBuffer
      ensures lastEp == old(lastEp) + node.numEndpoints
      ensures node.pluggedInterface == old(lastIf) && node.pluggedEndpoint == old(lastEp)
      ensures Owned(before + [node], firstIf, firstEp, lastIf, lastEp)
      ensures SlotsHold(node, epBuffer) && forall i :: 0 <= i < |before| ==> SlotsHold(before[i], epBuffer)
    {
      node.pluggedInterface := lastIf;
      node.pluggedEndpoint := lastEp;
      lastIf := AddByte(lastIf, node.numInterfaces);
      FillSlots(node);
      assert (before + [node])[..|before|] == before;
    }

    method FillSlots(node: PluggableUSBModule)
      requires |node.endpointType| >= node.numEndpoints && lastEp + node.numEndpoints <= totalEP <= epBuffer.Length
      modifies this`lastEp, epBuffer
      ensures lastEp == old(lastEp) + node.numEndpoints
      ensures forall e :: 0 <= e < node.numEndpoints ==> epBuffer[old(lastEp) + e] == node.endpointType[e]
      ensures forall k :: 0 <= k < old(lastEp) ==> epBuffer[k] == old(epBuffer[k])
    {
      for i := 0 to node.numEndpoints
        invariant lastEp == old(lastEp) + i
        invariant forall e :: 0 <= e < i ==> epBuffer[old(lastEp) + e] == node.endpointType[e]
        invariant forall k :: 0 <= k < old(lastEp) ==> epBuffer[k] == old(epBuffer[k])
      {
        epBuffer[lastEp] := node.endpointType[i];
        lastEp := lastEp + 1;
      }
    }
  }

  /** Every range lies below the end of the allocation. */
  lemma {:induction false} OwnedBelow(ms: seq<PluggableUSBModule>, firstIf: uint8, firstEp: uint8,
                                      endIf: uint8, endEp: nat)
    requires Owned(ms, firstIf, firstEp, endIf, endEp)
    ensures firstEp <= endEp
    ensures forall i :: 0 <= i < |ms| ==>
      firstEp <= ms[i].pluggedEndpoint && ms[i].pluggedEndpoint + ms[i].numEndpoints <= endEp
  {
    if ms != [] {
      var m, init := ms[|ms| - 1], ms[..|ms| - 1];
      OwnedBelow(init, firstIf, firstEp, m.pluggedInterface, m.pluggedEndpoint);
      assert forall i :: 0 <= i < |init| ==> ms[i] == init[i];
    }
  }

  /** The ranges of two modules do not meet. */
  lemma {:induction false} OwnedApart(ms: seq<PluggableUSBModule>, firstIf: uint8, firstEp: uint8,
                                      endIf: uint8, endEp: nat)
    requires Owned(ms, firstIf, firstEp, endIf, endEp)
    ensures forall i, j :: 0 <= i < j < |ms| ==> ms[i].pluggedEndpoint + ms[i].numEndpoints <= ms[j].pluggedEndpoint
  {
    if ms != [] {
      var m, init := ms[|ms| - 1], ms[..|ms| - 1];
      OwnedApart(init, firstIf, firstEp, m.pluggedInterface, m.pluggedEndpoint);
      OwnedBelow(init, firstIf, firstEp, m.pluggedInterface, m.pluggedEndpoint);
      assert forall i :: 0 <= i < |init| ==> ms[i] == init[i];
    }
  }

  ghost function InterfaceCount(ms: seq<PluggableUSBModule>): nat {
    if ms == [] then 0 else InterfaceCount(ms[..|ms| - 1]) + ms[|ms| - 1].numInterfaces
  }

  /** Interface numbers count all interfaces, modulo 256. */
  lemma {:induction false} InterfacesCounted(ms: seq<PluggableUSBModule>, firstIf: uint8, firstEp: uint8,
                                             endIf: uint8, endEp: nat)
    requires Owned(ms, firstIf, firstEp, endIf, endEp)
    ensures endIf == (firstIf + InterfaceCount(ms)) % 256
  {
    if ms != [] {
      var m := ms[|ms| - 1];
      InterfacesCounted(ms[..|ms| - 1], firstIf, firstEp, m.pluggedInterface, m.pluggedEndpoint);
    }
  }

  /** The same for interface numbers, as long as the 8-bit counter has not gone round. */
  lemma {:induction false} InterfacesBelow(ms: seq<PluggableUSBModule>, firstIf: uint8, firstEp: uint8,
                                           endIf: uint8, endEp: nat)
    requires Owned(ms, firstIf, firstEp, endIf, endEp) && firstIf + InterfaceCount(ms) < 256
    ensures endIf == firstIf + InterfaceCount(ms)
    ensures forall i :: 0 <= i < |ms| ==> ms[i].pluggedInterface + ms[i].numInterfaces <= endIf
    ensures forall i, j :: 0 <= i < j < |ms| ==> ms[i].pluggedInterface + ms[i].numInterfaces <= ms[j].pluggedInterface
  {
    if ms != [] {
      var m, init := ms[|ms| - 1], ms[..|ms| - 1];
      InterfacesBelow(init, firstIf, firstEp, m.pluggedInterface, m.pluggedEndpoint);
      assert forall i :: 0 <= i < |init| ==> ms[i] == init[i];
    }
  }
}
