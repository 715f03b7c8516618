/**
 * The addressable ECHONET object every participant is built on (src/node.ts):
 * its identity, its open flag, its 16-bit transaction counter and the
 * dispatch of received frames by service code.
 */
module Nodes {
  import opened Wrappers
  import opened Codes

  /** The handler a received frame is dispatched to. */
  datatype Handler = OnGetRes | OnInf | OnInfC | NoHandler

  /** The object id: class code in the upper bytes, instance code in the lowest. */
  function NodeId(deviceClass: int, instanceCode: int): int {
    deviceClass * 0x100 + instanceCode
  }

  /** Instance codes the constructor accepts. */
  predicate ValidInstance(instanceCode: int) {
    1 <= instanceCode <= 0xFF
  }

  /** Two objects have the same id exactly when class and instance agree. */
  lemma IdInjective(c1: int, i1: int, c2: int, i2: int)
    requires ValidInstance(i1) && ValidInstance(i2)
    ensures NodeId(c1, i1) == NodeId(c2, i2) <==> c1 == c2 && i1 == i2
  {
  }

  /**
   * getNextTid: tid + 1 masked to 16 bits; for the counter's values the mask
   * and the remainder modulo 0x10000 agree.
   */
  function NextTid(tid: int): (r: int)
    requires 0 <= tid <= 0xFFFF
    ensures 0 <= r <= 0xFFFF
    ensures tid < 0xFFFF ==> r == tid + 1
    ensures tid == 0xFFFF ==> r == 0
  {
    (tid + 1) % 0x1_0000
  }

  /** The counter after k calls starting from tid. */
  function TidAfter(tid: int, k: nat): (r: int)
    requires 0 <= tid <= 0xFFFF
    ensures 0 <= r <= 0xFFFF
  {
    if k == 0 then tid else NextTid(TidAfter(tid, k - 1))
  }

  /** From the initial 0, the k-th call returns k modulo 0x10000. */
  lemma {:induction false} CounterWraps(k: nat)
    ensures TidAfter(0, k) == k % 0x1_0000
  {
    if k > 0 {
      CounterWraps(k - 1);
      var q, prev := (k - 1) / 0x1_0000, (k - 1) % 0x1_0000;
      if prev < 0xFFFF {
        ModOf(k, q, prev + 1);
      } else {
        ModOf(k, q + 1, 0);
      }
    }
  }

  lemma ModOf(n: int, q: int, r: int)
    requires n == q * 0x1_0000 + r && 0 <= r < 0x1_0000
    ensures n % 0x1_0000 == r
  {
  }

  /**
   * The handler a frame with service code esv goes to on an open node.
   * The contract is the definition itself (the source's switch); RouteOf
   * builds the node profile's routing on it.
   */
  function Route(esv: int): (h: Handler)
    ensures h == OnGetRes <==> esv == GET_RES
    ensures h == OnInf <==> esv == INF
    ensures h == OnInfC <==> esv == INFC
    ensures h == NoHandler <==> esv != GET_RES && esv != INF && esv != INFC
  {
    if esv == GET_RES then OnGetRes
    else if esv == INF then OnInf
    else if esv == INFC then OnInfC
    else NoHandler
  }

  class Node {
    const deviceClass: int
    const instanceCode: int
    var active: bool
    var tid: int

    ghost predicate Valid()
      reads this
    {
      ValidInstance(instanceCode) && 0 <= tid <= 0xFFFF
    }

    function Id(): int {
      NodeId(deviceClass, instanceCode)
    }

    /** A closed node with counter 0; the instance code must be 1..0xFF. */
    constructor(deviceClass: int, instanceCode: int)
      requires ValidInstance(instanceCode)
      ensures this.deviceClass == deviceClass && this.instanceCode == instanceCode
      ensures !active && tid == 0
      ensures Valid()
    {
      this.deviceClass := deviceClass;
      this.instanceCode := instanceCode;
      active := false;
      tid := 0;
    }

    /** open: true and open only when it was closed; otherwise false and unchanged. */
    method Open() returns (ok: bool)
      modifies this
      ensures ok <==> !old(active)
      ensures active && tid == old(tid)
    {
      if active {
        return false;
      }
      active := true;
      return true;
    }

    /** close: true and closed only when it was open; otherwise false and unchanged. */
    method Close() returns (ok: bool)
      modifies this
      ensures ok <==> old(active)
      ensures !active && tid == old(tid)
    {
      if !active {
        return false;
      }
      active := false;
      return true;
    }

    /** getNextTid: advances the counter and returns its new value. */
    method GetNextTid() returns (t: int)
      requires Valid()
      modifies this
      ensures Valid()
      ensures t == tid == NextTid(old(tid)) && active == old(active)
    {
      tid := (tid + 1) % 0x1_0000;
      t := tid;
    }

    /** onData: a closed node invokes nothing; an open one the handler of esv. */
    method OnData(esv: int) returns (h: Handler)
      ensures !active ==> h == NoHandler
      ensures active ==> h == Route(esv)
    {
      if !active {
        return NoHandler;
      }
      h := Route(esv);
    }
  }

  /**
   * The node factory: construction throws unless the instance code is
   * 1..0xFF; a new node is closed with counter 0.
   */
  method NewNode(deviceClass: int, instanceCode: int) returns (r: Result<Node, Error>)
    ensures r.Failure? <==> !ValidInstance(instanceCode)
    ensures r.Failure? ==> r.error == InvalidIdentity
    ensures r.Success? ==> fresh(r.value) && r.value.Valid() && !r.value.active && r.value.tid == 0
    ensures r.Success? ==> r.value.Id() == deviceClass * 0x100 + instanceCode
  {
    if instanceCode < 1 || instanceCode > 0xFF {
      return Failure(InvalidIdentity);
    }
    var node := new Node(deviceClass, instanceCode);
    r := Success(node);
  }
}
