/**
 * A remote ECHONET object as the controller sees it (src/device.ts and
 * src/smart-electric-energy-meter.ts): property reads with a per-read
 * timeout and retries, and the handling of notifications that need a
 * confirmation.
 */
module Devices {
  import opened Wrappers
  import opened Codes
  import opened Bytes
  import opened Lib
  import opened Props
  import opened Frames
  import opened Nodes
  import opened Meter

  /** The two device constructors of the engine: a generic device and the smart meter. */
  datatype DeviceKind = Generic | SmartMeter

  /** One call of controller.send: the frame parameters and the destination address. */
  datatype Outbound = Outbound(params: FrameParams, address: string)

  /**
   * The current read: while Awaiting, the one-shot response listener and the
   * timer are installed; settling removes both.
   */
  datatype ReadState = Idle | Awaiting | Resolved(properties: seq<Property>) | Rejected(error: Error)

  /** What can happen while a read is pending. */
  datatype ReadEvent = SendRejected(error: Error) | TimerFired | Response(tid: int, properties: seq<Property>)

  /** The GET request getProperties hands to the controller. */
  function GetRequest(tid: int, id: int, properties: seq<Property>): FrameParams {
    FrameParams(Some(tid), None, Some(id), GET, properties)
  }

  /**
   * How a read with transaction id tid settles under events: the first
   * rejected send, fired timer or response carrying tid decides; responses
   * with another tid are discarded; with nothing left, the timer fires.
   */
  function ReadOutcome(tid: int, events: seq<ReadEvent>): (r: Result<seq<Property>, Error>)
    decreases |events|
  {
    if events == [] then Failure(GetResTimeout)
    else match events[0]
      case SendRejected(e) => Failure(e)
      case TimerFired => Failure(GetResTimeout)
      case Response(t, ps) => if t == tid then Success(ps) else ReadOutcome(tid, events[1..])
  }

  /** Some event is a response with transaction id tid and the given properties. */
  predicate Carries(events: seq<ReadEvent>, tid: int, properties: seq<Property>) {
    exists i :: 0 <= i < |events| && events[i] == Response(tid, properties)
  }

  /** A read resolves only with the properties of a response that carries its own tid. */
  lemma {:induction false} ReadResolvesWithItsResponse(tid: int, events: seq<ReadEvent>)
    ensures ReadOutcome(tid, events).Success? ==> Carries(events, tid, ReadOutcome(tid, events).value)
    decreases |events|
  {
    if events != [] && ReadOutcome(tid, events).Success? {
      if events[0].Response? && events[0].tid == tid {
        assert events[0] == Response(tid, ReadOutcome(tid, events).value);
      } else {
        ReadResolvesWithItsResponse(tid, events[1..]);
        var i :| 0 <= i < |events[1..]| && events[1..][i] == Response(tid, ReadOutcome(tid, events).value);
        assert events[i + 1] == events[1..][i];
      }
    }
  }

  /** With no rejected send and no response carrying tid, the read times out. */
  lemma {:induction false} UnansweredReadTimesOut(tid: int, events: seq<ReadEvent>)
    requires forall i :: 0 <= i < |events| ==> !events[i].SendRejected?
    requires forall i :: 0 <= i < |events| && events[i].Response? ==> events[i].tid != tid
    ensures ReadOutcome(tid, events) == Failure(GetResTimeout)
    decreases |events|
  {
    if events != [] && events[0].Response? {
      assert forall i :: 1 <= i < |events| ==> events[1..][i - 1] == events[i];
      UnansweredReadTimesOut(tid, events[1..]);
    }
  }

  /** Get retries a read only after a timeout or a failed transmission. */
  predicate Retryable(e: Error) {
    e == GetResTimeout || e == TransmissionFailed
  }

  /** promise-retry with retries: 3 makes at most 4 attempts. */
  const RETRIES: nat := 3

  /** The events of attempt k; none when the script has no entry for it. */
  function AttemptEvents(script: seq<seq<ReadEvent>>, k: nat): seq<ReadEvent> {
    if k < |script| then script[k] else []
  }

  /** The n GET requests Get sends from a counter at tid: the i-th carries the i-th next tid. */
  function Requests(tid: int, n: nat, id: int, properties: seq<Property>, address: string): (r: seq<Outbound>)
    requires 0 <= tid <= 0xFFFF
    ensures |r| == n
  {
    if n == 0 then [] else Requests(tid, n - 1, id, properties, address) + [Outbound(GetRequest(TidAfter(tid, n), id, properties), address)]
  }

  /** The settled result of Get and the number of attempts it made. */
  datatype GetResult = GetResult(result: Result<seq<Property>, Error>, attempts: nat)

  /**
   * Get from attempt k on, with the transaction counter at tid: each attempt
   * is a read with the next tid; a retryable failure leads to another attempt
   * while fewer than 4 have been made.
   */
  function GetOutcome(tid: int, script: seq<seq<ReadEvent>>, k: nat): (g: GetResult)
    requires 0 <= tid <= 0xFFFF && k <= RETRIES
    ensures k + 1 <= g.attempts <= RETRIES + 1
    ensures g.result.Failure? && g.attempts <= RETRIES ==> !Retryable(g.result.error)
    decreases RETRIES - k
  {
    var t := NextTid(tid);
    var o := ReadOutcome(t, AttemptEvents(script, k));
    if o.Failure? && Retryable(o.error) && k < RETRIES then GetOutcome(t, script, k + 1)
    else GetResult(o, k + 1)
  }

  /** When every attempt times out, Get gives up after 4 attempts with the timeout. */
  lemma {:induction false} SilentDeviceExhaustsRetries(tid: int, script: seq<seq<ReadEvent>>, k: nat)
    requires 0 <= tid <= 0xFFFF && k <= RETRIES
    requires forall j :: 0 <= j < |script| ==> script[j] == [] || script[j][0] == TimerFired
    ensures GetOutcome(tid, script, k) == GetResult(Failure(GetResTimeout), RETRIES + 1)
    decreases RETRIES - k
  {
    if k < RETRIES {
      SilentDeviceExhaustsRetries(NextTid(tid), script, k + 1);
    }
  }

  /** A failure that is not retryable ends Get at the attempt it occurs in. */
  lemma NoRetryAfterOtherErrors(tid: int, script: seq<seq<ReadEvent>>)
    requires 0 <= tid <= 0xFFFF
    requires var o := ReadOutcome(NextTid(tid), AttemptEvents(script, 0)); o.Failure? && !Retryable(o.error)
    ensures GetOutcome(tid, script, 0) == GetResult(ReadOutcome(NextTid(tid), AttemptEvents(script, 0)), 1)
  {
  }

  /** Some attempt from k up to n met a response with that attempt's tid and the given properties. */
  predicate AnsweredBetween(tid: int, script: seq<seq<ReadEvent>>, k: nat, n: nat, properties: seq<Property>)
    requires 0 <= tid <= 0xFFFF
  {
    exists j :: k <= j < n && Carries(AttemptEvents(script, j), TidAfter(tid, j - k + 1), properties)
  }

  /**
   * The properties Get resolves with are those of a response that carried
   * the tid of the attempt it answered.
   */
  lemma GetResolvesWithAResponse(tid: int, script: seq<seq<ReadEvent>>, k: nat)
    requires 0 <= tid <= 0xFFFF && k <= RETRIES
    ensures var g := GetOutcome(tid, script, k);
      g.result.Success? ==> AnsweredBetween(tid, script, k, g.attempts, g.result.value)
  {
    var j := AnsweringAttempt(tid, script, k);
  }

  /** The attempt that answered a successful Get, found by following the retries. */
  lemma {:induction false} AnsweringAttempt(tid: int, script: seq<seq<ReadEvent>>, k: nat) returns (j: nat)
    requires 0 <= tid <= 0xFFFF && k <= RETRIES
    ensures var g := GetOutcome(tid, script, k);
      g.result.Success? ==> k <= j < g.attempts && Carries(AttemptEvents(script, j), TidAfter(tid, j - k + 1), g.result.value)
    decreases RETRIES - k
  {
    var t := NextTid(tid);
    var o := ReadOutcome(t, AttemptEvents(script, k));
    var g := GetOutcome(tid, script, k);
    j := k;
    if o.Failure? && Retryable(o.error) && k < RETRIES {
      assert g == GetOutcome(t, script, k + 1);
      j := AnsweringAttempt(t, script, k + 1);
      if g.result.Success? {
        TidAfterShift(tid, j - k);
      }
    } else {
      assert g == GetResult(o, k + 1);
      ReadResolvesWithItsResponse(t, AttemptEvents(script, k));
      assert TidAfter(tid, 1) == t;
    }
  }

  /** Advancing once and then n times is advancing n + 1 times. */
  lemma {:induction false} TidAfterShift(tid: int, n: nat)
    requires 0 <= tid <= 0xFFFF
    ensures TidAfter(NextTid(tid), n) == TidAfter(tid, n + 1)
  {
    if n > 0 {
      TidAfterShift(tid, n - 1);
    }
  }

  /** A response property that getValue reads: the code asked for, with exactly width bytes. */
  predicate Matches(p: Property, epc: uint8, width: int) {
    p.epc == epc && p.edt.Some? && |p.edt.value| == width
  }

  /**
   * The loop of getValue over the response: the signed big-endian value of
   * the first matching property, or nothing when none matches.
   */
  function FindValue(ps: seq<Property>, epc: uint8, width: int): (v: Option<int>)
    requires width >= 1
    ensures v.None? <==> forall i :: 0 <= i < |ps| ==> !Matches(ps[i], epc, width)
    decreases |ps|
  {
    if ps == [] then None
    else if Matches(ps[0], epc, width) then Some(IntBE(ps[0].edt.value))
    else
      assert forall i :: 1 <= i < |ps| ==> ps[i] == ps[1..][i - 1];
      FindValue(ps[1..], epc, width)
  }

  /** A value getValue finds is read from the first property that matches. */
  lemma {:induction false} FindValueIsFirstMatch(ps: seq<Property>, epc: uint8, width: int) returns (i: nat)
    requires width >= 1
    ensures FindValue(ps, epc, width).Some? ==>
      && i < |ps| && Matches(ps[i], epc, width)
      && (forall j :: 0 <= j < i ==> !Matches(ps[j], epc, width))
      && FindValue(ps, epc, width).value == IntBE(ps[i].edt.value)
    decreases |ps|
  {
    i := 0;
    if ps != [] && !Matches(ps[0], epc, width) {
      var k := FindValueIsFirstMatch(ps[1..], epc, width);
      i := k + 1;
      if FindValue(ps, epc, width).Some? {
        assert ps[i] == ps[1..][k];
        assert forall j :: 1 <= j < i ==> ps[j] == ps[1..][j - 1];
      }
    }
  }

  /** The loop of getValue over the response properties. */
  method FirstValue(ps: seq<Property>, epc: uint8, width: int) returns (v: Option<int>)
    requires width >= 1
    ensures v == FindValue(ps, epc, width)
  {
    var i := 0;
    while i < |ps|
      invariant 0 <= i <= |ps|
      invariant FindValue(ps, epc, width) == FindValue(ps[i..], epc, width)
    {
      assert ps[i..][1..] == ps[i + 1..];
      if ps[i].epc == epc && ps[i].edt.Some? && |ps[i].edt.value| == width {
        return Some(IntBE(ps[i].edt.value));
      }
      i := i + 1;
    }
    return None;
  }

  /** getValue: the outcome of Get, then the value of the first matching property. */
  function ValueOutcome(tid: int, script: seq<seq<ReadEvent>>, epc: uint8, width: int): Result<Option<int>, Error>
    requires 0 <= tid <= 0xFFFF && width >= 1
  {
    var g := GetOutcome(tid, script, 0).result;
    if g.Failure? then Failure(g.error) else Success(FindValue(g.value, epc, width))
  }

  /** The meter's cumulative-energy notification as one INFC handler sees it. */
  twostate predicate InfCHandled(d: Device, address: string, frame: seq<uint8>)
    requires WellFormed(frame)
    reads d
  {
    && d.read == old(d.read)
    && (d.kind == Generic ==>
        && d.sent == old(d.sent) + [Outbound(Confirmation(frame), address)]
        && d.meter == old(d.meter) && d.fired == old(d.fired))
    && (d.kind == SmartMeter ==>
        var w := WalkInfC(PropertiesOf(frame), old(d.meter));
        && d.fired == old(d.fired) + w.fired
        && d.meter == w.state
        && d.sent == old(d.sent) + (if w.completed then [Outbound(Confirmation(frame), address)] else []))
  }

  /** What a device does with a received frame (Node.onData and the handlers it overrides). */
  twostate predicate Handled(d: Device, address: string, frame: seq<uint8>)
    requires WellFormed(frame)
    reads d, d.node
  {
    var h := if d.node.active then Route(Esv(frame)) else NoHandler;
    && unchanged(d.node)
    && (h == OnGetRes ==>
        && d.read == (if old(d.read) == Awaiting && Tid(frame) == d.node.tid then Resolved(PropertiesOf(frame)) else old(d.read))
        && d.sent == old(d.sent) && d.meter == old(d.meter) && d.fired == old(d.fired))
    && (h == OnInfC ==> InfCHandled(d, address, frame))
    && (h != OnGetRes && h != OnInfC ==> unchanged(d))
  }

  class Device {
    const node: Node
    const address: string
    const kind: DeviceKind
    var read: ReadState
    /** The calls this device made to controller.send. */
    var sent: seq<Outbound>
    /** The meter's recorded timestamps. */
    var meter: MeterState
    /** The meter's cumulative-energy handler calls. */
    var fired: seq<MeterEvent>

    ghost predicate Valid()
      reads this, node
    {
      && node.Valid()
      && (kind == SmartMeter ==> node.deviceClass == CLASS_SMART_METER && node.instanceCode == 1)
    }

    /** new Device(controller, address, deviceClass, instanceCode): a closed generic device. */
    constructor(address: string, deviceClass: int, instanceCode: int)
      requires ValidInstance(instanceCode)
      ensures Valid() && fresh(node) && !node.active && node.tid == 0
      ensures node.Id() == NodeId(deviceClass, instanceCode)
      ensures this.address == address && kind == Generic
      ensures read == Idle && sent == [] && meter == MeterState(None, None) && fired == []
    {
      node := new Node(deviceClass, instanceCode);
      this.address := address;
      kind := Generic;
      read := Idle;
      sent := [];
      meter := MeterState(None, None);
      fired := [];
    }

    /** new SmartElectricEnergyMeter(controller, address): always class 0x0288, instance 1. */
    constructor Meter(address: string)
      ensures Valid() && fresh(node) && !node.active && node.tid == 0
      ensures node.Id() == NodeId(CLASS_SMART_METER, 1)
      ensures this.address == address && kind == SmartMeter
      ensures read == Idle && sent == [] && meter == MeterState(None, None) && fired == []
    {
      node := new Node(CLASS_SMART_METER, 1);
      this.address := address;
      kind := SmartMeter;
      read := Idle;
      sent := [];
      meter := MeterState(None, None);
      fired := [];
    }

    /** close: closes the node; the meter also drops its listeners. */
    method Close() returns (ok: bool)
      requires Valid()
      modifies node
      ensures Valid()
      ensures ok <==> old(node.active)
      ensures !node.active && node.tid == old(node.tid)
    {
      ok := node.Close();
    }

    /** Settles the pending read: the listener and the timer are removed. */
    method Settle(outcome: ReadState)
      requires outcome.Resolved? || outcome.Rejected?
      modifies this
      ensures read == outcome
      ensures sent == old(sent) && meter == old(meter) && fired == old(fired)
    {
      read := outcome;
    }

    /**
     * The start of getProperties: the listener and the timer are installed,
     * then a GET with the next tid is sent to this device's id.
     */
    method StartRead(properties: seq<Property>)
      requires Valid() && read != Awaiting
      modifies this, node
      ensures Valid() && read == Awaiting
      ensures node.tid == NextTid(old(node.tid)) && node.active == old(node.active)
      ensures sent == old(sent) + [Outbound(GetRequest(node.tid, node.Id(), properties), address)]
      ensures meter == old(meter) && fired == old(fired)
    {
      read := Awaiting;
      var tid := node.GetNextTid();
      sent := sent + [Outbound(GetRequest(tid, node.Id(), properties), address)];
    }

    /** The timer of a pending read fires: it rejects with GetResTimeout. */
    method OnTimeout()
      modifies this
      ensures read == (if old(read) == Awaiting then Rejected(GetResTimeout) else old(read))
      ensures sent == old(sent) && meter == old(meter) && fired == old(fired)
    {
      if read == Awaiting {
        Settle(Rejected(GetResTimeout));
      }
    }

    /** controller.send rejected: a pending read rejects with its error. */
    method OnSendRejected(error: Error)
      modifies this
      ensures read == (if old(read) == Awaiting then Rejected(error) else old(read))
      ensures sent == old(sent) && meter == old(meter) && fired == old(fired)
    {
      if read == Awaiting {
        Settle(Rejected(error));
      }
    }

    /**
     * onGetRes: a response whose tid is not the last one issued is discarded;
     * otherwise it resolves the pending read, if any.
     */
    method OnGetRes(tid: int, properties: seq<Property>)
      modifies this
      ensures read == (if old(read) == Awaiting && tid == node.tid then Resolved(properties) else old(read))
      ensures sent == old(sent) && meter == old(meter) && fired == old(fired)
    {
      if node.tid != tid {
        return;
      }
      if read == Awaiting {
        Settle(Resolved(properties));
      }
    }

    /**
     * getProperties: one read, driven by the events that follow the request;
     * when none of them settles it, the timer fires.
     */
    method GetProperties(properties: seq<Property>, events: seq<ReadEvent>) returns (r: Result<seq<Property>, Error>)
      requires Valid() && read != Awaiting
      modifies this, node
      ensures Valid()
      ensures node.tid == NextTid(old(node.tid)) && node.active == old(node.active)
      ensures sent == old(sent) + [Outbound(GetRequest(node.tid, node.Id(), properties), address)]
      ensures r == ReadOutcome(node.tid, events)
      ensures read == (if r.Success? then Resolved(r.value) else Rejected(r.error))
      ensures meter == old(meter) && fired == old(fired)
    {
      StartRead(properties);
      var i := 0;
      while i < |events| && read == Awaiting
        invariant 0 <= i <= |events|
        decreases |events| - i
        invariant Valid() && node.tid == NextTid(old(node.tid)) && node.active == old(node.active)
        invariant sent == old(sent) + [Outbound(GetRequest(node.tid, node.Id(), properties), address)]
        invariant meter == old(meter) && fired == old(fired)
        invariant read == Awaiting ==> ReadOutcome(node.tid, events) == ReadOutcome(node.tid, events[i..])
        invariant read != Awaiting ==> read.Resolved? || read.Rejected?
        invariant read.Resolved? ==> ReadOutcome(node.tid, events) == Success(read.properties)
        invariant read.Rejected? ==> ReadOutcome(node.tid, events) == Failure(read.error)
      {
        assert events[i..][1..] == events[i + 1..];
        match events[i] {
          case SendRejected(e) => OnSendRejected(e);
          case TimerFired => OnTimeout();
          case Response(t, ps) => OnGetRes(t, ps);
        }
        i := i + 1;
      }
      OnTimeout();
      r := if read.Resolved? then Success(read.properties) else Failure(read.error);
    }

    /**
     * Get: getProperties retried with promise-retry (retries: 3), again only
     * after a timeout or a failed transmission; attempt k meets the events
     * AttemptEvents(script, k).
     */
    method Get(properties: seq<Property>, script: seq<seq<ReadEvent>>) returns (r: Result<seq<Property>, Error>, attempts: nat)
      requires Valid() && read != Awaiting
      modifies this, node
      ensures Valid() && read != Awaiting && node.active == old(node.active)
      ensures GetResult(r, attempts) == GetOutcome(old(node.tid), script, 0)
      ensures node.tid == TidAfter(old(node.tid), attempts)
      ensures sent == old(sent) + Requests(old(node.tid), attempts, node.Id(), properties, address)
      ensures meter == old(meter) && fired == old(fired)
    {
      ghost var tid0 := node.tid;
      ghost var spec := GetOutcome(tid0, script, 0);
      var k := 0;
      r := GetProperties(properties, AttemptEvents(script, 0));
      while r.Failure? && Retryable(r.error) && k < RETRIES
        invariant 0 <= k <= RETRIES
        invariant Valid() && read != Awaiting && node.active == old(node.active)
        invariant node.tid == TidAfter(tid0, k + 1)
        invariant spec == if r.Failure? && Retryable(r.error) && k < RETRIES
          then GetOutcome(node.tid, script, k + 1) else GetResult(r, k + 1)
        invariant sent == old(sent) + Requests(tid0, k + 1, node.Id(), properties, address)
        invariant meter == old(meter) && fired == old(fired)
        decreases RETRIES - k
      {
        k := k + 1;
        r := GetProperties(properties, AttemptEvents(script, k));
      }
      attempts := k + 1;
    }

    /**
     * getValue: Get for one property code, then the signed big-endian value
     * of the first response property with that code and exactly width bytes.
     */
    method GetValue(epc: uint8, width: int, script: seq<seq<ReadEvent>>) returns (r: Result<Option<int>, Error>, attempts: nat)
      requires Valid() && read != Awaiting && 1 <= width <= 6
      modifies this, node
      ensures Valid() && read != Awaiting && node.active == old(node.active)
      ensures r == ValueOutcome(old(node.tid), script, epc, width)
      ensures attempts == GetOutcome(old(node.tid), script, 0).attempts
      ensures node.tid == TidAfter(old(node.tid), attempts)
      ensures sent == old(sent) + Requests(old(node.tid), attempts, node.Id(), [Property(epc, None)], address)
      ensures meter == old(meter) && fired == old(fired)
    {
      var response;
      response, attempts := Get([Property(epc, None)], script);
      if response.Failure? {
        r := Failure(response.error);
        return;
      }
      var v := FirstValue(response.value, epc, width);
      r := Success(v);
    }

    /** getCoefficient: property 0xD3, 4 bytes. */
    method GetCoefficient(script: seq<seq<ReadEvent>>) returns (r: Result<Option<int>, Error>, attempts: nat)
      requires Valid() && read != Awaiting && kind == SmartMeter
      modifies this, node
      ensures Valid() && read != Awaiting && node.active == old(node.active)
      ensures r == ValueOutcome(old(node.tid), script, EPC_COEFFICIENT, 4)
      ensures attempts == GetOutcome(old(node.tid), script, 0).attempts
      ensures node.tid == TidAfter(old(node.tid), attempts)
      ensures sent == old(sent) + Requests(old(node.tid), attempts, node.Id(), [Property(EPC_COEFFICIENT, None)], address)
      ensures meter == old(meter) && fired == old(fired)
    {
      r, attempts := GetValue(EPC_COEFFICIENT, 4, script);
    }

    /** getEffectiveDigits: property 0xD7, 1 byte. */
    method GetEffectiveDigits(script: seq<seq<ReadEvent>>) returns (r: Result<Option<int>, Error>, attempts: nat)
      requires Valid() && read != Awaiting && kind == SmartMeter
      modifies this, node
      ensures Valid() && read != Awaiting && node.active == old(node.active)
      ensures r == ValueOutcome(old(node.tid), script, EPC_EFFECTIVE_DIGITS, 1)
      ensures attempts == GetOutcome(old(node.tid), script, 0).attempts
      ensures node.tid == TidAfter(old(node.tid), attempts)
      ensures sent == old(sent) + Requests(old(node.tid), attempts, node.Id(), [Property(EPC_EFFECTIVE_DIGITS, None)], address)
      ensures meter == old(meter) && fired == old(fired)
    {
      r, attempts := GetValue(EPC_EFFECTIVE_DIGITS, 1, script);
    }

    /** getUnit: property 0xE1, 1 byte. */
    method GetUnit(script: seq<seq<ReadEvent>>) returns (r: Result<Option<int>, Error>, attempts: nat)
      requires Valid() && read != Awaiting && kind == SmartMeter
      modifies this, node
      ensures Valid() && read != Awaiting && node.active == old(node.active)
      ensures r == ValueOutcome(old(node.tid), script, EPC_UNIT, 1)
      ensures attempts == GetOutcome(old(node.tid), script, 0).attempts
      ensures node.tid == TidAfter(old(node.tid), attempts)
      ensures sent == old(sent) + Requests(old(node.tid), attempts, node.Id(), [Property(EPC_UNIT, None)], address)
      ensures meter == old(meter) && fired == old(fired)
    {
      r, attempts := GetValue(EPC_UNIT, 1, script);
    }

    /** getInstantaneousElectricEnergey: property 0xE7, 4 bytes. */
    method GetInstantaneousElectricEnergy(script: seq<seq<ReadEvent>>) returns (r: Result<Option<int>, Error>, attempts: nat)
      requires Valid() && read != Awaiting && kind == SmartMeter
      modifies this, node
      ensures Valid() && read != Awaiting && node.active == old(node.active)
      ensures r == ValueOutcome(old(node.tid), script, EPC_INSTANTANEOUS_ELECTRIC_ENERGY, 4)
      ensures attempts == GetOutcome(old(node.tid), script, 0).attempts
      ensures node.tid == TidAfter(old(node.tid), attempts)
      ensures sent == old(sent) + Requests(old(node.tid), attempts, node.Id(), [Property(EPC_INSTANTANEOUS_ELECTRIC_ENERGY, None)], address)
      ensures meter == old(meter) && fired == old(fired)
    {
      r, attempts := GetValue(EPC_INSTANTANEOUS_ELECTRIC_ENERGY, 4, script);
    }

    /**
     * One turn of the meter's loop: a cumulative property is checked with
     * edt2DateValue and the channel's isNew* and, when both pass, its handler
     * is called; go is false where onInfC returns.
     */
    method Observe(p: Property) returns (go: bool)
      modifies this
      ensures var s := StepInfC(p, old(meter));
        go == s.go && meter == s.state && fired == old(fired) + s.fired
      ensures read == old(read) && sent == old(sent)
    {
      if p.epc == EPC_CUMULATIVE_NORMAL {
        var tv := Edt2DateValue(p.edt);
        if tv.None? {
          return false;
        }
        var c := IsNew(meter.normal, tv.value.time);
        meter := meter.(normal := c.recorded);
        if !c.accepted {
          return false;
        }
        fired := fired + [CumulativeNormal(tv.value)];
      } else if p.epc == EPC_CUMULATIVE_REVERSE {
        var tv := Edt2DateValue(p.edt);
        if tv.None? {
          return false;
        }
        var c := IsNew(meter.reverse, tv.value.time);
        meter := meter.(reverse := c.recorded);
        if !c.accepted {
          return false;
        }
        fired := fired + [CumulativeReverse(tv.value)];
      }
      return true;
    }

    /** The meter's property loop, up to the point where onInfC returns or confirms. */
    method Filter(ps: seq<Property>) returns (completed: bool)
      modifies this
      ensures var w := WalkInfC(ps, old(meter));
        completed == w.completed && meter == w.state && fired == old(fired) + w.fired
      ensures read == old(read) && sent == old(sent)
    {
      ghost var target := WalkInfC(ps, meter);
      ghost var pre: seq<MeterEvent> := [];
      var i := 0;
      while i < |ps|
        invariant 0 <= i <= |ps|
        invariant read == old(read) && sent == old(sent) && fired == old(fired) + pre
        invariant var w := WalkInfC(ps[i..], meter); target == Walk(pre + w.fired, w.state, w.completed)
      {
        assert ps[i..][1..] == ps[i + 1..];
        ghost var s := StepInfC(ps[i], meter);
        ghost var rest := WalkInfC(ps[i + 1..], s.state);
        assert WalkInfC(ps[i..], meter) == if s.go then Walk(s.fired + rest.fired, rest.state, rest.completed) else Walk([], s.state, false);
        var go := Observe(ps[i]);
        if !go {
          assert pre + [] == pre;
          return false;
        }
        assert pre + (s.fired + rest.fired) == pre + s.fired + rest.fired;
        pre := pre + s.fired;
        i := i + 1;
      }
      assert pre + [] == pre;
      return true;
    }

    /**
     * onInfC: a generic device confirms at once; the meter first passes each
     * cumulative-energy property through its filter, stops without
     * confirming at the first one that is invalid or not newer, and confirms
     * only after the whole loop.
     */
    method OnInfC(address: string, frame: seq<uint8>)
      requires WellFormed(frame)
      modifies this
      ensures InfCHandled(this, address, frame)
    {
      if kind == SmartMeter {
        var completed := Filter(PropertiesOf(frame));
        if !completed {
          return;
        }
      }
      sent := sent + [Outbound(Confirmation(frame), address)];
    }

    /**
     * onData: a closed device ignores the frame; an open one hands GET_RES to
     * onGetRes and INFC to onInfC and ignores the rest.
     */
    method OnData(address: string, frame: seq<uint8>) returns (h: Handler)
      requires Valid() && WellFormed(frame)
      modifies this
      ensures Valid()
      ensures h == (if node.active then Route(Esv(frame)) else NoHandler)
      ensures Handled(this, address, frame)
    {
      h := node.OnData(Esv(frame));
      if h.OnGetRes? {
        OnGetRes(Tid(frame), PropertiesOf(frame));
      } else if h.OnInfC? {
        OnInfC(address, frame);
      }
    }
  }
}
