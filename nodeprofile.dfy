/**
 * The node profile object 0x0EF001 (src/nodeprofile.ts): it owns the
 * socket and the controller, demultiplexes received frames, discovers
 * devices from instance-list notifications through the registered device
 * classes (createDevice of src/enlite-impl.ts), and encodes and sends frames.
 */
module NodeProfiles {
  import opened Wrappers
  import opened Codes
  import opened Bytes
  import opened HexCodec
  import opened Lib
  import opened Props
  import opened Frames
  import opened Nodes
  import opened Devices
  import opened Controllers

  /** The ECHONET Lite UDP port. */
  const PORT_ENLITE: int := 3610

  /** One socket.send: the frame bytes, the port and the destination address. */
  datatype Datagram = Datagram(bytes: seq<uint8>, port: int, address: string)

  /** Where onData sent a received frame. */
  datatype Delivery = Dropped | Forwarded(target: Option<nat>) | Dispatched(handler: Handler)

  /** One entry of an instance list: a class code and an instance code. */
  datatype Entry = Entry(deviceClass: int, instanceCode: int)

  /** An instance list whose count byte is backed by 3 bytes per entry. */
  predicate ListFits(edt: seq<uint8>) {
    |edt| >= 1 && |edt| >= 1 + 3 * (edt[0] as int)
  }

  /** Entry i: the class code big-endian at 1 + 3i, the instance code at 3 + 3i. */
  function EntryAt(edt: seq<uint8>, i: nat): Entry
    requires 4 + 3 * i <= |edt|
  {
    Entry(UIntBE(edt[1 + 3 * i .. 3 + 3 * i]), edt[3 + 3 * i])
  }

  /** The entries of an instance list, as many as its count byte says. */
  function Entries(edt: seq<uint8>): (r: seq<Entry>)
    requires ListFits(edt)
    ensures |r| == edt[0] && forall i :: 0 <= i < |r| ==> r[i] == EntryAt(edt, i)
  {
    seq(edt[0], i requires 0 <= i < edt[0] => EntryAt(edt, i))
  }

  /**
   * createDevice for one entry: nothing for an unregistered class; the
   * meter's constructor ignores the entry's codes; a generic device's
   * constructor throws on an instance code outside 1..0xFF.
   */
  function Made(registry: map<int, DeviceKind>, address: string, e: Entry): (r: Option<Result<Key, Error>>)
    ensures r.None? <==> e.deviceClass !in registry
    ensures r.Some? && registry[e.deviceClass] == SmartMeter ==> r.value == Success(Key(address, 0x028801))
    ensures r.Some? && registry[e.deviceClass] == Generic ==>
      r.value == if ValidInstance(e.instanceCode) then Success(Key(address, NodeId(e.deviceClass, e.instanceCode)))
        else Failure(InvalidIdentity)
  {
    if e.deviceClass !in registry then None
    else if registry[e.deviceClass] == SmartMeter then Some(Success(Key(address, NodeId(CLASS_SMART_METER, 1))))
    else if !ValidInstance(e.instanceCode) then Some(Failure(InvalidIdentity))
    else Some(Success(Key(address, NodeId(e.deviceClass, e.instanceCode))))
  }

  /** The device keys after an instance list, and the error that stopped it, if any. */
  datatype Discovery = Discovery(keys: seq<Key>, error: Option<Error>)

  /**
   * The loop of onInstanceListNotification on the controller's keys: entry
   * by entry, a made device is added unless its key is present; a
   * constructor that throws ends the loop, keeping what was added before.
   */
  function Discover(registry: map<int, DeviceKind>, address: string, entries: seq<Entry>, keys: seq<Key>): Discovery
    decreases |entries|
  {
    if entries == [] then Discovery(keys, None)
    else
      var m := Made(registry, address, entries[0]);
      if m.None? then Discover(registry, address, entries[1..], keys)
      else if m.value.Failure? then Discovery(keys, Some(m.value.error))
      else Discover(registry, address, entries[1..], AddKey(keys, m.value.value))
  }

  /** Every entry makes a device whose key is already in keys, or none. */
  predicate AllKnown(registry: map<int, DeviceKind>, address: string, entries: seq<Entry>, keys: seq<Key>) {
    forall i :: 0 <= i < |entries| ==>
      var m := Made(registry, address, entries[i]);
      m.Some? ==> m.value.Success? && m.value.value in keys
  }

  /**
   * A list that completes keeps the keys already known and ends up knowing
   * every device its entries make.
   */
  lemma {:induction false} DiscoverCovers(registry: map<int, DeviceKind>, address: string, entries: seq<Entry>, keys: seq<Key>)
    ensures var d := Discover(registry, address, entries, keys);
      d.error.None? ==> (forall k :: k in keys ==> k in d.keys) && AllKnown(registry, address, entries, d.keys)
    decreases |entries|
  {
    if entries != [] {
      var m := Made(registry, address, entries[0]);
      var next := if m.Some? && m.value.Success? then AddKey(keys, m.value.value) else keys;
      DiscoverCovers(registry, address, entries[1..], next);
      assert forall i :: 1 <= i < |entries| ==> entries[i] == entries[1..][i - 1];
    }
  }

  /** A list all of whose devices are known changes nothing and stops at nothing. */
  lemma {:induction false} DiscoverKnown(registry: map<int, DeviceKind>, address: string, entries: seq<Entry>, keys: seq<Key>)
    requires AllKnown(registry, address, entries, keys)
    ensures Discover(registry, address, entries, keys) == Discovery(keys, None)
    decreases |entries|
  {
    if entries != [] {
      assert forall i :: 1 <= i < |entries| ==> entries[1..][i - 1] == entries[i];
      DiscoverKnown(registry, address, entries[1..], keys);
    }
  }

  /** Processing the same instance list again adds no device. */
  lemma RepeatedListAddsNothing(registry: map<int, DeviceKind>, address: string, entries: seq<Entry>, keys: seq<Key>)
    requires Discover(registry, address, entries, keys).error.None?
    ensures var d := Discover(registry, address, entries, keys);
      Discover(registry, address, entries, d.keys) == d
  {
    var d := Discover(registry, address, entries, keys);
    DiscoverCovers(registry, address, entries, keys);
    DiscoverKnown(registry, address, entries, d.keys);
  }

  /** An instance list in which no class is registered leaves the devices as they are. */
  lemma UnregisteredListIgnored(registry: map<int, DeviceKind>, address: string, entries: seq<Entry>, keys: seq<Key>)
    requires forall i :: 0 <= i < |entries| ==> entries[i].deviceClass !in registry
    ensures Discover(registry, address, entries, keys) == Discovery(keys, None)
  {
    DiscoverKnown(registry, address, entries, keys);
  }

  /** The first property that is an instance-list notification (0xD5), as onInf looks for it. */
  function FirstNotification(ps: seq<Property>): (r: Option<nat>)
    ensures r.None? <==> forall i :: 0 <= i < |ps| ==> ps[i].epc != EPC_INSTANCE_LIST_NOTIFICATION
    ensures r.Some? ==> r.value < |ps| && ps[r.value].epc == EPC_INSTANCE_LIST_NOTIFICATION
    ensures r.Some? ==> forall i :: 0 <= i < r.value ==> ps[i].epc != EPC_INSTANCE_LIST_NOTIFICATION
    decreases |ps|
  {
    if ps == [] then None
    else if ps[0].epc == EPC_INSTANCE_LIST_NOTIFICATION then Some(0)
    else
      var rest := FirstNotification(ps[1..]);
      assert forall i :: 1 <= i < |ps| ==> ps[i] == ps[1..][i - 1];
      if rest.Some? then Some(rest.value + 1) else None
  }

  /** Every instance-list notification of the frame carries the entries its count byte announces. */
  predicate NotificationsFit(frame: seq<uint8>)
    requires WellFormed(frame)
  {
    forall i :: 0 <= i < |PropertiesOf(frame)| ==>
      PropertiesOf(frame)[i].epc == EPC_INSTANCE_LIST_NOTIFICATION && PropertiesOf(frame)[i].edt.Some? ==>
        ListFits(PropertiesOf(frame)[i].edt.value)
  }

  /** What an instance-list notification does to a controller's devices. */
  twostate predicate Notified(c: Controller, registry: map<int, DeviceKind>, address: string, q: Property, new r: Outcome<Error>)
    requires q.edt.Some? ==> ListFits(q.edt.value)
    reads c
  {
    && c.sent == old(c.sent)
    && if q.edt.None? || q.edt.value[0] == 0 then c.devices == old(c.devices) && r == Pass
      else
        var d := Discover(registry, address, Entries(q.edt.value), Keys(old(c.devices)));
        && Keys(c.devices) == d.keys
        && r == (if d.error.Some? then Fail(d.error.value) else Pass)
        && old(c.devices) <= c.devices
  }

  /**
   * Where onData sends a frame: nowhere while closed, without a controller
   * or without properties; to the controller when addressed to another
   * object; otherwise to the node profile's own handler for its service code.
   */
  function RouteOf(open: bool, hasController: bool, devices: seq<Device>, address: string, frame: seq<uint8>): (route: Delivery)
    requires WellFormed(frame)
    ensures route.Dropped? <==> !open || !hasController || Opc(frame) == 0
    ensures route.Forwarded? <==> open && hasController && Opc(frame) != 0 && Deoj(frame) != 0x0EF001
    ensures route.Forwarded? ==> route.target == Find(devices, Key(address, Seoj(frame)))
    ensures route.Dispatched? ==> route.handler == Route(Esv(frame))
  {
    if !open || !hasController || Opc(frame) == 0 then Dropped
    else if Deoj(frame) != NodeId(CLASS_NODE_PROFILE, 1) then Forwarded(Find(devices, Key(address, Seoj(frame))))
    else Dispatched(Route(Esv(frame)))
  }

  /**
   * What onInstanceListNotification does on a node profile that is open or
   * not and has controller c or none: nothing unless open with a controller.
   */
  twostate predicate ListHandled(open: bool, c: Controller?, registry: map<int, DeviceKind>, address: string,
                                 q: Property, new r: Outcome<Error>)
    requires q.edt.Some? ==> ListFits(q.edt.value)
    reads c
  {
    if open && c != null then Notified(c, registry, address, q, r)
    else r == Pass && (c != null ==> unchanged(c))
  }

  // ---- The send path: device, controller, node profile

  /** The controller's id, which controller.send writes into every frame as its source. */
  const CONTROLLER_ID: int := 0x05FF01

  /**
   * A device's GET request with a non-zero tid, stamped by the controller,
   * is accepted by Frame.create, and the datagram carries that tid, the
   * controller as source, the device as destination, GET and the requested
   * properties.
   */
  lemma RequestDatagram(tid: int, deviceId: int, properties: seq<Property>)
    requires 1 <= tid <= 0xFFFF && 1 <= deviceId < 0x100_0000
    requires |properties| < 0x100 && forall i :: 0 <= i < |properties| ==> Pdc(properties[i]) < 0x100
    ensures var p := GetRequest(tid, deviceId, properties).(seoj := Some(CONTROLLER_ID));
      && EncodeHex(p).Success?
      && var b := BytesFromHex(EncodeHex(p).value);
      && WellFormed(b) && Tid(b) == tid && Seoj(b) == CONTROLLER_ID && Deoj(b) == deviceId
      && Esv(b) == GET && PropertiesOf(b) == NormalizedAll(properties)
  {
    var p := GetRequest(tid, deviceId, properties).(seoj := Some(CONTROLLER_ID));
    assert Fits(p);
    EncodeLayout(p);
    RoundTrip(p);
  }

  /**
   * After 0xFFFF requests the counter wraps to 0, and a request with tid 0
   * is refused by Frame.create for a missing tid.
   */
  lemma WrappedTidRefused(deviceId: int, properties: seq<Property>)
    ensures NextTid(0xFFFF) == 0
    ensures EncodeHex(GetRequest(NextTid(0xFFFF), deviceId, properties).(seoj := Some(CONTROLLER_ID)))
      == Failure(IncompleteParameters)
  {
  }

  /**
   * The confirmation of a received frame, stamped by the controller, is
   * accepted by Frame.create; its datagram has the received tid, the sender
   * as destination, the answering service code, the received property codes
   * without data, and the controller as source whatever the received
   * destination was.
   */
  lemma ConfirmationDatagram(frame: seq<uint8>)
    requires WellFormed(frame) && Tid(frame) != 0 && Seoj(frame) != 0 && Esv(frame) != 0
    ensures var p := Confirmation(frame).(seoj := Some(CONTROLLER_ID));
      && EncodeHex(p).Success?
      && var b := BytesFromHex(EncodeHex(p).value);
      && WellFormed(b) && |b| == 12 + 2 * Opc(frame)
      && Tid(b) == Tid(frame) && Seoj(b) == CONTROLLER_ID && Deoj(b) == Seoj(frame)
      && Esv(b) == GetResponseService(Esv(frame))
      && PropertiesOf(b) == Confirmation(frame).properties
  {
    var p := Confirmation(frame).(seoj := Some(CONTROLLER_ID));
    assert Fits(p);
    EncodeLayout(p);
    SizeOfConfirmed(p.properties);
    RoundTrip(p);
    assert NormalizedAll(p.properties) == p.properties;
  }

  class NodeProfile {
    const node: Node
    /** The device classes registered with addDeviceClass and the constructor each uses. */
    const registry: map<int, DeviceKind>
    var controller: Controller?
    var socket: bool
    /** The datagrams handed to the socket. */
    var datagrams: seq<Datagram>

    ghost predicate Valid()
      reads this, node, controller, if controller != null then controller.Repr() else {}
    {
      && node.Valid()
      && node.deviceClass == CLASS_NODE_PROFILE && node.instanceCode == 1
      && (controller != null ==>
        && controller.Valid()
        && node != controller.node
        && forall d :: d in controller.devices ==> d.node != node)
    }

    /** new NodeProfile(enlite): a closed node profile, object 0x0EF001, with no controller or socket. */
    constructor(registry: map<int, DeviceKind>)
      ensures Valid() && fresh(node) && !node.active && node.Id() == 0x0EF001
      ensures this.registry == registry && controller == null && !socket && datagrams == []
    {
      node := new Node(CLASS_NODE_PROFILE, 1);
      this.registry := registry;
      controller := null;
      socket := false;
      datagrams := [];
    }

    /**
     * open: false without a controller or when already open; otherwise the
     * node profile opens first, and if the controller then fails to open it
     * returns false and stays open with no controller; on success it keeps
     * the controller and creates and binds the socket.
     */
    method Open(c: Controller?) returns (ok: bool)
      requires Valid()
      requires c != null ==> c.Valid() && node != c.node && forall d :: d in c.devices ==> d.node != node
      modifies this, node, if c != null then {c.node} else {}
      ensures Valid() && datagrams == old(datagrams)
      ensures c == null || old(node.active) ==> !ok && node.active == old(node.active)
      ensures c != null && !old(node.active) ==> node.active && c.node.active && (ok <==> !old(c.node.active))
      ensures ok ==> controller == c && socket
      ensures !ok ==> controller == old(controller) && socket == old(socket)
    {
      if c == null {
        return false;
      }
      var selfOpened := node.Open();
      if !selfOpened {
        return false;
      }
      var controllerOpened := c.node.Open();
      if !controllerOpened {
        return false;
      }
      controller := c;
      socket := true;
      return true;
    }

    /**
     * close: false when not open; otherwise the socket is closed, the
     * controller is closed and released, and the node profile closes.
     */
    method Close() returns (ok: bool)
      requires Valid()
      modifies this, node, if controller != null then controller.Repr() else {}
      ensures Valid() && datagrams == old(datagrams)
      ensures ok <==> old(node.active)
      ensures !ok ==> controller == old(controller) && socket == old(socket)
      ensures ok ==> !node.active && controller == null && !socket
      ensures ok && old(controller) != null ==> old(controller).devices == [] && !old(controller).node.active
      ensures ok && old(controller) != null ==> forall d :: d in old(controller.devices) ==> !d.node.active
    {
      if !node.active {
        return false;
      }
      if socket {
        socket := false;
      }
      if controller != null {
        var _ := controller.Close();
        controller := null;
      }
      ok := node.Close();
    }

    /**
     * send: nothing happens while closed; without a socket it throws; else
     * the frame is created (throwing when Frame.create does) and its bytes
     * go to the ECHONET Lite port of address.
     */
    method Send(params: FrameParams, address: string) returns (r: Outcome<Error>)
      modifies this
      ensures controller == old(controller) && socket == old(socket)
      ensures !node.active ==> r == Pass && datagrams == old(datagrams)
      ensures node.active && !socket ==> r == Fail(NoSocket) && datagrams == old(datagrams)
      ensures node.active && socket ==>
        var e := EncodeHex(params);
        && (r.Pass? <==> e.Success?)
        && (e.Failure? ==> r == Fail(e.error) && datagrams == old(datagrams))
        && (e.Success? ==> datagrams == old(datagrams) + [Datagram(BytesFromHex(e.value), PORT_ENLITE, address)])
    {
      if !node.active {
        return Pass;
      }
      if !socket {
        return Fail(NoSocket);
      }
      var frame := Create(params);
      if frame.Failure? {
        return Fail(frame.error);
      }
      datagrams := datagrams + [Datagram(frame.value.buffer[..], PORT_ENLITE, address)];
      return Pass;
    }

    /** createDevice: the registered constructor for the entry's class, if any. */
    method CreateDevice(address: string, deviceClass: int, instanceCode: int) returns (r: Option<Result<Device, Error>>)
      ensures var m := Made(registry, address, Entry(deviceClass, instanceCode));
        && (r.None? <==> m.None?)
        && (r.Some? ==> (r.value.Failure? <==> m.value.Failure?))
        && (r.Some? && r.value.Failure? ==> r.value.error == m.value.error)
        && (r.Some? && r.value.Success? ==> KeyOf(r.value.value) == m.value.value)
      ensures r.Some? && r.value.Success? ==>
        var d := r.value.value; fresh(d) && fresh(d.node) && d.Valid() && !d.node.active
    {
      if deviceClass !in registry {
        return None;
      }
      if registry[deviceClass] == SmartMeter {
        var meter := new Device.Meter(address);
        return Some(Success(meter));
      }
      if !ValidInstance(instanceCode) {
        return Some(Failure(InvalidIdentity));
      }
      var device := new Device(address, deviceClass, instanceCode);
      return Some(Success(device));
    }

    /** One entry of the instance list: createDevice, then addDevice when a device was made. */
    method Admit(address: string, deviceClass: int, instanceCode: int) returns (stop: Option<Error>)
      requires Valid() && controller != null
      modifies controller
      ensures Valid() && controller.sent == old(controller.sent)
      ensures var m := Made(registry, address, Entry(deviceClass, instanceCode));
        && stop == (if m.Some? && m.value.Failure? then Some(m.value.error) else None)
        && Keys(controller.devices) == if m.Some? && m.value.Success? then AddKey(Keys(old(controller.devices)), m.value.value)
          else Keys(old(controller.devices))
      ensures old(controller.devices) <= controller.devices
      ensures forall j :: |old(controller.devices)| <= j < |controller.devices| ==> fresh(controller.devices[j])
    {
      var made := CreateDevice(address, deviceClass, instanceCode);
      if made.None? {
        return None;
      }
      if made.value.Failure? {
        return Some(made.value.error);
      }
      var device := made.value.value;
      assert device.node != node;
      var _ := controller.AddDevice(device);
      return None;
    }

    /**
     * onInstanceListNotification: ignored while closed or without a
     * controller, without data or with a zero count; otherwise each entry is
     * passed to createDevice and a made device is added to the controller.
     */
    method OnInstanceListNotification(address: string, property: Property) returns (r: Outcome<Error>)
      requires Valid() && (property.edt.Some? ==> ListFits(property.edt.value))
      modifies controller
      ensures Valid()
      ensures node.active && controller != null ==> Notified(controller, registry, address, property, r)
      ensures !(node.active && controller != null) ==> r == Pass && (controller != null ==> unchanged(controller))
    {
      if !node.active || controller == null {
        return Pass;
      }
      if property.edt.None? {
        return Pass;
      }
      var edt := property.edt.value;
      var count := edt[0];
      if count == 0 {
        return Pass;
      }
      r := AdmitEntries(address, edt);
    }

    /** The loop of onInstanceListNotification over the entries of an instance list. */
    method AdmitEntries(address: string, edt: seq<uint8>) returns (r: Outcome<Error>)
      requires Valid() && controller != null && ListFits(edt)
      modifies controller
      ensures Valid() && controller.sent == old(controller.sent)
      ensures var d := Discover(registry, address, Entries(edt), Keys(old(controller.devices)));
        && Keys(controller.devices) == d.keys
        && r == (if d.error.Some? then Fail(d.error.value) else Pass)
      ensures old(controller.devices) <= controller.devices
    {
      var count := edt[0];
      var list := edt[1..];
      ghost var entries := Entries(edt);
      ghost var spec := Discover(registry, address, entries, Keys(controller.devices));
      var offset := 0;
      var i := 0;
      while i < count
        invariant 0 <= i <= count && offset == 3 * i
        invariant Valid() && controller.sent == old(controller.sent)
        invariant spec == Discover(registry, address, entries[i..], Keys(controller.devices))
        invariant old(controller.devices) <= controller.devices
      {
        assert entries[i..][1..] == entries[i + 1..];
        assert list[offset..offset + 2] == edt[1 + 3 * i .. 3 + 3 * i];
        var deviceClass := UIntBE(list[offset..offset + 2]);
        var instanceCode := list[offset + 2];
        assert entries[i] == Entry(deviceClass, instanceCode);
        ghost var keys := Keys(controller.devices);
        ghost var m := Made(registry, address, entries[i]);
        assert spec == if m.None? then Discover(registry, address, entries[i + 1..], keys)
          else if m.value.Failure? then Discovery(keys, Some(m.value.error))
          else Discover(registry, address, entries[i + 1..], AddKey(keys, m.value.value));
        var stop := Admit(address, deviceClass, instanceCode);
        if stop.Some? {
          return Fail(stop.value);
        }
        offset := offset + 3;
        i := i + 1;
      }
      return Pass;
    }

    /** onInf: only the first instance-list notification of the frame is handled. */
    method OnInf(address: string, frame: seq<uint8>) returns (r: Outcome<Error>)
      requires Valid() && WellFormed(frame) && NotificationsFit(frame)
      modifies controller
      ensures Valid() && controller == old(controller)
      ensures var k := FirstNotification(PropertiesOf(frame));
        && (k.None? ==> r == Pass && (controller != null ==> unchanged(controller)))
        && (k.Some? ==> ListHandled(node.active, controller, registry, address, PropertiesOf(frame)[k.value], r))
    {
      var ps := PropertiesOf(frame);
      var i := 0;
      while i < |ps|
        invariant 0 <= i <= |ps|
        invariant forall j :: 0 <= j < i ==> ps[j].epc != EPC_INSTANCE_LIST_NOTIFICATION
      {
        if ps[i].epc == EPC_INSTANCE_LIST_NOTIFICATION {
          assert FirstNotification(ps) == Some(i);
          r := OnInstanceListNotification(address, ps[i]);
          return;
        }
        i := i + 1;
      }
      return Pass;
    }

    /**
     * onData: frames are dropped while closed, without a controller or
     * without properties; frames for another object go to the controller;
     * the rest go through the node's own dispatch, where only INF is handled.
     */
    method OnData(address: string, frame: seq<uint8>) returns (route: Delivery, r: Outcome<Error>)
      requires Valid() && WellFormed(frame) && NotificationsFit(frame)
      modifies if controller != null then controller.Repr() else {}
      ensures Valid()
      ensures route == RouteOf(node.active, controller != null,
        if controller != null then old(controller.devices) else [], address, frame)
      ensures route.Forwarded? && route.target.Some? ==>
        Handled(old(controller.devices)[route.target.value], address, frame)
      ensures route.Dispatched? && route.handler.OnInf? ==>
        var k := FirstNotification(PropertiesOf(frame));
        && (k.None? ==> r == Pass && unchanged(controller))
        && (k.Some? ==> ListHandled(node.active, controller, registry, address, PropertiesOf(frame)[k.value], r))
      ensures !(route.Dispatched? && route.handler.OnInf?) ==> r == Pass
      ensures controller != null ==> unchanged(controller.node) && forall d :: d in old(controller.devices) ==> unchanged(d.node)
      ensures controller != null && (route.Dropped? || (route.Dispatched? && !route.handler.OnInf?)) ==>
        && unchanged(controller)
        && forall d :: d in old(controller.devices) ==> unchanged(d)
      ensures route.Dispatched? && route.handler.OnInf? ==> forall d :: d in old(controller.devices) ==> unchanged(d)
      ensures route.Forwarded? ==>
        && unchanged(controller)
        && forall j :: 0 <= j < |old(controller.devices)| && route.target != Some(j) ==> unchanged(old(controller.devices)[j])
    {
      r := Pass;
      if !node.active || controller == null {
        return Dropped, Pass;
      }
      if Opc(frame) == 0 {
        return Dropped, Pass;
      }
      if Deoj(frame) != node.Id() {
        var target := controller.OnData(address, frame);
        return Forwarded(target), Pass;
      }
      var h := node.OnData(Esv(frame));
      if h.OnInf? {
        r := OnInf(address, frame);
      }
      route := Dispatched(h);
    }
  }
}