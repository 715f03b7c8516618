/**
 * The local controller object (src/controller.ts): the list of discovered
 * devices, the routing of received frames to them by address and source
 * object, and the stamping of outgoing frames with its own id.
 */
module Controllers {
  import opened Wrappers
  import opened Codes
  import opened Bytes
  import opened Frames
  import opened Nodes
  import opened Devices

  /** What lookup matches a device on: its address and its object id. */
  datatype Key = Key(address: string, id: int)

  function KeyOf(d: Device): Key {
    Key(d.address, d.node.Id())
  }

  function Keys(ds: seq<Device>): (r: seq<Key>)
    ensures |r| == |ds| && forall i :: 0 <= i < |ds| ==> r[i] == KeyOf(ds[i])
  {
    if ds == [] then [] else Keys(ds[..|ds| - 1]) + [KeyOf(ds[|ds| - 1])]
  }

  /** lookup: the index of the first device with that address and id. */
  function Find(ds: seq<Device>, key: Key): (r: Option<nat>)
    ensures r.None? <==> forall j :: 0 <= j < |ds| ==> KeyOf(ds[j]) != key
    ensures r.Some? ==> r.value < |ds| && KeyOf(ds[r.value]) == key
    ensures r.Some? ==> forall j :: 0 <= j < r.value ==> KeyOf(ds[j]) != key
    decreases |ds|
  {
    if ds == [] then None
    else if KeyOf(ds[0]) == key then Some(0)
    else
      var rest := Find(ds[1..], key);
      assert forall j :: 1 <= j < |ds| ==> ds[j] == ds[1..][j - 1];
      if rest.Some? then Some(rest.value + 1) else None
  }

  /** No two devices share address and id. */
  predicate Unique(ds: seq<Device>) {
    forall i, j :: 0 <= i < j < |ds| ==> KeyOf(ds[i]) != KeyOf(ds[j])
  }

  /** lookup finds nothing exactly when the key is not among the listed devices' keys. */
  lemma FindNoneIffAbsent(ds: seq<Device>, key: Key)
    ensures Find(ds, key).None? <==> key !in Keys(ds)
  {
    if key in Keys(ds) {
      var i :| 0 <= i < |ds| && Keys(ds)[i] == key;
      assert KeyOf(ds[i]) == key;
    }
  }

  /** addDevice on keys: a key already present is not added again. */
  function AddKey(keys: seq<Key>, k: Key): seq<Key> {
    if k in keys then keys else keys + [k]
  }

  /** The nodes of a device list. */
  function NodesOf(ds: seq<Device>): set<Node> {
    set d | d in ds :: d.node
  }

  class Controller {
    const node: Node
    var devices: seq<Device>
    /** The calls this controller made to the node profile's send. */
    var sent: seq<Outbound>

    ghost predicate Valid()
      reads this, Repr()
    {
      && node.Valid()
      && node.deviceClass == CLASS_CONTROLLER && node.instanceCode == 1
      && Unique(devices)
      && (forall d :: d in devices ==> d.node != node)
      && forall d :: d in devices ==> d.Valid()
    }

    /** Everything the controller's methods may change. */
    ghost function Repr(): set<object>
      reads this
    {
      {this, node} + (set d | d in devices :: d as object) + (set d | d in devices :: d.node as object)
    }

    /** new Controller(nodeProfile): a closed controller, object 0x05FF01, with no devices. */
    constructor()
      ensures Valid() && fresh(node) && !node.active && node.tid == 0
      ensures node.Id() == 0x05FF01
      ensures devices == [] && sent == []
    {
      node := new Node(CLASS_CONTROLLER, 1);
      devices := [];
      sent := [];
    }

    /**
     * addDevice: false and no change when a device with the same address and
     * id is already listed; otherwise the device is appended.
     */
    method AddDevice(device: Device) returns (added: bool)
      requires Valid() && device.Valid() && device.node != node
      modifies this
      ensures Valid() && sent == old(sent)
      ensures added <==> Find(old(devices), KeyOf(device)).None?
      ensures devices == if added then old(devices) + [device] else old(devices)
      ensures Keys(devices) == AddKey(Keys(old(devices)), KeyOf(device))
    {
      FindNoneIffAbsent(devices, KeyOf(device));
      if Find(devices, KeyOf(device)).Some? {
        return false;
      }
      assert Keys(devices + [device]) == Keys(devices) + [KeyOf(device)];
      devices := devices + [device];
      return true;
    }

    /**
     * onData: the frame goes to the device whose address and id match the
     * sender, and to no other; the controller's own open flag is not looked at.
     */
    method OnData(address: string, frame: seq<uint8>) returns (target: Option<nat>)
      requires Valid() && WellFormed(frame)
      modifies set d | d in devices && KeyOf(d) == Key(address, Seoj(frame))
      ensures Valid()
      ensures target == Find(devices, Key(address, Seoj(frame)))
      ensures target.Some? ==> Handled(devices[target.value], address, frame)
      ensures forall j :: 0 <= j < |devices| && target != Some(j) ==> unchanged(devices[j])
    {
      target := Find(devices, Key(address, Seoj(frame)));
      if target.Some? {
        var device := devices[target.value];
        var _ := device.OnData(address, frame);
      }
    }

    /**
     * send: throws unless deoj and esv are truthy; otherwise the parameters
     * are stamped with this controller's id as source and passed on.
     */
    method Send(params: FrameParams, address: string) returns (r: Result<FrameParams, Error>)
      modifies this
      ensures devices == old(devices)
      ensures r.Failure? <==> !Truthy(params.deoj) || params.esv == 0
      ensures r.Failure? ==> r.error == IncompleteParameters && sent == old(sent)
      ensures r.Success? ==> r.value == params.(seoj := Some(node.Id()))
      ensures r.Success? ==> sent == old(sent) + [Outbound(r.value, address)]
    {
      if params.deoj.None? || params.deoj.value == 0 || params.esv == 0 {
        return Failure(IncompleteParameters);
      }
      var stamped := params.(seoj := Some(node.Id()));
      sent := sent + [Outbound(stamped, address)];
      return Success(stamped);
    }

    /** close: every listed device is closed in turn, the list is emptied, then the controller closes. */
    method Close() returns (ok: bool)
      requires Valid()
      modifies this, node, NodesOf(devices)
      ensures Valid() && sent == old(sent)
      ensures ok <==> old(node.active)
      ensures devices == [] && !node.active
      ensures forall d :: d in old(devices) ==> !d.node.active
    {
      var i := 0;
      while i < |devices|
        invariant 0 <= i <= |devices|
        invariant devices == old(devices) && sent == old(sent) && Valid()
        invariant node.active == old(node.active)
        invariant forall j :: 0 <= j < i ==> !devices[j].node.active
      {
        var _ := devices[i].Close();
        i := i + 1;
      }
      devices := [];
      ok := node.Close();
    }
  }
}
