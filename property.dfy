/** One property of a frame: its code (EPC) and optional data (EDT). */
module Props {
  import opened Wrappers
  import opened Bytes

  /** A property: code and, optionally, its data; a datatype stores both as given. */
  datatype Property = Property(epc: uint8, edt: Option<seq<uint8>>)

  /**
   * The data length (PDC): the length of the data, 0 when there is none.
   * The contract is the definition itself; the encoder and EncodeLayout use it.
   */
  function Pdc(p: Property): (r: nat)
    ensures p.edt.None? ==> r == 0
    ensures p.edt.Some? ==> r == |p.edt.value|
  {
    if p.edt.Some? then |p.edt.value| else 0
  }

  /** The data bytes of a property, empty when it has none. */
  function EdtOf(p: Property): (r: seq<uint8>)
    ensures |r| == Pdc(p)
  {
    if p.edt.Some? then p.edt.value else []
  }

  /**
   * The acknowledgement form of a property: same code, data stripped.
   * The contract is the definition itself; ConfirmedIdempotent is its property.
   */
  function Confirmed(p: Property): (r: Property)
    ensures r.epc == p.epc && r.edt.None? && Pdc(r) == 0
  {
    Property(p.epc, None)
  }

  lemma ConfirmedIdempotent(p: Property)
    ensures Confirmed(Confirmed(p)) == Confirmed(p)
  {
  }

  /** A property as the frame decoder returns it: empty data comes back absent. */
  function Normalized(p: Property): (r: Property)
    ensures r.epc == p.epc && Pdc(r) == Pdc(p) && EdtOf(r) == EdtOf(p)
    ensures r.edt.Some? ==> r.edt.value != []
  {
    if Pdc(p) == 0 then Property(p.epc, None) else p
  }
}
