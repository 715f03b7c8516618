/**
 * The ECHONET Lite frame (src/frame.ts): EHD, TID, SEOJ, DEOJ, ESV, OPC, then
 * OPC properties, each an EPC, a PDC and PDC bytes of EDT.
 */
module Frames {
  import opened Wrappers
  import opened Codes
  import opened Bytes
  import opened HexCodec
  import opened Lib
  import opened Props

  const EHD: int := 0x1081

  /** The parameters of a frame to send; tid, seoj and deoj may be missing. */
  datatype FrameParams = FrameParams(
    tid: Option<int>, seoj: Option<int>, deoj: Option<int>, esv: int, properties: seq<Property>)

  /** JavaScript truthiness of an optional number: present and not zero. */
  predicate Truthy(x: Option<int>) {
    x.Some? && x.value != 0
  }

  /** The fields Frame.create insists on: tid, seoj, deoj and esv all truthy. */
  predicate Complete(p: FrameParams) {
    Truthy(p.tid) && Truthy(p.seoj) && Truthy(p.deoj) && p.esv != 0
  }

  /** Every number Frame.create formats is within num2hex's range. */
  predicate Safe(p: FrameParams)
    requires Complete(p)
  {
    HeaderSafe(p) && forall i :: 0 <= i < |p.properties| ==> Pdc(p.properties[i]) <= MAX_SAFE_INTEGER
  }

  predicate HeaderSafe(p: FrameParams)
    requires Complete(p)
  {
    && p.tid.value <= MAX_SAFE_INTEGER
    && p.seoj.value <= MAX_SAFE_INTEGER
    && p.deoj.value <= MAX_SAFE_INTEGER
    && p.esv <= MAX_SAFE_INTEGER
    && |p.properties| <= MAX_SAFE_INTEGER
  }

  /** Appends the hex of each data byte to acc, as the inner loop of Frame.create does. */
  function AppendEdtHex(acc: string, edt: seq<uint8>): string
    decreases |edt|
  {
    if edt == [] then acc else AppendEdtHex(acc + Hex(edt[0], 1), edt[1..])
  }

  /** Appends a property's epc, pdc and data in hex to acc. */
  function AppendPropertyHex(acc: string, p: Property): string {
    AppendEdtHex(acc + Hex(p.epc, 1) + Hex(Pdc(p), 1), EdtOf(p))
  }

  /** Appends every property in order, as the outer loop of Frame.create does. */
  function AppendPropertiesHex(acc: string, ps: seq<Property>): string
    decreases |ps|
  {
    if ps == [] then acc else AppendPropertiesHex(AppendPropertyHex(acc, ps[0]), ps[1..])
  }

  function HeaderHex(p: FrameParams): string
    requires Complete(p)
  {
    Hex(EHD, 2) + Hex(p.tid.value, 2) + Hex(p.seoj.value, 3) + Hex(p.deoj.value, 3)
      + Hex(p.esv, 1) + Hex(|p.properties|, 1)
  }

  /**
   * The hex text Frame.create hands to Buffer.from, or the error it throws:
   * missing fields first, then the first number num2hex refuses.
   */
  function EncodeHex(p: FrameParams): (r: Result<string, Error>)
    ensures r == Failure(IncompleteParameters) <==> !Complete(p)
    ensures r == Failure(NumberTooLarge) <==> Complete(p) && !Safe(p)
    ensures r.Failure? ==> r.error == IncompleteParameters || r.error == NumberTooLarge
  {
    if !Complete(p) then Failure(IncompleteParameters)
    else if !Safe(p) then Failure(NumberTooLarge)
    else Success(AppendPropertiesHex(HeaderHex(p), p.properties))
  }

  /**
   * Frame.create: checks the required fields, appends the hex of every
   * field and of every property to a string, and decodes that string into
   * the frame's buffer.
   */
  method Create(params: FrameParams) returns (r: Result<Frame, Error>)
    ensures r.Success? <==> EncodeHex(params).Success?
    ensures r.Failure? ==> EncodeHex(params) == Failure(r.error)
    ensures r.Success? ==> fresh(r.value.buffer) && r.value.buffer[..] == BytesFromHex(EncodeHex(params).value)
  {
    if !Truthy(params.tid) || !Truthy(params.seoj) || !Truthy(params.deoj) || params.esv == 0 {
      return Failure(IncompleteParameters);
    }
    var header := HeaderText(params);
    if header.Failure? { return Failure(header.error); }
    var data := header.value;
    var ps := params.properties;
    var i := 0;
    while i < |ps|
      invariant 0 <= i <= |ps|
      invariant HeaderSafe(params)
      invariant forall j :: 0 <= j < i ==> Pdc(ps[j]) <= MAX_SAFE_INTEGER
      invariant AppendPropertiesHex(data, ps[i..]) == AppendPropertiesHex(HeaderHex(params), ps)
    {
      assert ps[i..][1..] == ps[i + 1..];
      var next := AppendProperty(data, ps[i]);
      if next.Failure? { return Failure(next.error); }
      data := next.value;
      i := i + 1;
    }
    assert ps[i..] == [];
    var bytes := BytesFromHex(data);
    var buffer := new uint8[|bytes|](j requires 0 <= j < |bytes| => bytes[j]);
    var frame := new Frame(buffer);
    r := Success(frame);
  }

  /** The first half of Frame.create: EHD, tid, seoj, deoj, esv and OPC in hex. */
  method HeaderText(params: FrameParams) returns (r: Result<string, Error>)
    requires Complete(params)
    ensures r.Failure? <==> !HeaderSafe(params)
    ensures r.Failure? ==> r.error == NumberTooLarge
    ensures r.Success? ==> r.value == HeaderHex(params)
  {
    var data := Num2Hex(EHD, 2).value;
    var h := Num2Hex(params.tid.value, 2);
    if h.Failure? { return Failure(h.error); }
    data := data + h.value;
    h := Num2Hex(params.seoj.value, 3);
    if h.Failure? { return Failure(h.error); }
    data := data + h.value;
    h := Num2Hex(params.deoj.value, 3);
    if h.Failure? { return Failure(h.error); }
    data := data + h.value;
    h := Num2Hex(params.esv, 1);
    if h.Failure? { return Failure(h.error); }
    data := data + h.value;
    h := Num2Hex(|params.properties|, 1);
    if h.Failure? { return Failure(h.error); }
    data := data + h.value;
    r := Success(data);
  }

  /**
   * One turn of Frame.create's property loop: appends the property's epc and
   * pdc, then its data byte by byte, to data.
   */
  method AppendProperty(data: string, property: Property) returns (r: Result<string, Error>)
    ensures r.Failure? <==> Pdc(property) > MAX_SAFE_INTEGER
    ensures r.Failure? ==> r.error == NumberTooLarge
    ensures r.Success? ==> r.value == AppendPropertyHex(data, property)
  {
    var pdc := Num2Hex(Pdc(property), 1);
    if pdc.Failure? { return Failure(pdc.error); }
    var text := data + Num2Hex(property.epc, 1).value + pdc.value;
    if property.edt.Some? {
      var edt := property.edt.value;
      var k := 0;
      while k < |edt|
        invariant 0 <= k <= |edt|
        invariant AppendEdtHex(text, edt[k..]) == AppendPropertyHex(data, property)
      {
        assert edt[k..][1..] == edt[k + 1..];
        text := text + Num2Hex(edt[k], 1).value;
        k := k + 1;
      }
      assert edt[k..] == [];
    }
    r := Success(text);
  }

  /** A frame over a byte buffer; the tid setter rewrites it in place. */
  class Frame {
    const buffer: array<uint8>

    constructor(buffer: array<uint8>)
      ensures this.buffer == buffer
    {
      this.buffer := buffer;
    }

    /** The tid setter: writes tid big-endian into bytes 2 and 3. */
    method SetTid(tid: int)
      requires 0 <= tid < 0x1_0000 && buffer.Length >= 4
      modifies buffer
      ensures buffer[..] == WithTid(old(buffer[..]), tid)
    {
      buffer[2] := tid / 0x100;
      buffer[3] := tid % 0x100;
    }
  }

  /** The bytes of b with tid written over bytes 2 and 3. */
  function WithTid(b: seq<uint8>, tid: int): seq<uint8>
    requires 0 <= tid < 0x1_0000 && |b| >= 4
  {
    b[2 := tid / 0x100][3 := tid % 0x100]
  }

  function Ehd(b: seq<uint8>): (r: nat)
    requires |b| >= 2
    ensures r < 0x1_0000
  {
    Pow256Small();
    UIntBE(b[0..2])
  }

  function Tid(b: seq<uint8>): (r: nat)
    requires |b| >= 4
    ensures r < 0x1_0000
  {
    Pow256Small();
    UIntBE(b[2..4])
  }

  function Seoj(b: seq<uint8>): (r: nat)
    requires |b| >= 7
    ensures r < 0x100_0000
  {
    Pow256Small();
    UIntBE(b[4..7])
  }

  function Deoj(b: seq<uint8>): (r: nat)
    requires |b| >= 10
    ensures r < 0x100_0000
  {
    Pow256Small();
    UIntBE(b[7..10])
  }

  function Esv(b: seq<uint8>): uint8
    requires |b| >= 11
  {
    b[10]
  }

  function Opc(b: seq<uint8>): uint8
    requires |b| >= 12
  {
    b[11]
  }

  /** count properties, each 1 + 1 + PDC bytes, lie within s. */
  predicate PropsFit(s: seq<uint8>, count: nat)
    decreases count
  {
    count == 0 || (|s| >= 2 && |s| >= 2 + s[1] as int && PropsFit(s[2 + s[1] as int..], count - 1))
  }

  /** The header is complete and the OPC properties lie within the buffer. */
  predicate WellFormed(b: seq<uint8>) {
    |b| >= 12 && PropsFit(b[12..], b[11])
  }

  /**
   * The properties getter: count entries read in order; a PDC of 0 gives a
   * property without data.
   */
  function DecodeProperties(s: seq<uint8>, count: nat): (r: seq<Property>)
    requires PropsFit(s, count)
    ensures |r| == count
    ensures forall i :: 0 <= i < |r| ==> r[i].edt.Some? ==> r[i].edt.value != []
    decreases count
  {
    if count == 0 then []
    else
      var pdc := s[1] as int;
      var edt := if pdc == 0 then None else Some(s[2..2 + pdc]);
      [Property(s[0], edt)] + DecodeProperties(s[2 + pdc..], count - 1)
  }

  function PropertiesOf(b: seq<uint8>): (r: seq<Property>)
    requires WellFormed(b)
    ensures |r| == Opc(b)
  {
    DecodeProperties(b[12..], b[11])
  }

  /** Rewriting the tid changes the tid getter and no other byte or field. */
  lemma WithTidOnlyTid(b: seq<uint8>, tid: int)
    requires 0 <= tid < 0x1_0000 && |b| >= 12
    ensures var c := WithTid(b, tid);
      && |c| == |b|
      && Tid(c) == tid
      && (forall i :: 0 <= i < |b| && i != 2 && i != 3 ==> c[i] == b[i])
      && Ehd(c) == Ehd(b) && Seoj(c) == Seoj(b) && Deoj(c) == Deoj(b)
      && Esv(c) == Esv(b) && Opc(c) == Opc(b)
      && (WellFormed(c) <==> WellFormed(b))
      && (WellFormed(b) ==> PropertiesOf(c) == PropertiesOf(b))
  {
    var c := WithTid(b, tid);
    Pow256Small();
    assert c[2..4] == ToBE(tid, 2) by { TwoBytes(tid); }
    assert c[0..2] == b[0..2];
    assert c[4..7] == b[4..7];
    assert c[7..10] == b[7..10];
    assert c[12..] == b[12..];
  }

  // ---- Encoding at the byte level, for frames whose fields fit their widths

  /** Every field of p is present and fits the width the frame gives it. */
  predicate Fits(p: FrameParams) {
    && Complete(p)
    && 0 < p.tid.value < 0x1_0000
    && 0 < p.seoj.value < 0x100_0000
    && 0 < p.deoj.value < 0x100_0000
    && 0 < p.esv < 0x100
    && |p.properties| < 0x100
    && forall i :: 0 <= i < |p.properties| ==> Pdc(p.properties[i]) < 0x100
  }

  function PropertyBytes(p: Property): (r: seq<uint8>)
    requires Pdc(p) < 0x100
    ensures |r| == 2 + Pdc(p)
  {
    [p.epc, Pdc(p)] + EdtOf(p)
  }

  /** The number of bytes the properties take: 2 + PDC each. */
  function Size(ps: seq<Property>): nat {
    if ps == [] then 0 else 2 + Pdc(ps[0]) + Size(ps[1..])
  }

  function PropertiesBytes(ps: seq<Property>): (r: seq<uint8>)
    requires forall i :: 0 <= i < |ps| ==> Pdc(ps[i]) < 0x100
    ensures |r| == Size(ps)
  {
    if ps == [] then [] else PropertyBytes(ps[0]) + PropertiesBytes(ps[1..])
  }

  /** The twelve header bytes: EHD, tid, seoj, deoj big-endian, then esv and OPC. */
  function HeaderBytes(p: FrameParams): (r: seq<uint8>)
    requires Fits(p)
    ensures |r| == 12
  {
    Pow256Small();
    [0x10, 0x81] + ToBE(p.tid.value, 2) + ToBE(p.seoj.value, 3) + ToBE(p.deoj.value, 3)
      + [p.esv] + [|p.properties|]
  }

  /** The frame's bytes: the header, then the properties in order. */
  function Encoded(p: FrameParams): (r: seq<uint8>)
    requires Fits(p)
    ensures |r| == 12 + Size(p.properties)
  {
    HeaderBytes(p) + PropertiesBytes(p.properties)
  }

  lemma HexField(n: nat, w: nat)
    requires 1 <= w <= 8 && n < Pow256(w) && n <= MAX_SAFE_INTEGER
    ensures HexPairs(Hex(n, w)) && BytesFromHex(Hex(n, w)) == ToBE(n, w)
  {
    Num2HexFixed(n, w);
  }

  /** Appending the hex of a fitting field appends its big-endian bytes. */
  lemma AppendField(acc: string, n: nat, w: nat)
    requires HexPairs(acc)
    requires 1 <= w <= 8 && n < Pow256(w) && n <= MAX_SAFE_INTEGER
    ensures HexPairs(acc + Hex(n, w))
    ensures BytesFromHex(acc + Hex(n, w)) == BytesFromHex(acc) + ToBE(n, w)
  {
    HexField(n, w);
    BytesFromHexAppend(acc, Hex(n, w));
  }

  /** Appending the hex of one byte appends that byte. */
  lemma AppendByte(acc: string, x: uint8)
    requires HexPairs(acc)
    ensures HexPairs(acc + Hex(x, 1))
    ensures BytesFromHex(acc + Hex(x, 1)) == BytesFromHex(acc) + [x]
  {
    Pow256Small();
    AppendField(acc, x, 1);
    assert ToBE(x, 1) == [x];
  }

  lemma {:induction false} AppendEdtHexBytes(acc: string, edt: seq<uint8>)
    requires HexPairs(acc)
    ensures HexPairs(AppendEdtHex(acc, edt))
    ensures BytesFromHex(AppendEdtHex(acc, edt)) == BytesFromHex(acc) + edt
    decreases |edt|
  {
    if edt != [] {
      AppendByte(acc, edt[0]);
      AppendEdtHexBytes(acc + Hex(edt[0], 1), edt[1..]);
      assert BytesFromHex(acc) + [edt[0]] + edt[1..] == BytesFromHex(acc) + edt;
    }
  }

  lemma AppendPair(a: seq<uint8>, e: uint8, d: uint8, t: seq<uint8>)
    ensures a + [e] + [d] + t == a + ([e, d] + t)
  {
  }

  lemma AppendPropertyHexBytes(acc: string, p: Property)
    requires HexPairs(acc) && Pdc(p) < 0x100
    ensures HexPairs(AppendPropertyHex(acc, p))
    ensures BytesFromHex(AppendPropertyHex(acc, p)) == BytesFromHex(acc) + PropertyBytes(p)
  {
    var a, e, d := acc + Hex(p.epc, 1), p.epc, Pdc(p);
    AppendByte(acc, e);
    AppendByte(a, d);
    AppendEdtHexBytes(a + Hex(d, 1), EdtOf(p));
    AppendPair(BytesFromHex(acc), e, d, EdtOf(p));
  }

  lemma AppendAssoc(a: seq<uint8>, b: seq<uint8>, c: seq<uint8>)
    ensures a + b + c == a + (b + c)
  {
  }

  lemma {:induction false} AppendPropertiesHexBytes(acc: string, ps: seq<Property>)
    requires HexPairs(acc)
    requires forall i :: 0 <= i < |ps| ==> Pdc(ps[i]) < 0x100
    ensures HexPairs(AppendPropertiesHex(acc, ps))
    ensures BytesFromHex(AppendPropertiesHex(acc, ps)) == BytesFromHex(acc) + PropertiesBytes(ps)
    decreases |ps|
  {
    if ps != [] {
      var p, rest := ps[0], ps[1..];
      AppendPropertyHexBytes(acc, p);
      AppendPropertiesHexBytes(AppendPropertyHex(acc, p), rest);
      assert PropertiesBytes(ps) == PropertyBytes(p) + PropertiesBytes(rest);
      AppendAssoc(BytesFromHex(acc), PropertyBytes(p), PropertiesBytes(rest));
    }
  }

  lemma HeaderLayout(p: FrameParams)
    requires Fits(p)
    ensures HexPairs(HeaderHex(p)) && BytesFromHex(HeaderHex(p)) == HeaderBytes(p)
  {
    Pow256Small();
    var tid, seoj, deoj := p.tid.value, p.seoj.value, p.deoj.value;
    HexField(EHD, 2);
    TwoBytes(EHD);
    var a := Hex(EHD, 2);
    AppendField(a, tid, 2);
    AppendField(a + Hex(tid, 2), seoj, 3);
    AppendField(a + Hex(tid, 2) + Hex(seoj, 3), deoj, 3);
    AppendByte(a + Hex(tid, 2) + Hex(seoj, 3) + Hex(deoj, 3), p.esv);
    AppendByte(a + Hex(tid, 2) + Hex(seoj, 3) + Hex(deoj, 3) + Hex(p.esv, 1), |p.properties|);
  }

  /**
   * When every field fits its width, Frame.create succeeds and its buffer is
   * 0x10 0x81, tid, seoj, deoj, esv, the number of properties, then each
   * property's epc, pdc and data, in order: 12 + the sum of 2 + PDC bytes.
   */
  lemma EncodeLayout(p: FrameParams)
    requires Fits(p)
    ensures EncodeHex(p).Success?
    ensures BytesFromHex(EncodeHex(p).value) == Encoded(p)
    ensures |Encoded(p)| == 12 + Size(p.properties)
  {
    assert Safe(p);
    HeaderLayout(p);
    AppendPropertiesHexBytes(HeaderHex(p), p.properties);
  }

  /** An empty property list encodes to exactly the 12 header bytes, OPC 0. */
  lemma EmptyFrame(p: FrameParams)
    requires Fits(p) && p.properties == []
    ensures |Encoded(p)| == 12 && Opc(Encoded(p)) == 0
  {
  }

  /** The properties as the decoder returns them. */
  function NormalizedAll(ps: seq<Property>): (r: seq<Property>)
    ensures |r| == |ps| && forall i :: 0 <= i < |ps| ==> r[i] == Normalized(ps[i])
  {
    if ps == [] then [] else [Normalized(ps[0])] + NormalizedAll(ps[1..])
  }

  /** Decoding one encoded property in front of well-formed ones. */
  lemma DecodeStep(p: Property, tail: seq<uint8>, n: nat)
    requires Pdc(p) < 0x100 && PropsFit(tail, n)
    ensures PropsFit(PropertyBytes(p) + tail, n + 1)
    ensures DecodeProperties(PropertyBytes(p) + tail, n + 1) == [Normalized(p)] + DecodeProperties(tail, n)
  {
    var head := PropertyBytes(p);
    var s := head + tail;
    assert s[0] == p.epc && s[1] == Pdc(p);
    assert s[2 + Pdc(p)..] == tail;
    assert s[2..2 + Pdc(p)] == EdtOf(p);
  }

  lemma {:induction false} DecodeEncoded(ps: seq<Property>)
    requires forall i :: 0 <= i < |ps| ==> Pdc(ps[i]) < 0x100
    ensures PropsFit(PropertiesBytes(ps), |ps|)
    ensures DecodeProperties(PropertiesBytes(ps), |ps|) == NormalizedAll(ps)
  {
    if ps != [] {
      var rest := ps[1..];
      DecodeEncoded(rest);
      DecodeStep(ps[0], PropertiesBytes(rest), |rest|);
      assert PropertiesBytes(ps) == PropertyBytes(ps[0]) + PropertiesBytes(rest);
    }
  }

  /**
   * Decoding an encoded frame gives back its tid, seoj, deoj, esv and the
   * property list in order; a zero-length edt comes back absent.
   */
  lemma RoundTrip(p: FrameParams)
    requires Fits(p)
    ensures var b := Encoded(p);
      && WellFormed(b)
      && Ehd(b) == EHD
      && Tid(b) == p.tid.value && Seoj(b) == p.seoj.value && Deoj(b) == p.deoj.value
      && Esv(b) == p.esv && Opc(b) == |p.properties|
      && PropertiesOf(b) == NormalizedAll(p.properties)
  {
    HeaderRead(p, PropertiesBytes(p.properties));
    DecodeEncoded(p.properties);
  }

  /** The getters read back the header fields whatever follows them. */
  lemma HeaderRead(p: FrameParams, tail: seq<uint8>)
    requires Fits(p)
    ensures var b := HeaderBytes(p) + tail;
      && Ehd(b) == EHD
      && Tid(b) == p.tid.value && Seoj(b) == p.seoj.value && Deoj(b) == p.deoj.value
      && Esv(b) == p.esv && Opc(b) == |p.properties| && b[12..] == tail
  {
    var b := HeaderBytes(p) + tail;
    Pow256Small();
    TwoBytes(EHD);
    assert b[0..2] == ToBE(EHD, 2);
    assert b[2..4] == ToBE(p.tid.value, 2);
    assert b[4..7] == ToBE(p.seoj.value, 3);
    assert b[7..10] == ToBE(p.deoj.value, 3);
  }

  /**
   * Frame.confirmed: the acknowledgement of a received frame, with the same
   * tid, source and destination swapped, the answering service code and
   * every property reduced to its code.
   */
  function Confirmation(b: seq<uint8>): (r: FrameParams)
    requires WellFormed(b)
    ensures r.tid == Some(Tid(b)) && r.seoj == Some(Deoj(b)) && r.deoj == Some(Seoj(b))
    ensures r.esv == GetResponseService(Esv(b))
    ensures |r.properties| == Opc(b)
    ensures forall i :: 0 <= i < |r.properties| ==>
      r.properties[i].epc == PropertiesOf(b)[i].epc && r.properties[i].edt.None?
  {
    var ps := PropertiesOf(b);
    FrameParams(Some(Tid(b)), Some(Deoj(b)), Some(Seoj(b)), GetResponseService(Esv(b)),
      seq(|ps|, i requires 0 <= i < |ps| => Confirmed(ps[i])))
  }

  lemma {:induction false} SizeOfConfirmed(ps: seq<Property>)
    requires forall i :: 0 <= i < |ps| ==> Pdc(ps[i]) == 0
    ensures Size(ps) == 2 * |ps|
  {
    if ps != [] {
      SizeOfConfirmed(ps[1..]);
    }
  }

  /**
   * A confirmation of a frame whose header fields are non-zero encodes with
   * every PDC 0, in 12 + 2 * OPC bytes, and decodes to the same tid, the
   * swapped objects and the received property codes without data.
   */
  lemma ConfirmationEncoding(b: seq<uint8>)
    requires WellFormed(b) && Tid(b) != 0 && Seoj(b) != 0 && Deoj(b) != 0 && Esv(b) != 0
    ensures Fits(Confirmation(b)) && EncodeHex(Confirmation(b)).Success?
    ensures BytesFromHex(EncodeHex(Confirmation(b)).value) == Encoded(Confirmation(b))
    ensures |Encoded(Confirmation(b))| == 12 + 2 * Opc(b)
    ensures WellFormed(Encoded(Confirmation(b)))
    ensures var e := Encoded(Confirmation(b));
      && Tid(e) == Tid(b) && Seoj(e) == Deoj(b) && Deoj(e) == Seoj(b)
      && PropertiesOf(e) == Confirmation(b).properties
  {
    var c := Confirmation(b);
    assert GetResponseService(Esv(b)) != 0;
    assert Fits(c);
    EncodeLayout(c);
    SizeOfConfirmed(c.properties);
    RoundTrip(c);
    assert NormalizedAll(c.properties) == c.properties;
  }
}
