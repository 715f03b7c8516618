/**
 * The service-code mapping and the date+value record of the cumulative
 * energy properties (src/lib.ts).
 */
module Lib {
  import opened Wrappers
  import opened Codes
  import opened Bytes

  /**
   * The service code of the answer to a message with service code esv.
   * The contract is the definition itself (the source's lookup table);
   * ResponseServiceIdempotent is its property.
   */
  function GetResponseService(esv: int): (r: int)
    ensures esv == GET ==> r == GET_RES
    ensures esv == INFC ==> r == INFC_RES
    ensures esv != GET && esv != INFC ==> r == esv
  {
    if esv == GET then GET_RES
    else if esv == INFC then INFC_RES
    else esv
  }

  /** Mapping an answer's service code again changes nothing. */
  lemma ResponseServiceIdempotent(esv: int)
    ensures GetResponseService(GetResponseService(esv)) == GetResponseService(esv)
  {
  }

  /**
   * A local date and time as the fields a JavaScript Date is built from;
   * month counts from 0 as Date's month does.
   */
  datatype DateTime = DateTime(year: int, month: int, day: int, hour: int, minute: int, second: int)

  datatype TimeValue = TimeValue(time: DateTime, value: nat)

  /** The field ranges of a Date whose year fits the record's two bytes. */
  predicate InRange(t: DateTime) {
    && 0 <= t.year < 0x10000
    && 0 <= t.month < 12
    && 1 <= t.day <= 31
    && 0 <= t.hour < 24
    && 0 <= t.minute < 60
    && 0 <= t.second < 60
  }

  /**
   * edt2DateValue: an 11-byte record is year (big-endian u16), month (1-12),
   * day, hour, minute, second, then value (big-endian u32); anything that is
   * not exactly 11 bytes yields nothing.
   */
  function Edt2DateValue(edt: Option<seq<uint8>>): (r: Option<TimeValue>)
    ensures r.Some? <==> edt.Some? && |edt.value| == 11
    ensures r.Some? ==> r.value.value < 0x1_0000_0000 && 0 <= r.value.time.year < 0x10000
  {
    if edt.None? || |edt.value| != 11 then None
    else
      var b := edt.value;
      Some(TimeValue(DateTime(UIntBE(b[0..2]), b[2] as int - 1, b[3], b[4], b[5], b[6]), UIntBE(b[7..11])))
  }

  lemma Pow256Small()
    ensures Pow256(1) == 0x100 && Pow256(2) == 0x1_0000 && Pow256(3) == 0x100_0000
    ensures Pow256(4) == 0x1_0000_0000
  {
  }

  /** The 11 bytes dateValue2Buffer writes for time and value. */
  function DateValueBytes(time: DateTime, value: nat): (r: seq<uint8>)
    requires InRange(time) && value < 0x1_0000_0000
    ensures |r| == 11
  {
    Pow256Small();
    ToBE(time.year, 2) + [time.month + 1, time.day, time.hour, time.minute, time.second] + ToBE(value, 4)
  }

  /**
   * dateValue2Buffer: allocates an 11-byte zeroed buffer and writes the
   * record field by field.
   */
  method DateValue2Buffer(time: DateTime, value: nat) returns (buffer: array<uint8>)
    requires InRange(time) && value < 0x1_0000_0000
    ensures fresh(buffer)
    ensures buffer[..] == DateValueBytes(time, value)
  {
    buffer := new uint8[11](_ => 0);
    buffer[0], buffer[1] := time.year / 0x100, time.year % 0x100;
    buffer[2] := time.month + 1;
    buffer[3] := time.day;
    buffer[4] := time.hour;
    buffer[5] := time.minute;
    buffer[6] := time.second;
    buffer[7] := value / 0x100_0000;
    buffer[8] := value / 0x1_0000 % 0x100;
    buffer[9] := value / 0x100 % 0x100;
    buffer[10] := value % 0x100;
    TwoBytes(time.year);
    FourBytes(value);
  }

  lemma TwoBytes(n: nat)
    requires n < 0x1_0000
    ensures ToBE(n, 2) == [n / 0x100, n % 0x100]
  {
    Pow256Small();
    assert ToBE(n / 0x100, 1) == [n / 0x100];
  }

  lemma FourBytes(n: nat)
    requires n < 0x1_0000_0000
    ensures ToBE(n, 4) == [n / 0x100_0000, n / 0x1_0000 % 0x100, n / 0x100 % 0x100, n % 0x100]
  {
    Pow256Small();
    var m := n / 0x100;
    assert m / 0x100 == n / 0x1_0000;
    assert m / 0x1_0000 == n / 0x100_0000;
    assert ToBE(m, 3) == ToBE(m / 0x100, 2) + [m % 0x100];
    TwoBytes(m / 0x100);
    assert m / 0x100 / 0x100 == n / 0x100_0000;
    assert m / 0x100 % 0x100 == n / 0x1_0000 % 0x100;
  }

  /** edt2DateValue reads back what dateValue2Buffer wrote. */
  lemma DateValueRoundTrip(time: DateTime, value: nat)
    requires InRange(time) && value < 0x1_0000_0000
    ensures Edt2DateValue(Some(DateValueBytes(time, value))) == Some(TimeValue(time, value))
  {
    Pow256Small();
    var b := DateValueBytes(time, value);
    assert b[0..2] == ToBE(time.year, 2);
    assert b[7..11] == ToBE(value, 4);
  }
}
