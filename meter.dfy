/**
 * The notification filter of the low-voltage smart electric energy meter
 * (src/smart-electric-energy-meter.ts): which cumulative-energy
 * notifications reach the handlers, and what the meter remembers.
 */
module Meter {
  import opened Wrappers
  import opened Codes
  import opened Bytes
  import opened Lib
  import opened Props

  /**
   * a.getTime() < b.getTime() for real calendar dates with a year of at
   * least 100 and outside daylight-saving gaps: the fields compared from the
   * year down to the second. Date's normalisation of other field values is
   * not modelled.
   */
  predicate Before(a: DateTime, b: DateTime) {
    if a.year != b.year then a.year < b.year
    else if a.month != b.month then a.month < b.month
    else if a.day != b.day then a.day < b.day
    else if a.hour != b.hour then a.hour < b.hour
    else if a.minute != b.minute then a.minute < b.minute
    else a.second < b.second
  }

  lemma BeforeIrreflexive(a: DateTime)
    ensures !Before(a, a)
  {
  }

  /** The verdict of an isNew* check and the timestamp recorded afterwards. */
  datatype Check = Check(accepted: bool, recorded: Option<DateTime>)

  /**
   * isNewCumulativeAmountsOfEnergy*: with nothing recorded, time is recorded
   * and accepted; otherwise time is accepted exactly when it is later than
   * the recorded one, which stays as it is.
   */
  function IsNew(recorded: Option<DateTime>, time: DateTime): (c: Check)
    ensures recorded.None? ==> c.accepted && c.recorded == Some(time)
    ensures recorded.Some? ==> c.recorded == recorded
    ensures recorded.Some? ==> (c.accepted <==> Before(recorded.value, time))
  {
    if recorded.None? then Check(true, Some(time))
    else Check(Before(recorded.value, time), recorded)
  }

  /** A call of one of the two cumulative-energy handlers. */
  datatype MeterEvent = CumulativeNormal(tv: TimeValue) | CumulativeReverse(tv: TimeValue)

  /** The two recorded timestamps, one per channel. */
  datatype MeterState = MeterState(normal: Option<DateTime>, reverse: Option<DateTime>)

  /** The handler calls of one INFC frame, the timestamps after it, and whether the loop ran to the end. */
  datatype Walk = Walk(fired: seq<MeterEvent>, state: MeterState, completed: bool)

  predicate IsCumulative(p: Property) {
    p.epc == EPC_CUMULATIVE_NORMAL || p.epc == EPC_CUMULATIVE_REVERSE
  }

  /** One turn of the meter's property loop: handler calls, timestamps after it, and whether the loop goes on. */
  datatype Step = Step(fired: seq<MeterEvent>, state: MeterState, go: bool)

  /**
   * One property in the meter's onInfC: a cumulative property must carry a
   * valid date+value record that its channel accepts, or the loop stops
   * there; every other property is passed over.
   */
  function StepInfC(p: Property, st: MeterState): (s: Step)
    ensures |s.fired| <= 1 && (s.fired != [] ==> s.go)
  {
    if p.epc == EPC_CUMULATIVE_NORMAL then
      var tv := Edt2DateValue(p.edt);
      if tv.None? then Step([], st, false)
      else
        var c := IsNew(st.normal, tv.value.time);
        var next := st.(normal := c.recorded);
        if !c.accepted then Step([], next, false) else Step([CumulativeNormal(tv.value)], next, true)
    else if p.epc == EPC_CUMULATIVE_REVERSE then
      var tv := Edt2DateValue(p.edt);
      if tv.None? then Step([], st, false)
      else
        var c := IsNew(st.reverse, tv.value.time);
        var next := st.(reverse := c.recorded);
        if !c.accepted then Step([], next, false) else Step([CumulativeReverse(tv.value)], next, true)
    else Step([], st, true)
  }

  /** The property loop of the meter's onInfC, property by property until a step stops it. */
  function WalkInfC(ps: seq<Property>, st: MeterState): (w: Walk)
    ensures |w.fired| <= |ps|
    decreases |ps|
  {
    if ps == [] then Walk([], st, true)
    else
      var s := StepInfC(ps[0], st);
      if !s.go then Walk([], s.state, false)
      else
        var rest := WalkInfC(ps[1..], s.state);
        Walk(s.fired + rest.fired, rest.state, rest.completed)
  }

  /** The handler call a cumulative property with a valid record makes. */
  function EventOf(p: Property): MeterEvent
    requires IsCumulative(p) && Edt2DateValue(p.edt).Some?
  {
    var tv := Edt2DateValue(p.edt).value;
    if p.epc == EPC_CUMULATIVE_NORMAL then CumulativeNormal(tv) else CumulativeReverse(tv)
  }

  /** The cumulative properties of ps, in order, as handler calls. */
  function EventsOf(ps: seq<Property>): seq<MeterEvent>
    requires forall i :: 0 <= i < |ps| && IsCumulative(ps[i]) ==> Edt2DateValue(ps[i].edt).Some?
  {
    if ps == [] then []
    else if IsCumulative(ps[0]) then [EventOf(ps[0])] + EventsOf(ps[1..])
    else EventsOf(ps[1..])
  }

  /**
   * A loop that ran to the end met only valid records and called the
   * handlers once per cumulative property, in property order.
   */
  lemma {:induction false} CompletedFiresAll(ps: seq<Property>, st: MeterState)
    requires WalkInfC(ps, st).completed
    ensures forall i :: 0 <= i < |ps| && IsCumulative(ps[i]) ==> Edt2DateValue(ps[i].edt).Some?
    ensures WalkInfC(ps, st).fired == EventsOf(ps)
    decreases |ps|
  {
    if ps != [] {
      var p := ps[0];
      if p.epc == EPC_CUMULATIVE_NORMAL {
        var c := IsNew(st.normal, Edt2DateValue(p.edt).value.time);
        CompletedFiresAll(ps[1..], st.(normal := c.recorded));
      } else if p.epc == EPC_CUMULATIVE_REVERSE {
        var c := IsNew(st.reverse, Edt2DateValue(p.edt).value.time);
        CompletedFiresAll(ps[1..], st.(reverse := c.recorded));
      } else {
        CompletedFiresAll(ps[1..], st);
      }
      assert forall i :: 1 <= i < |ps| ==> ps[i] == ps[1..][i - 1];
    }
  }

  /** A timestamp once recorded is never replaced by later notifications. */
  lemma {:induction false} NeverAdvanced(ps: seq<Property>, st: MeterState)
    ensures st.normal.Some? ==> WalkInfC(ps, st).state.normal == st.normal
    ensures st.reverse.Some? ==> WalkInfC(ps, st).state.reverse == st.reverse
    decreases |ps|
  {
    if ps != [] {
      var p := ps[0];
      var tv := Edt2DateValue(p.edt);
      if p.epc == EPC_CUMULATIVE_NORMAL && tv.Some? {
        NeverAdvanced(ps[1..], st.(normal := IsNew(st.normal, tv.value.time).recorded));
      } else if p.epc == EPC_CUMULATIVE_REVERSE && tv.Some? {
        NeverAdvanced(ps[1..], st.(reverse := IsNew(st.reverse, tv.value.time).recorded));
      } else if !IsCumulative(p) {
        NeverAdvanced(ps[1..], st);
      }
    }
  }

  /** Notifications on one channel never touch the other channel's timestamp. */
  lemma {:induction false} ChannelsIndependent(ps: seq<Property>, st: MeterState)
    ensures (forall i :: 0 <= i < |ps| ==> ps[i].epc != EPC_CUMULATIVE_REVERSE) ==>
      WalkInfC(ps, st).state.reverse == st.reverse
    ensures (forall i :: 0 <= i < |ps| ==> ps[i].epc != EPC_CUMULATIVE_NORMAL) ==>
      WalkInfC(ps, st).state.normal == st.normal
    decreases |ps|
  {
    if ps != [] {
      var p := ps[0];
      var tv := Edt2DateValue(p.edt);
      assert forall i :: 1 <= i < |ps| ==> ps[i] == ps[1..][i - 1];
      if p.epc == EPC_CUMULATIVE_NORMAL && tv.Some? {
        ChannelsIndependent(ps[1..], st.(normal := IsNew(st.normal, tv.value.time).recorded));
      } else if p.epc == EPC_CUMULATIVE_REVERSE && tv.Some? {
        ChannelsIndependent(ps[1..], st.(reverse := IsNew(st.reverse, tv.value.time).recorded));
      } else if !IsCumulative(p) {
        ChannelsIndependent(ps[1..], st);
      }
    }
  }

  /** No cumulative property at all. */
  predicate NoCumulative(ps: seq<Property>) {
    forall i :: 0 <= i < |ps| ==> !IsCumulative(ps[i])
  }

  /**
   * Delivering the same INFC frame a second time to a fresh meter calls no
   * handler; unless the frame has no cumulative property, the loop also stops
   * early, so no confirmation goes out the second time.
   */
  lemma {:induction false} RedeliveryFiresNothing(ps: seq<Property>)
    ensures var first := WalkInfC(ps, MeterState(None, None));
      var second := WalkInfC(ps, first.state);
      second.fired == [] && (second.completed <==> NoCumulative(ps))
    decreases |ps|
  {
    var start := MeterState(None, None);
    if ps != [] {
      var p := ps[0];
      assert forall i :: 1 <= i < |ps| ==> ps[i] == ps[1..][i - 1];
      if !IsCumulative(p) {
        RedeliveryFiresNothing(ps[1..]);
      } else {
        var tv := Edt2DateValue(p.edt);
        assert !NoCumulative(ps);
        if tv.Some? {
          var t := tv.value.time;
          BeforeIrreflexive(t);
          if p.epc == EPC_CUMULATIVE_NORMAL {
            NeverAdvanced(ps[1..], start.(normal := Some(t)));
          } else {
            NeverAdvanced(ps[1..], start.(reverse := Some(t)));
          }
        }
      }
    }
  }

  /**
   * Because the recorded timestamp is never advanced, a notification later
   * than the first one is accepted every time it is delivered: the second
   * notification of a channel, delivered twice, fires its handler twice.
   */
  lemma RepeatedLaterNotificationRefires(first: Property, second: Property)
    requires first.epc == EPC_CUMULATIVE_NORMAL && second.epc == EPC_CUMULATIVE_NORMAL
    requires Edt2DateValue(first.edt).Some? && Edt2DateValue(second.edt).Some?
    requires Before(Edt2DateValue(first.edt).value.time, Edt2DateValue(second.edt).value.time)
    ensures var w1 := WalkInfC([first], MeterState(None, None));
      var w2 := WalkInfC([second], w1.state);
      var w3 := WalkInfC([second], w2.state);
      && w2.fired == [CumulativeNormal(Edt2DateValue(second.edt).value)]
      && w3.fired == w2.fired && w3.completed
  {
    var t1 := Edt2DateValue(first.edt).value.time;
    assert [first][1..] == [] && [second][1..] == [];
    var next := MeterState(Some(t1), None);
    assert WalkInfC([], next).state == next;
    var w1 := WalkInfC([first], MeterState(None, None));
    assert w1.state == next;
  }
}
