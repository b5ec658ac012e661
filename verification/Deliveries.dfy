/** What each decoder of a device is handed, over any calls. */
module Deliveries {
  import opened Wire
  import opened Configuration
  import D = Device
  import opened SessionRuns

  predicate Bulk(call: D.Call) { call.BulkIn? || call.BulkOut? }

  /** The endpoint address of a bulk transfer, with its direction bit. */
  function Address(call: D.Call): byte
    requires Bulk(call)
  {
    if call.BulkIn? then call.endpoint % 0x80 + 0x80 else call.endpoint % 0x80
  }

  /** A class or vendor request on endpoint zero, which is left to a decoder. */
  predicate Requests(call: D.Call) {
    !Bulk(call) && call.endpoint in {0, 0x80}
    && (0x20 <= call.setup.requestType < 0x80 || call.setup.requestType >= 0xA0)
  }

  /** The decoder that a call goes to. */
  function Route(s: D.State, call: D.Call): Option<Expert> {
    if Bulk(call) then D.ExpertForEndpoint(s, Address(call))
    else if Requests(call) then D.ExpertForControl(s, call.setup)
    else None
  }

  function DeliveryOf(expert: Expert, call: D.Call): D.Delivery {
    match call
    case ControlIn(_, setup, data) => D.DeliverControlIn(expert, setup, data)
    case ControlOut(_, setup, data) => D.DeliverControlOut(expert, setup, data)
    case BulkIn(_, data) => D.DeliverBulkIn(expert, data)
    case BulkOut(_, data) => D.DeliverBulkOut(expert, data)
  }

  lemma DescriptorsDeliverNothing(s: D.State, setup: D.Setup, data: Bytes)
    ensures D.ReadDescriptor(s, setup, data).deliveries == s.deliveries
  {
    hide Parse;
    hide Attach;
  }

  /** A call is handed to the decoder it is routed to, and to no other. */
  lemma ApplyDelivers(s: D.State, call: D.Call)
    ensures var route := Route(s, call);
            D.Apply(s, call).deliveries
            == s.deliveries + if route.Some? then [DeliveryOf(route.value, call)] else []
  {
    hide D.ExpertForControl;
    hide D.ExpertForEndpoint;
    hide D.ReadDescriptor;
    assert s.deliveries + [] == s.deliveries;
    if call.ControlIn? {
      var counted := s.(controlPackets := s.controlPackets + 1, controlBytes := s.controlBytes + |call.data|);
      DescriptorsDeliverNothing(counted, call.setup, call.data);
    }
  }

  /** The deliveries to one decoder. */
  function Handed(deliveries: seq<D.Delivery>, expert: Expert): seq<D.Delivery>
    decreases |deliveries|
  {
    if deliveries == [] then []
    else
      var before, last := Handed(deliveries[..|deliveries| - 1], expert), deliveries[|deliveries| - 1];
      if last.expert == expert then before + [last] else before
  }

  /** The calls routed to one decoder, each by what the device knows by then. */
  function Routed(s: D.State, calls: seq<D.Call>, expert: Expert): seq<D.Delivery>
    decreases |calls|
  {
    if calls == [] then []
    else
      var init, last := calls[..|calls| - 1], calls[|calls| - 1];
      var before := Routed(s, init, expert);
      if Route(ApplyAll(s, init), last) == Some(expert) then before + [DeliveryOf(expert, last)] else before
  }

  lemma HandedOne(deliveries: seq<D.Delivery>, last: D.Delivery, expert: Expert)
    ensures Handed(deliveries + [last], expert)
         == Handed(deliveries, expert) + if last.expert == expert then [last] else []
  {
    assert (deliveries + [last])[..|deliveries|] == deliveries;
    assert Handed(deliveries, expert) + [] == Handed(deliveries, expert);
  }

  lemma ApplyHands(s: D.State, call: D.Call, expert: Expert)
    ensures Handed(D.Apply(s, call).deliveries, expert)
         == Handed(s.deliveries, expert) + if Route(s, call) == Some(expert) then [DeliveryOf(expert, call)] else []
  {
    hide D.Apply;
    hide Route;
    hide Handed;
    ApplyDelivers(s, call);
    var route := Route(s, call);
    if route.Some? { HandedOne(s.deliveries, DeliveryOf(route.value, call), expert); }
    assert s.deliveries + [] == s.deliveries && Handed(s.deliveries, expert) + [] == Handed(s.deliveries, expert);
  }

  /** Over any calls, reads of descriptors and changes of configuration among them, a decoder is handed exactly the
      transfers that are routed to it, in order. */
  lemma {:induction false} CallsReachDecoder(s: D.State, calls: seq<D.Call>, expert: Expert)
    ensures Handed(ApplyAll(s, calls).deliveries, expert) == Handed(s.deliveries, expert) + Routed(s, calls, expert)
    decreases |calls|
  {
    hide D.Apply;
    hide Route;
    hide DeliveryOf;
    hide Handed;
    if calls == [] {
      assert Handed(s.deliveries, expert) + [] == Handed(s.deliveries, expert);
    } else {
      var init, last := calls[..|calls| - 1], calls[|calls| - 1];
      CallsReachDecoder(s, init, expert);
      ApplyHands(ApplyAll(s, init), last, expert);
      Associates(Handed(s.deliveries, expert), Routed(s, init, expert), [DeliveryOf(expert, last)]);
      assert Handed(ApplyAll(s, init).deliveries, expert) + [] == Handed(ApplyAll(s, init).deliveries, expert);
    }
  }

  lemma {:induction false} RoutedConcat(s: D.State, a: seq<D.Call>, b: seq<D.Call>, expert: Expert)
    ensures Routed(s, a + b, expert) == Routed(s, a, expert) + Routed(ApplyAll(s, a), b, expert)
    decreases |b|
  {
    hide D.Apply;
    hide Route;
    hide DeliveryOf;
    if b == [] {
      assert a + b == a && Routed(s, a, expert) + [] == Routed(s, a, expert);
    } else {
      var init, last := b[..|b| - 1], b[|b| - 1];
      assert (a + b)[..|a + b| - 1] == a + init;
      RoutedConcat(s, a, init, expert);
      ApplyConcat(s, a, init);
      Associates(Routed(s, a, expert), Routed(ApplyAll(s, a), init, expert), [DeliveryOf(expert, last)]);
    }
  }
}
