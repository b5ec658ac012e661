/** Whole captures: every format drives every device alike, and a device sees exactly the transfers completed on it. */
module CaptureLaws {
  import opened Wire
  import D = Device
  import opened Transfers
  import opened LinkTypes
  import opened Records
  import opened FormatLaws
  import TL = TransferLaws

  /** An event on the bus, and where it happens. */
  datatype Happening = Happening(place: Place, event: TL.Event)

  predicate Printable(format: Format, script: seq<Happening>) {
    forall i | 0 <= i < |script| :: Fits(format, script[i].event)
  }

  function Print(format: Format, h: Happening): Item
    requires Fits(format, h.event)
  {
    Deliver(format.LinkType(), Encode(format, h.place, h.event))
  }

  /** The packets of a capture, as one format writes them. */
  function Printed(format: Format, script: seq<Happening>): seq<Item>
    requires Printable(format, script)
    decreases |script|
  {
    if script == [] then []
    else Printed(format, script[..|script| - 1]) + [Print(format, script[|script| - 1])]
  }

  /** What happens at one place. */
  function EventsAt(script: seq<Happening>, place: Place): seq<TL.Event>
    decreases |script|
  {
    if script == [] then []
    else
      var before, last := EventsAt(script[..|script| - 1], place), script[|script| - 1];
      if last.place == place then before + [last.event] else before
  }

  /** No other place in the script is the same device to the format. */
  predicate Apart(format: Format, script: seq<Happening>, place: Place) {
    forall i | 0 <= i < |script| ::
      DeviceId(format, script[i].place) == DeviceId(format, place) ==> script[i].place == place
  }

  /** Darwin tells places apart by location and address, and the other formats by bus and address. */
  lemma PlacesAreApart(format: Format, script: seq<Happening>, place: Place)
    ensures Apart(format, script, place)
       <==> forall i | 0 <= i < |script| ::
              script[i].place.address == place.address
              && (if format.Darwin10? || format.Darwin11? then script[i].place.location == place.location
                  else script[i].place.bus == place.bus)
              ==> script[i].place == place
  {
    forall i | 0 <= i < |script|
      ensures DeviceId(format, script[i].place) == DeviceId(format, place)
         <==> script[i].place.address == place.address
              && (if format.Darwin10? || format.Darwin11? then script[i].place.location == place.location
                  else script[i].place.bus == place.bus)
    {
    }
    hide DeviceId;
  }

  lemma PrintIsRead(format: Format, h: Happening)
    requires Fits(format, h.event)
    ensures Read(Print(format, h)) == Occurs(DeviceId(format, h.place), h.event.Op())
  {
    EncodedIsRead(format, h.place, h.event);
    hide Encode;
    hide ReadPacket;
  }

  lemma ApartBefore(format: Format, script: seq<Happening>, place: Place)
    requires script != [] && Apart(format, script, place)
    ensures Apart(format, script[..|script| - 1], place)
    ensures var last := script[|script| - 1].place; DeviceId(format, last) == DeviceId(format, place) ==> last == place
  {
    hide DeviceId;
    var init := script[..|script| - 1];
    assert forall i | 0 <= i < |init| :: init[i] == script[i];
  }

  lemma OpsForLast(items: seq<Item>, last: Item, device: uint64)
    ensures OpsFor(items + [last], device) == OpsFor(items, device)
              + if Bears(last, device) then [Read(last).op] else []
  {
    hide Bears;
    hide Read;
    assert (items + [last])[..|items|] == items;
    assert OpsFor(items, device) + [] == OpsFor(items, device);
  }

  lemma {:induction false} OpsAreEvents(format: Format, script: seq<Happening>, place: Place)
    requires Printable(format, script) && Apart(format, script, place)
    ensures OpsFor(Printed(format, script), DeviceId(format, place)) == TL.OpsOf(EventsAt(script, place))
    decreases |script|
  {
    hide TL.Event.Op;
    hide DeviceId;
    hide Print;
    hide Read;
    if script == [] {
    } else {
      var init, last := script[..|script| - 1], script[|script| - 1];
      ApartBefore(format, script, place);
      hide Apart;
      OpsForLast(Printed(format, init), Print(format, last), DeviceId(format, place));
      OpsAreEvents(format, init, place);
      PrintIsRead(format, last);
      TL.OpsOfMore(EventsAt(init, place), last.event);
      hide TL.OpsOf;
    }
  }

  /** Whatever the format, a device's handle is the run of the events at its place. */
  lemma FormatIndependence(format: Format, script: seq<Happening>, place: Place)
    requires Printable(format, script) && Apart(format, script, place)
    ensures HandleOf(TakeAll(BLANK, Printed(format, script)), DeviceId(format, place))
         == TL.RunOps(TL.OpsOf(EventsAt(script, place)))
  {
    OpsAreEvents(format, script, place);
    DevicesAreIsolated(Printed(format, script), DeviceId(format, place));
    hide TL.RunOps;
    hide OpsFor;
  }

  /** A device sees exactly the transfers completed at its place, in order, each with its own setup and payload. */
  lemma DeviceSeesCompletions(format: Format, script: seq<Happening>, place: Place)
    requires Printable(format, script) && Apart(format, script, place)
    requires TL.Matched(EventsAt(script, place))
    requires forall k | 0 <= k < |EventsAt(script, place)| :: EventsAt(script, place)[k].transfer.Proper()
    ensures HandleOf(TakeAll(BLANK, Printed(format, script)), DeviceId(format, place)).sessions
         == TL.DispatchAll(TL.Completions(EventsAt(script, place)))
  {
    var events := EventsAt(script, place);
    FormatIndependence(format, script, place);
    TL.RunIsDispatch(TL.OpsOf(events));
    TL.CallsAreCompletions(events);
    hide TL.RunOps;
    hide TL.DispatchAll;
    hide TL.Matched;
  }

  // ---- Data stages ----

  function SetupStage(place: Place, endpoint: byte, id: uint64, setup: D.Setup, data: Bytes): Item
    requires |data| < 0x1_0000_0000 - 8
  {
    var payload := PutSetup(setup) + data;
    Deliver(249, UsbPcapPacket(id, 0, place.bus, place.address, endpoint, 2, |payload|, [0], payload))
  }

  function DataStage(place: Place, endpoint: byte, id: uint64, data: Bytes): Item
    requires |data| < 0x1_0000_0000
  {
    Deliver(249, UsbPcapPacket(id, 0, place.bus, place.address, endpoint, 2, |data|, [1], data))
  }

  lemma SetupStageIsRead(place: Place, endpoint: byte, id: uint64, setup: D.Setup, data: Bytes)
    requires |data| < 0x1_0000_0000 - 8
    ensures Read(SetupStage(place, endpoint, id, setup, data))
         == Occurs(DeviceId(UsbPcap, place), BeginControl(endpoint, id, setup, data))
  {
    hide ReadUsbPcap;
    hide UsbPcapPacket;
    hide SubmitControl;
    SetupLength(setup);
    hide PutSetup;
    var payload := PutSetup(setup) + data;
    assert Captured(|payload|, payload) == payload;
    UsbPcapIsDecoded(id, 0, place.bus, place.address, endpoint, 2, |payload|, [0], payload);
    SetupIsSplit(DeviceId(UsbPcap, place), endpoint, id, setup, data);
  }

  lemma DataStageIsRead(place: Place, endpoint: byte, id: uint64, data: Bytes)
    requires |data| < 0x1_0000_0000
    ensures Read(DataStage(place, endpoint, id, data))
        == Occurs(DeviceId(UsbPcap, place), AppendControl(endpoint, id, data))
  {
    hide ReadUsbPcap;
    hide UsbPcapPacket;
    hide SubmitControl;
    assert Captured(|data|, data) == data;
    UsbPcapIsDecoded(id, 0, place.bus, place.address, endpoint, 2, |data|, [1], data);
  }

  lemma {:induction false} OpsForAppend(a: seq<Item>, b: seq<Item>, device: uint64)
    ensures OpsFor(a + b, device) == OpsFor(a, device) + OpsFor(b, device)
    decreases |b|
  {
    hide Bears;
    hide Read;
    if b == [] {
      assert a + b == a;
    } else {
      assert (a + b)[..|a + b| - 1] == a + b[..|b| - 1];
      OpsForAppend(a, b[..|b| - 1], device);
    }
  }

  lemma {:induction false} RunContinues(ops: seq<Op>, more: seq<Op>)
    ensures TL.RunOps(ops + more) == TL.StepAll(TL.RunOps(ops), more)
    decreases |more|
  {
    hide Step;
    if more == [] {
      assert ops + more == ops;
    } else {
      assert TL.Init(ops + [more[0]]) == ops;
      assert ops + more == ops + [more[0]] + more[1..];
      RunContinues(ops + [more[0]], more[1..]);
    }
  }

  /** The item adds data to the transfer. */
  predicate IsStage(item: Item, device: uint64, key: Key) {
    Bears(item, device) && TL.Appends(Read(item).op, key)
  }

  /** The items without the data stages of a transfer. */
  function WithoutStages(items: seq<Item>, device: uint64, key: Key): seq<Item>
    decreases |items|
  {
    if items == [] then []
    else
      var before, last := WithoutStages(items[..|items| - 1], device, key), items[|items| - 1];
      if IsStage(last, device, key) then before else before + [last]
  }

  lemma {:induction false} OthersAppend(ops: seq<Op>, op: Op, key: Key)
    ensures TL.Others(ops + [op], key) == TL.Others(ops, key) + if TL.Appends(op, key) then [] else [op]
  {
    hide TL.Appends;
    if ops == [] {
      assert ([] + [op])[1..] == [];
    } else {
      assert (ops + [op])[1..] == ops[1..] + [op];
      OthersAppend(ops[1..], op, key);
    }
  }

  lemma {:induction false} WithoutIsOthers(items: seq<Item>, device: uint64, key: Key, other: uint64)
    ensures OpsFor(WithoutStages(items, device, key), other)
         == if other == device then TL.Others(OpsFor(items, device), key) else OpsFor(items, other)
    decreases |items|
  {
    hide Read;
    hide TL.Appends;
    if items == [] {
    } else {
      var init, last := items[..|items| - 1], items[|items| - 1];
      WithoutIsOthers(init, device, key, other);
      OpsForLast(WithoutStages(init, device, key), last, other);
      if Bears(last, device) { OthersAppend(OpsFor(init, device), Read(last).op, key); }
      hide TL.Others;
    }
  }

  /** The data of a USBPcap control transfer may be split over any number of data stages, with any other traffic between
      them that leaves the transfer open: no device can tell, then or later in the capture. */
  lemma StagesAreJoined(before: seq<Item>, place: Place, endpoint: byte, id: uint64, setup: D.Setup, data: Bytes,
                        middle: seq<Item>, after: seq<Item>, device: uint64)
    requires var ops, key := OpsFor(middle, DeviceId(UsbPcap, place)), (EndpointId(endpoint), id);
             TL.OnlyAppends(ops, key) && |data + TL.Added(ops, key)| < 0x1_0000_0000 - 8
    ensures var owner, key := DeviceId(UsbPcap, place), (EndpointId(endpoint), id);
            var all := data + TL.Added(OpsFor(middle, owner), key);
            HandleOf(TakeAll(BLANK, before + [SetupStage(place, endpoint, id, setup, data)] + middle + after), device)
            == HandleOf(TakeAll(BLANK, before + [SetupStage(place, endpoint, id, setup, all)]
                                       + WithoutStages(middle, owner, key) + after), device)
  {
    hide Step;
    hide TL.RunOps;
    hide TL.StepAll;
    hide TL.Added;
    hide TL.Others;
    hide TL.OnlyAppends;
    hide OpsFor;
    hide TakeAll;
    hide HandleOf;
    hide Read;
    hide DeviceId;
    hide WithoutStages;
    var owner, key := DeviceId(UsbPcap, place), (EndpointId(endpoint), id);
    var all, others := data + TL.Added(OpsFor(middle, owner), key), WithoutStages(middle, owner, key);
    var first, full := SetupStage(place, endpoint, id, setup, data), SetupStage(place, endpoint, id, setup, all);
    SetupStageIsRead(place, endpoint, id, setup, data);
    SetupStageIsRead(place, endpoint, id, setup, all);
    hide SetupStage;
    RunOfFour(before, first, middle, after, device);
    RunOfFour(before, full, others, after, device);
    WithoutIsOthers(middle, owner, key, device);
    if device == owner {
      TL.AppendedInPortions(TL.RunOps(OpsFor(before, device)), endpoint, id, setup, data, OpsFor(middle, owner));
    }
  }

  lemma RunOfFour(before: seq<Item>, item: Item, middle: seq<Item>, after: seq<Item>, device: uint64)
    ensures var h := TL.RunOps(OpsFor(before, device));
            var first := if Bears(item, device) then Step(h, Read(item).op) else h;
            HandleOf(TakeAll(BLANK, before + [item] + middle + after), device)
            == TL.StepAll(TL.StepAll(first, OpsFor(middle, device)), OpsFor(after, device))
  {
    hide Step;
    hide OpsFor;
    hide TakeAll;
    hide HandleOf;
    hide Read;
    DevicesAreIsolated(before + [item] + middle + after, device);
    OpsForAppend(before + [item] + middle, after, device);
    OpsForAppend(before + [item], middle, device);
    OpsForLast(before, item, device);
    RunContinues(OpsFor(before + [item] + middle, device), OpsFor(after, device));
    RunContinues(OpsFor(before + [item], device), OpsFor(middle, device));
    var ops := OpsFor(before, device);
    if Bears(item, device) {
      assert TL.Init(ops + [Read(item).op]) == ops;
    } else {
      assert ops + [] == ops;
    }
    hide TL.StepAll;
  }
}
