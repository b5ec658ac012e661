/** Captures of a device whose descriptors are read in them. What its decoders make of the rest follows from the calls
    of the script alone. */
module DeviceCaptures {
  import opened Wire
  import D = Device
  import opened Configuration
  import opened ConfigurationLaws
  import TL = TransferLaws
  import opened SessionLaws
  import opened SessionRuns
  import opened Deliveries
  import opened Enumeration
  import opened AttachmentLaws
  import F = FormatLaws
  import opened CaptureLaws
  import opened WholeStack
  import U = UsbMux
  import W = UsbMuxWire
  import E2E = UsbMuxEndToEnd
  import Dfu
  import Recovery
  import Cutting

  // ---- A device and its session ----

  /** A decoder of the device is handed what is routed to it of all the calls in the device's session. */
  lemma SessionIsHanded(
    format: F.Format, script: seq<Happening>, container: Container, place: F.Place,
    before: seq<D.Call>, calls: seq<D.Call>, d: D.Descriptor, expert: Expert)
    requires Performs(format, script, place, before + calls)
    requires Begins(before, calls, d) && OfDevice(calls, d)
    ensures Handed(FinalSession(format, script, container, place).deliveries, expert) == Routed(D.NEW, calls, expert)
  {
    hide Performs;
    hide FinalSession;
    hide TL.DispatchAll;
    hide Begins;
    hide OfDevice;
    hide ApplyAll;
    hide Routed;
    hide Handed;
    FilesEndIn(format, script, container, place, before + calls);
    BeginsSession(before, calls, d);
    CallsReachDecoder(D.NEW, calls, expert);
    NothingHanded(expert);
    assert [] + Routed(D.NEW, calls, expert) == Routed(D.NEW, calls, expert);
  }

  lemma NothingHanded(expert: Expert)
    ensures Handed(D.NEW.deliveries, expert) == []
  {
  }

  // ---- usbmux ----

  /** After earlier calls, this is a bulk transfer on an endpoint of the interface, and finds the configuration
      prevailing. */
  predicate IsOn(earlier: seq<D.Call>, call: D.Call, description: Description, number: byte) {
    && Bulk(call) && OnInterface(description.settings, number, Address(call))
    && Prevails(earlier, description.value)
  }

  /** The bulk transfers on the endpoints of an interface while its configuration prevails. */
  function OnEndpoints(calls: seq<D.Call>, description: Description, number: byte): seq<W.Transfer>
    decreases |calls|
  {
    if calls == [] then []
    else
      var init, last := calls[..|calls| - 1], calls[|calls| - 1];
      var before := OnEndpoints(init, description, number);
      if IsOn(init, last, description, number) then before + [W.Transfer(last.BulkOut?, last.data)] else before
  }

  /** The interface speaks usbmux on an Apple device in normal mode, on endpoints of its own. */
  ghost predicate SpeaksUsbMux(fields: DeviceFields, description: Description, number: byte) {
    var id := fields.Identity();
    && id.IsApple() && !id.IsAppleDfu() && !id.IsAppleRecovery() && description.CanPrint()
    && (exists i: nat :: StartsUsbMux(WholeInterfaces(description.settings), number, i))
    && Exclusive(description.settings, number)
  }

  lemma BulksAppend(deliveries: seq<D.Delivery>, last: D.Delivery)
    ensures Bulks(deliveries + [last]) == Bulks(deliveries) +
              if last.DeliverBulkIn? || last.DeliverBulkOut? then [W.Transfer(last.DeliverBulkOut?, last.data)] else []
  {
    assert (deliveries + [last])[..|deliveries|] == deliveries;
    assert Bulks(deliveries) + [] == Bulks(deliveries);
  }

  /** A call is decoded by the configuration described exactly when that prevails, for bulk transfers, or answers. */
  predicate InUse(earlier: seq<D.Call>, call: D.Call, value: byte) {
    if Bulk(call) then Prevails(earlier, value) else Answers(earlier, value)
  }

  /** With another configuration in use, no decoder of this one is handed anything. */
  lemma DescribedIsUsed(earlier: seq<D.Call>, call: D.Call, fields: DeviceFields, description: Description)
    requires Describes(earlier, fields.Encoded(), description)
    ensures description.CanPrint()
    ensures var s, value := ApplyAll(D.NEW, earlier), description.value;
            if InUse(earlier, call, value)
            then UsedFor(s, call) == Some(Attach(fields.Identity(), description.Parsed()))
            else Route(s, call).Some? ==> Route(s, call).value.configuration != value
  {
    hide ApplyAll;
    hide Route;
    hide Attach;
    hide Owns;
    hide SameDevice;
    hide TL.Directed;
    hide FirstTaken;
    hide LastSelection;
    hide DeviceFields.Encoded;
    hide D.IdentityOf;
    hide D.ActiveConfiguration;
    hide RequestConfiguration;
    hide Description.Parsed;
    hide Description.CanPrint;
    var d, s, value := fields.Encoded(), ApplyAll(D.NEW, earlier), description.value;
    SessionIsTold(earlier, d);
    UseIsTold(earlier, d, value);
    RouteIsOwn(s, call, value);
    if InUse(earlier, call, value) {
      DescribedIsStored(earlier, d, description);
      DeviceIsIdentified(fields);
    }
    hide OfDevice;
    hide FirstRead;
  }

  lemma UsbMuxRoute(
    earlier: seq<D.Call>, call: D.Call, fields: DeviceFields, description: Description, number: byte)
    requires SpeaksUsbMux(fields, description, number) && Describes(earlier, fields.Encoded(), description)
    requires Bulk(call)
    ensures Route(ApplyAll(D.NEW, earlier), call) == Some(UsbMuxOf(description.value, number))
       <==> IsOn(earlier, call, description, number)
  {
    hide ApplyAll;
    hide D.ActiveConfiguration;
    hide D.RouteEndpoint;
    hide Attach;
    hide StartsUsbMux;
    hide Exclusive;
    hide OnInterface;
    hide Prevails;
    hide Describes;
    hide Description.Parsed;
    hide WholeInterfaces;
    hide Description.CanPrint;
    hide DeviceFields.Encoded;
    DescribedIsUsed(earlier, call, fields, description);
    var i: nat :| StartsUsbMux(WholeInterfaces(description.settings), number, i);
    UsbMuxEndpoints(fields.Identity(), description, number, i, ApplyAll(D.NEW, earlier).alternates, Address(call));
  }

  /** The usbmux decoder of an interface gets exactly the bulk transfers on the endpoints of that interface that find
      the configuration prevailing, whatever alternate settings are selected. */
  lemma {:induction false} UsbMuxTraffic(
    calls: seq<D.Call>, fields: DeviceFields, description: Description, number: byte)
    requires SpeaksUsbMux(fields, description, number) && Describes(calls, fields.Encoded(), description)
    ensures Bulks(Routed(D.NEW, calls, UsbMuxOf(description.value, number))) == OnEndpoints(calls, description, number)
    decreases |calls|
  {
    hide ApplyAll;
    hide Route;
    hide Describes;
    hide Prevails;
    hide OnInterface;
    hide Bulks;
    hide SpeaksUsbMux;
    hide DeviceFields.Encoded;
    if calls == [] {
      NoBulks();
    } else {
      var init, last := calls[..|calls| - 1], calls[|calls| - 1];
      var expert := UsbMuxOf(description.value, number);
      DescribesBefore(calls, fields.Encoded(), description);
      UsbMuxTraffic(init, fields, description, number);
      if Bulk(last) { UsbMuxRoute(init, last, fields, description, number); }
      BulksAppend(Routed(D.NEW, init, expert), DeliveryOf(expert, last));
      assert Bulks(Routed(D.NEW, init, expert)) + [] == Bulks(Routed(D.NEW, init, expert));
    }
  }

  lemma NoBulks()
    ensures Bulks([]) == []
  {
  }

  lemma SpeaksPrintable(fields: DeviceFields, description: Description, number: byte)
    requires SpeaksUsbMux(fields, description, number)
    ensures description.CanPrint()
  {
  }

  /** A script describes an Apple device with a usbmux interface, and the bulk transfers on that interface's endpoints
      carry usbmux packets. Written to a file in any packet layout and either container, it gives the usbmux decoder of
      the interface every message of every generation of every connection, in both directions. */
  lemma ScriptToMessages(
    format: F.Format, script: seq<Happening>, container: Container, place: F.Place,
    before: seq<D.Call>, calls: seq<D.Call>,
    fields: DeviceFields, description: Description, number: byte, decode: U.Decoder, wire: seq<W.Wired>,
    host: uint16, device: uint16, g: uint32, sentOut: seq<Bytes>, sentIn: seq<Bytes>)
    requires Performs(format, script, place, before + calls)
    requires Begins(before, calls, fields.Encoded()) && Describes(calls, fields.Encoded(), description)
    requires SpeaksUsbMux(fields, description, number)
    requires Conveys(OnEndpoints(calls, description, number), wire, host, device, g, sentOut, sentIn)
    ensures E2E.Script(sentOut) && E2E.Script(sentIn)
    ensures var session := FinalSession(format, script, container, place);
            var handed := Handed(session.deliveries, UsbMuxOf(description.value, number));
            Received(W.FeedTransfers(decode, Bulks(handed)), host, device, g, sentOut, sentIn)
  {
    hide Performs;
    hide FinalSession;
    hide Begins;
    hide OfDevice;
    hide FirstRead;
    hide FirstTaken;
    hide SpeaksUsbMux;
    hide Conveys;
    hide OnEndpoints;
    hide Handed;
    hide Routed;
    hide Bulks;
    hide E2E.Script;
    hide Received;
    hide W.FeedTransfers;
    hide DeviceFields.Encoded;
    hide Description.CanPrint;
    hide Description.Encoded;
    var expert := UsbMuxOf(description.value, number);
    SessionIsHanded(format, script, container, place, before, calls, fields.Encoded(), expert);
    UsbMuxTraffic(calls, fields, description, number);
    var transfers := OnEndpoints(calls, description, number);
    ConveysScripts(transfers, wire, host, device, g, sentOut, sentIn);
    ConveyedIsReceived(decode, transfers, wire, host, device, g, sentOut, sentIn);
  }

  // ---- DFU and recovery mode ----

  predicate InMode(fields: DeviceFields) {
    fields.Identity().IsAppleDfu() || fields.Identity().IsAppleRecovery()
  }

  /** The decoder that serves all of a device in DFU or recovery mode. */
  function ModeExpert(fields: DeviceFields, description: Description): Expert
    requires InMode(fields)
  {
    if fields.Identity().IsAppleDfu() then Expert(Configuration.Dfu, description.value, 0, description.TransferSize())
    else Expert(Configuration.Recovery, description.value, 0, 0)
  }

  /** The call is for the device: on one of its endpoints, or a request to it or one of its interfaces. */
  predicate IsFor(settings: seq<Setting>, call: D.Call) {
    if Bulk(call) then Declared(settings, Address(call)) else Requests(call) && Reaches(settings, call.setup)
  }

  /** After earlier calls, this one is for the device, and finds the configuration in use. */
  predicate IsHeard(earlier: seq<D.Call>, call: D.Call, description: Description) {
    IsFor(description.settings, call) && InUse(earlier, call, description.value)
  }

  lemma ModeRoute(earlier: seq<D.Call>, call: D.Call, fields: DeviceFields, description: Description)
    requires InMode(fields) && Describes(earlier, fields.Encoded(), description)
    ensures Route(ApplyAll(D.NEW, earlier), call) == Some(ModeExpert(fields, description))
       <==> IsHeard(earlier, call, description)
  {
    hide ApplyAll;
    hide Prevails;
    hide Answers;
    hide Describes;
    hide D.ActiveConfiguration;
    hide RequestConfiguration;
    hide D.RouteEndpoint;
    hide D.ExpertForControl;
    hide Attach;
    hide Declared;
    hide Reaches;
    hide Description.Parsed;
    hide WholeInterfaces;
    hide Description.TransferSize;
    hide DeviceFields.Encoded;
    DescribedIsUsed(earlier, call, fields, description);
    DescriptionIsRead(description);
    hide Description.CanPrint;
    var s := ApplyAll(D.NEW, earlier);
    if InUse(earlier, call, description.value) {
      if Bulk(call) {
        DeviceEndpoints(fields.Identity(), description, s.alternates, Address(call));
      } else {
        DeviceRequests(s, fields.Identity(), description, call.setup);
      }
    }
  }

  /** The calls heard, as they are handed on. */
  function ForDevice(calls: seq<D.Call>, description: Description, expert: Expert): seq<D.Delivery>
    decreases |calls|
  {
    if calls == [] then []
    else
      var init, last := calls[..|calls| - 1], calls[|calls| - 1];
      var before := ForDevice(init, description, expert);
      if IsHeard(init, last, description) then before + [DeliveryOf(expert, last)] else before
  }

  /** The decoder gets exactly what is for the device while the configuration is in use: bulk transfers while it
      prevails, requests while it answers. */
  lemma {:induction false} ModeTraffic(calls: seq<D.Call>, fields: DeviceFields, description: Description)
    requires InMode(fields) && Describes(calls, fields.Encoded(), description)
    ensures Routed(D.NEW, calls, ModeExpert(fields, description))
         == ForDevice(calls, description, ModeExpert(fields, description))
    decreases |calls|
  {
    hide ApplyAll;
    hide Route;
    hide Describes;
    hide IsHeard;
    hide ModeExpert;
    hide DeliveryOf;
    hide DeviceFields.Encoded;
    if calls == [] {
    } else {
      var init, last := calls[..|calls| - 1], calls[|calls| - 1];
      DescribesBefore(calls, fields.Encoded(), description);
      ModeTraffic(init, fields, description);
      ModeRoute(init, last, fields, description);
    }
  }

  /** A script describes an Apple device in DFU or recovery mode. Written to a file in any packet layout and either
      container, it hands the decoder exactly the traffic that is for the device while its configuration is in use, in
      order. The traffic may begin as soon as the configuration has been read, and need not select it. */
  lemma ScriptReachesMode(
    format: F.Format, script: seq<Happening>, container: Container, place: F.Place,
    before: seq<D.Call>, calls: seq<D.Call>, fields: DeviceFields, description: Description)
    requires Performs(format, script, place, before + calls) && InMode(fields)
    requires Begins(before, calls, fields.Encoded()) && Describes(calls, fields.Encoded(), description)
    ensures var expert := ModeExpert(fields, description);
            Handed(FinalSession(format, script, container, place).deliveries, expert)
            == ForDevice(calls, description, expert)
  {
    hide Performs;
    hide FinalSession;
    hide Begins;
    hide Handed;
    hide Routed;
    hide ForDevice;
    hide ModeExpert;
    hide DeviceFields.Encoded;
    hide Description.CanPrint;
    hide Description.Encoded;
    hide OfDevice;
    hide FirstTaken;
    hide FirstRead;
    var expert := ModeExpert(fields, description);
    SessionIsHanded(format, script, container, place, before, calls, fields.Encoded(), expert);
    ModeTraffic(calls, fields, description);
  }

  /** The control transfers handed to a DFU decoder. */
  function DfuRequests(deliveries: seq<D.Delivery>): seq<Dfu.Request>
    decreases |deliveries|
  {
    if deliveries == [] then []
    else
      var before, last := DfuRequests(deliveries[..|deliveries| - 1]), deliveries[|deliveries| - 1];
      match last
      case DeliverControlIn(_, setup, data) => before + [Dfu.In(setup, data)]
      case DeliverControlOut(_, setup, data) => before + [Dfu.Out(setup, data)]
      case _ => before
  }

  /** All transfers handed to a recovery mode decoder. */
  function RecoveryInputs(deliveries: seq<D.Delivery>): seq<Recovery.Input>
    decreases |deliveries|
  {
    if deliveries == [] then []
    else
      var before, last := RecoveryInputs(deliveries[..|deliveries| - 1]), deliveries[|deliveries| - 1];
      match last
      case DeliverControlIn(_, setup, data) => before + [Recovery.ControlIn(setup, data)]
      case DeliverControlOut(_, setup, data) => before + [Recovery.ControlOut(setup, data)]
      case DeliverBulkIn(_, data) => before + [Recovery.BulkIn(data)]
      case DeliverBulkOut(_, data) => before + [Recovery.BulkOut(data)]
  }

  /** The class and vendor requests heard among the calls. */
  function RequestsFor(calls: seq<D.Call>, description: Description): seq<Dfu.Request>
    decreases |calls|
  {
    if calls == [] then []
    else
      var init, last := calls[..|calls| - 1], calls[|calls| - 1];
      var before := RequestsFor(init, description);
      if !Bulk(last) && IsHeard(init, last, description)
      then before + [if last.ControlIn? then Dfu.In(last.setup, last.data) else Dfu.Out(last.setup, last.data)]
      else before
  }

  lemma {:induction false} RequestsAreHanded(calls: seq<D.Call>, description: Description, expert: Expert)
    ensures DfuRequests(ForDevice(calls, description, expert)) == RequestsFor(calls, description)
    decreases |calls|
  {
    hide IsHeard;
    if calls == [] {
    } else {
      var init, last := calls[..|calls| - 1], calls[|calls| - 1];
      RequestsAreHanded(init, description, expert);
      var before := ForDevice(init, description, expert);
      assert (before + [DeliveryOf(expert, last)])[..|before|] == before;
    }
  }

  function InputOf(call: D.Call): Recovery.Input {
    match call
    case ControlIn(_, setup, data) => Recovery.ControlIn(setup, data)
    case ControlOut(_, setup, data) => Recovery.ControlOut(setup, data)
    case BulkIn(_, data) => Recovery.BulkIn(data)
    case BulkOut(_, data) => Recovery.BulkOut(data)
  }

  /** The transfers heard among the calls. */
  function InputsFor(calls: seq<D.Call>, description: Description): seq<Recovery.Input>
    decreases |calls|
  {
    if calls == [] then []
    else
      var init, last := calls[..|calls| - 1], calls[|calls| - 1];
      var before := InputsFor(init, description);
      if IsHeard(init, last, description) then before + [InputOf(last)] else before
  }

  lemma {:induction false} InputsAreHanded(calls: seq<D.Call>, description: Description, expert: Expert)
    ensures RecoveryInputs(ForDevice(calls, description, expert)) == InputsFor(calls, description)
    decreases |calls|
  {
    hide IsHeard;
    if calls == [] {
    } else {
      var init, last := calls[..|calls| - 1], calls[|calls| - 1];
      InputsAreHanded(init, description, expert);
      var before := ForDevice(init, description, expert);
      assert (before + [DeliveryOf(expert, last)])[..|before|] == before;
    }
  }

  /** Of a device in DFU mode, the images are what the script's requests download, cut at the empty downloads and
      aborts, without the empty pieces. */
  lemma ScriptToImages(
    format: F.Format, script: seq<Happening>, container: Container, place: F.Place,
    before: seq<D.Call>, calls: seq<D.Call>, fields: DeviceFields, description: Description)
    requires Performs(format, script, place, before + calls)
    requires Begins(before, calls, fields.Encoded()) && Describes(calls, fields.Encoded(), description)
    requires fields.Identity().IsAppleDfu()
    ensures var handed := Handed(FinalSession(format, script, container, place).deliveries,
                                 Expert(Configuration.Dfu, description.value, 0, description.TransferSize()));
            Dfu.Run(description.TransferSize(), DfuRequests(handed)).Images()
            == Dfu.NonEmpty(Cutting.Cut(Cutting.PartsOf(Dfu.Part, RequestsFor(calls, description))))
  {
    hide Performs;
    hide FinalSession;
    hide Begins;
    hide Describes;
    hide Handed;
    hide Bulk;
    hide Requests;
    hide ForDevice;
    hide DfuRequests;
    hide RequestsFor;
    hide Description.TransferSize;
    hide Dfu.Run;
    hide Dfu.NonEmpty;
    hide Cutting.Cut;
    hide Cutting.PartsOf;
    ScriptReachesMode(format, script, container, place, before, calls, fields, description);
    RequestsAreHanded(calls, description, ModeExpert(fields, description));
    Dfu.ImagesAreSegments(description.TransferSize(), RequestsFor(calls, description));
  }

  /** Of a device in recovery mode, the uploads are the script's bulk OUT data, as far as it is heard, cut at the
      announcements. */
  lemma ScriptToUploads(
    format: F.Format, script: seq<Happening>, container: Container, place: F.Place,
    before: seq<D.Call>, calls: seq<D.Call>, fields: DeviceFields, description: Description)
    requires Performs(format, script, place, before + calls)
    requires Begins(before, calls, fields.Encoded()) && Describes(calls, fields.Encoded(), description)
    requires fields.Identity().IsAppleRecovery()
    ensures var handed := Handed(FinalSession(format, script, container, place).deliveries,
                                 Expert(Configuration.Recovery, description.value, 0, 0));
            Recovery.Uploads(Recovery.Run(RecoveryInputs(handed)).payloads)
            == Recovery.Files(Cutting.Cut(Cutting.PartsOf(Recovery.Part, InputsFor(calls, description))))
  {
    hide Performs;
    hide FinalSession;
    hide Begins;
    hide Describes;
    hide Handed;
    hide Bulk;
    hide Requests;
    hide ForDevice;
    hide RecoveryInputs;
    hide InputsFor;
    hide Recovery.Run;
    hide Recovery.Uploads;
    hide Cutting.Cut;
    hide Cutting.PartsOf;
    ScriptReachesMode(format, script, container, place, before, calls, fields, description);
    InputsAreHanded(calls, description, ModeExpert(fields, description));
    Recovery.UploadsAreFiles(InputsFor(calls, description));
  }
}
