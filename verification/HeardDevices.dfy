/** Whole devices, from their printed descriptors to what is recovered of their traffic: nothing is asked of scripts or
    calls here, which are built from what is said. */
module HeardDevices {
  import opened Wire
  import D = Device
  import Configuration
  import ConfigurationLaws
  import TL = TransferLaws
  import opened SessionLaws
  import opened Deliveries
  import opened Enumeration
  import opened AttachmentLaws
  import F = FormatLaws
  import opened CaptureLaws
  import opened CaptureFiles
  import opened WholeStack
  import opened DeviceCaptures
  import opened Conversations
  import opened HostEnumeration
  import U = UsbMux
  import W = UsbMuxWire
  import E2E = UsbMuxEndToEnd
  import Dfu
  import Recovery
  import Cutting

  // ---- Conversations ----

  /** The host says something, or enumerates the device again, as when it was unplugged and is back on its address. */
  datatype Turn<T> = Say(said: T) | Again

  function Said<T>(turns: seq<Turn<T>>): seq<T>
    decreases |turns|
  {
    if turns == [] then []
    else
      var before, last := Said(turns[..|turns| - 1]), turns[|turns| - 1];
      if last.Say? then before + [last.said] else before
  }

  /** The call reads no descriptor of the device or of a configuration, and selects nothing. */
  predicate IsQuiet(call: D.Call) {
    TL.Directed(call) && !Reads(call) && !ReadsSet(call) && !Selects(call)
  }

  /** Such a call leaves things as they are. */
  lemma QuietStands(calls: seq<D.Call>, call: D.Call, fields: DeviceFields, descriptions: seq<Description>, k: nat,
                    selection: Option<byte>)
    requires Stands(calls, fields, descriptions, k, selection) && IsQuiet(call)
    ensures Stands(calls + [call], fields, descriptions, k, selection)
  {
    hide Described;
    hide FirstTaken;
    hide DeviceFields.Encoded;
    hide Description.CanPrint;
    hide Description.Encoded;
    var whole := calls + [call];
    assert whole[..|calls|] == calls;
    QuietDescribes(calls, call, fields.Encoded(), descriptions[k]);
    hide Describes;
    hide TL.Directed;
    hide Reads;
    hide ReadsSet;
    hide Selects;
    hide AllPrintable;
    assert forall v: byte :: FirstRead(whole, v) == FirstRead(calls, v);
  }

  lemma QuietDescribes(calls: seq<D.Call>, call: D.Call, d: D.Descriptor, description: Description)
    requires Describes(calls, d, description) && IsQuiet(call)
    ensures Describes(calls + [call], d, description)
  {
    hide TL.Directed;
    hide Identified;
    hide FirstTaken;
    hide SetOf;
    hide Description.CanPrint;
    hide Description.Encoded;
    assert [call][..0] == [];
    DescribesConcat(calls, [call], d, description);
  }

  /** Another enumeration of the device does, too. */
  lemma AgainStands(calls: seq<D.Call>, fields: DeviceFields, descriptions: seq<Description>, strings: seq<Bytes>,
                    selection: Option<byte>, k: nat)
    requires Stands(calls, fields, descriptions, k, selection)
    ensures var more := CallsOf(Enumerate(fields, descriptions, strings, selection));
            Stands(calls + more, fields, descriptions, k, selection) && Plain(more, fields.Encoded())
    ensures AllWritable(Enumerate(fields, descriptions, strings, selection))
  {
    hide CallsOf;
    hide Enumerate;
    hide Describes;
    hide Described;
    hide Plain;
    hide IsRead;
    hide LastSelection;
    hide AllPrintable;
    hide AllWritable;
    hide DeviceFields.Encoded;
    EnumerationStands(calls, fields, descriptions, strings, selection, k);
  }

  lemma FirstStands(fields: DeviceFields, descriptions: seq<Description>, strings: seq<Bytes>,
                    selection: Option<byte>, k: nat)
    requires IsFirstOf(descriptions, k)
    ensures var calls := CallsOf(Enumerate(fields, descriptions, strings, selection));
            Stands(calls, fields, descriptions, k, selection) && Plain(calls, fields.Encoded())
    ensures AllWritable(Enumerate(fields, descriptions, strings, selection))
  {
    hide CallsOf;
    hide Enumerate;
    hide Stands;
    hide Precedes;
    hide Plain;
    hide AllWritable;
    hide DeviceFields.Encoded;
    NothingPrecedes(fields, descriptions, k, selection);
    EnumerationStands([], fields, descriptions, strings, selection, k);
    var calls := CallsOf(Enumerate(fields, descriptions, strings, selection));
    assert [] + calls == calls;
  }

  /** A host that does one thing after the other performs these calls. */
  lemma ConversationPerforms(format: F.Format, place: F.Place, transfers: seq<TL.Transfer>)
    requires AllWritable(transfers)
    ensures var script := InTurn(place, transfers);
            Storable(format, script) && Performs(format, script, place, [] + CallsOf(transfers))
  {
    hide CallsOf;
    hide InTurn;
    hide Writable;
    InTurnPerforms(format, place, transfers);
    assert [] + CallsOf(transfers) == CallsOf(transfers);
    PerformsStorable(format, InTurn(place, transfers), place, CallsOf(transfers));
    hide Performs;
  }

  lemma StandsDescribes(calls: seq<D.Call>, fields: DeviceFields, descriptions: seq<Description>, k: nat,
                        selection: Option<byte>)
    requires Stands(calls, fields, descriptions, k, selection)
    ensures IsFirstOf(descriptions, k) && Describes(calls, fields.Encoded(), descriptions[k])
  {
  }

  lemma WritableConcat(a: seq<TL.Transfer>, b: seq<TL.Transfer>)
    requires AllWritable(a) && AllWritable(b)
    ensures AllWritable(a + b)
  {
    hide Writable;
  }

  // ---- A phone ----

  /** A packet's transfer, on the endpoint of its direction. */
  function Carrier(w: W.Wired, inAddress: byte, outAddress: byte): TL.Transfer
    requires w.CanPrint()
  {
    TL.Transfer(TL.BulkType, if w.outbound then outAddress else inAddress, D.Setup(0, 0, 0, 0, 0), w.Encoded(), false)
  }

  predicate CanExchange(turns: seq<Turn<W.Wired>>) {
    forall i | 0 <= i < |turns| :: turns[i].Say? ==> turns[i].said.CanPrint()
  }

  /** The enumeration, and then each packet in a bulk transfer on the endpoint of its direction. */
  function Exchange(enumeration: seq<TL.Transfer>, turns: seq<Turn<W.Wired>>, inAddress: byte, outAddress: byte)
    : seq<TL.Transfer>
    requires CanExchange(turns)
    decreases |turns|
  {
    if turns == [] then enumeration
    else
      var last := turns[|turns| - 1];
      Exchange(enumeration, turns[..|turns| - 1], inAddress, outAddress)
      + if last.Again? then enumeration else [Carrier(last.said, inAddress, outAddress)]
  }

  lemma CarrierIs(w: W.Wired, inAddress: byte, outAddress: byte)
    requires w.CanPrint() && inAddress >= 0x80 > outAddress
    ensures var call := Carrier(w, inAddress, outAddress).Expected();
            && Bulk(call) && call.data == w.Encoded() && call.BulkOut? == w.outbound
            && Address(call) == if w.outbound then outAddress else inAddress
  {
    hide W.Wired.Encoded;
    hide W.Wired.CanPrint;
    StrippedTwice(inAddress);
    StrippedTwice(outAddress);
  }

  lemma StrippedTwice(endpoint: byte)
    ensures endpoint % 0x80 % 0x80 == if endpoint >= 0x80 then endpoint - 0x80 else endpoint
  {
  }

  lemma OnEndpointsMore(calls: seq<D.Call>, call: D.Call, description: Description, number: byte)
    requires IsOn(calls, call, description, number)
    ensures OnEndpoints(calls + [call], description, number)
         == OnEndpoints(calls, description, number) + [W.Transfer(call.BulkOut?, call.data)]
  {
    hide IsOn;
    assert (calls + [call])[..|calls|] == calls;
  }

  lemma {:induction false} PlainOnEndpoints(
    calls: seq<D.Call>, more: seq<D.Call>, d: D.Descriptor, description: Description, number: byte)
    requires Plain(more, d)
    ensures OnEndpoints(calls + more, description, number) == OnEndpoints(calls, description, number)
    decreases |more|
  {
    hide OnInterface;
    hide Prevails;
    hide OfDevice;
    hide Requests;
    if more == [] {
      assert calls + more == calls;
    } else {
      var init := more[..|more| - 1];
      assert (calls + more)[..|calls + more| - 1] == calls + init;
      PlainBefore(more, d);
      PlainOnEndpoints(calls, init, d, description, number);
    }
  }

  lemma PlainBefore(calls: seq<D.Call>, d: D.Descriptor)
    requires calls != [] && Plain(calls, d)
    ensures Plain(calls[..|calls| - 1], d)
    ensures var last := calls[|calls| - 1]; !Bulk(last) && !Requests(last)
  {
    hide TL.Directed;
    hide SameDevice;
    hide Bulk;
    hide Requests;
    assert forall i | 0 <= i < |calls| - 1 :: calls[..|calls| - 1][i] == calls[i];
  }

  lemma NothingOnEndpoints(
    calls: seq<D.Call>, d: D.Descriptor, description: Description, number: byte)
    requires Plain(calls, d)
    ensures OnEndpoints(calls, description, number) == []
  {
    hide Plain;
    PlainOnEndpoints([], calls, d, description, number);
    assert [] + calls == calls;
  }

  lemma {:induction false} SaidCanPrint(turns: seq<Turn<W.Wired>>)
    requires CanExchange(turns)
    ensures W.CanPrint(Said(turns))
    decreases |turns|
  {
    hide W.Wired.CanPrint;
    if turns == [] {
    } else {
      var init := turns[..|turns| - 1];
      assert forall i | 0 <= i < |init| :: init[i] == turns[i];
      SaidCanPrint(init);
    }
  }

  /** What one packet adds. */
  lemma PacketIsSaid(
    calls: seq<D.Call>, w: W.Wired, inAddress: byte, outAddress: byte,
    fields: DeviceFields, descriptions: seq<Description>, k: nat, selection: Option<byte>, number: byte)
    requires w.CanPrint() && Settles(descriptions, k, selection) && inAddress >= 0x80 > outAddress
    requires Stands(calls, fields, descriptions, k, selection)
    requires OnInterface(descriptions[k].settings, number, inAddress)
    requires OnInterface(descriptions[k].settings, number, outAddress)
    ensures var t := Carrier(w, inAddress, outAddress);
            && Writable(t) && Stands(calls + [t.Expected()], fields, descriptions, k, selection)
            && OnEndpoints(calls + [t.Expected()], descriptions[k], number)
               == OnEndpoints(calls, descriptions[k], number) + [W.Transfer(w.outbound, w.Encoded())]
  {
    hide OnInterface;
    hide Stands;
    hide Settles;
    hide Describes;
    hide Prevails;
    hide W.Wired.CanPrint;
    hide W.Wired.Encoded;
    var call := Carrier(w, inAddress, outAddress).Expected();
    StandsDescribes(calls, fields, descriptions, k, selection);
    EncodedFits(w);
    CarrierIs(w, inAddress, outAddress);
    QuietStands(calls, call, fields, descriptions, k, selection);
    StandsAsChosen(calls, fields, descriptions, k, selection);
    hide TL.Transfer.Expected;
    OnEndpointsMore(calls, call, descriptions[k], number);
  }

  /** The packets said, as the transfers on the interface's endpoints. */
  lemma {:induction false} ExchangeIsOneByOne(
    turns: seq<Turn<W.Wired>>, inAddress: byte, outAddress: byte,
    fields: DeviceFields, descriptions: seq<Description>, strings: seq<Bytes>, selection: Option<byte>, k: nat,
    number: byte)
    requires CanExchange(turns) && Settles(descriptions, k, selection) && inAddress >= 0x80 > outAddress
    requires OnInterface(descriptions[k].settings, number, inAddress)
    requires OnInterface(descriptions[k].settings, number, outAddress)
    ensures W.CanPrint(Said(turns))
    ensures var transfers :=
              Exchange(Enumerate(fields, descriptions, strings, selection), turns, inAddress, outAddress);
            && AllWritable(transfers) && Stands(CallsOf(transfers), fields, descriptions, k, selection)
            && OnEndpoints(CallsOf(transfers), descriptions[k], number) == W.OneByOne(Said(turns))
    decreases |turns|
  {
    hide OnInterface;
    hide Enumerate;
    hide Stands;
    hide Described;
    hide AllPrintable;
    hide Plain;
    hide CallsOf;
    hide OnEndpoints;
    hide Writable;
    hide W.Wired.Encoded;
    hide W.Wired.CanPrint;
    hide TL.Transfer.Expected;
    hide DeviceFields.Encoded;
    SaidCanPrint(turns);
    var enumeration, d := Enumerate(fields, descriptions, strings, selection), fields.Encoded();
    FirstStands(fields, descriptions, strings, selection, k);
    if turns == [] {
      NothingOnEndpoints(CallsOf(enumeration), d, descriptions[k], number);
    } else {
      var init, last := turns[..|turns| - 1], turns[|turns| - 1];
      ExchangeIsOneByOne(init, inAddress, outAddress, fields, descriptions, strings, selection, k, number);
      var transfers := Exchange(enumeration, init, inAddress, outAddress);
      var calls := CallsOf(transfers);
      hide Settles;
      if last.Again? {
        AgainStands(calls, fields, descriptions, strings, selection, k);
        PlainOnEndpoints(calls, CallsOf(enumeration), d, descriptions[k], number);
        CallsConcat(transfers, enumeration);
        WritableConcat(transfers, enumeration);
      } else {
        PacketIsSaid(calls, last.said, inAddress, outAddress, fields, descriptions, k, selection, number);
        CallsMore(transfers, Carrier(last.said, inAddress, outAddress));
      }
    }
  }

  lemma EncodedFits(w: W.Wired)
    requires w.CanPrint()
    ensures |w.Encoded()| <= U.MAX_MUX_PACKET
  {
    hide W.SegmentBytes;
  }

  /** Any Apple device with a usbmux interface, and anything said on it: enumerated, and enumerated again at any time,
      printed, wrapped, sent one packet after the other and captured in any layout and container, every message of every
      generation of every connection is recovered. */
  lemma PhoneIsHeard(
    format: F.Format, container: Container, place: F.Place,
    fields: DeviceFields, descriptions: seq<Description>, strings: seq<Bytes>, selection: Option<byte>, k: nat,
    number: byte, inAddress: byte, outAddress: byte, decode: U.Decoder, turns: seq<Turn<W.Wired>>,
    host: uint16, device: uint16, g: uint32, sentOut: seq<Bytes>, sentIn: seq<Bytes>)
    requires Settles(descriptions, k, selection) && SpeaksUsbMux(fields, descriptions[k], number)
    requires inAddress >= 0x80 > outAddress
    requires OnInterface(descriptions[k].settings, number, inAddress)
    requires OnInterface(descriptions[k].settings, number, outAddress)
    requires CanExchange(turns) && |Said(turns)| < U.GENERATIONS
    requires W.CanPrint(Said(turns)) && E2E.CarriesScripts(W.SegmentsOf(Said(turns)), host, device, g, sentOut, sentIn)
    ensures E2E.Script(sentOut) && E2E.Script(sentIn)
    ensures var script := InTurn(place, Exchange(Enumerate(fields, descriptions, strings, selection), turns,
                                                 inAddress, outAddress));
            && Storable(format, script)
            && var handed := Handed(FinalSession(format, script, container, place).deliveries,
                                    UsbMuxOf(descriptions[k].value, number));
               Received(W.FeedTransfers(decode, Bulks(handed)), host, device, g, sentOut, sentIn)
  {
    hide OnInterface;
    hide FinalSession;
    hide InTurn;
    hide Enumerate;
    hide Exchange;
    hide CanExchange;
    hide Said;
    hide Stands;
    hide Describes;
    hide Described;
    hide AllPrintable;
    hide DeviceFields.Encoded;
    hide E2E.CarriesScripts;
    hide E2E.Script;
    hide SpeaksUsbMux;
    hide Received;
    hide Handed;
    hide Bulks;
    hide Storable;
    hide CallsOf;
    hide Performs;
    hide AllWritable;
    hide W.FeedTransfers;
    var transfers := Exchange(Enumerate(fields, descriptions, strings, selection), turns, inAddress, outAddress);
    ExchangeIsOneByOne(turns, inAddress, outAddress, fields, descriptions, strings, selection, k, number);
    StandsDescribes(CallsOf(transfers), fields, descriptions, k, selection);
    hide Settles;
    W.OneByOneIsCarried(Said(turns));
    ConversationPerforms(format, place, transfers);
    ScriptToMessages(format, InTurn(place, transfers), container, place, [], CallsOf(transfers), fields,
                     descriptions[k], number, decode, Said(turns), host, device, g, sentOut, sentIn);
  }

  // ---- A device in DFU mode ----

  /** A class or vendor request for the device, in the direction its setup packet says, of at most the length asked. */
  predicate CanRequest(settings: seq<ConfigurationLaws.Setting>, setup: D.Setup, data: Bytes, inbound: bool) {
    !setup.Standard() && setup.In() == inbound && |data| <= setup.length && Reaches(settings, setup)
  }

  function ControlTransfer(setup: D.Setup, data: Bytes): TL.Transfer {
    TL.Transfer(TL.ControlType, if setup.In() then 0x80 else 0, setup, data, false)
  }

  function ControlCall(setup: D.Setup, data: Bytes): D.Call {
    if setup.In() then D.ControlIn(0, setup, data) else D.ControlOut(0, setup, data)
  }

  lemma ControlTransferIs(settings: seq<ConfigurationLaws.Setting>, setup: D.Setup, data: Bytes, inbound: bool)
    requires CanRequest(settings, setup, data, inbound)
    ensures Writable(ControlTransfer(setup, data))
    ensures ControlTransfer(setup, data).Expected() == ControlCall(setup, data)
    ensures var call := ControlCall(setup, data);
            IsFor(settings, call) && !Bulk(call) && IsQuiet(call)
  {
    hide Reaches;
    hide Configuration.Parse;
    assert data[..|data|] == data;
  }

  predicate CanSend(settings: seq<ConfigurationLaws.Setting>, turns: seq<Turn<Dfu.Request>>) {
    forall i | 0 <= i < |turns| && turns[i].Say? ::
      CanRequest(settings, turns[i].said.setup, turns[i].said.data, turns[i].said.In?)
  }

  function RequestTransfer(r: Dfu.Request): TL.Transfer {
    ControlTransfer(r.setup, r.data)
  }

  function RequestOf(call: D.Call): Dfu.Request
    requires !Bulk(call)
  {
    if call.ControlIn? then Dfu.In(call.setup, call.data) else Dfu.Out(call.setup, call.data)
  }

  function RequestTransfers(enumeration: seq<TL.Transfer>, turns: seq<Turn<Dfu.Request>>): seq<TL.Transfer>
    decreases |turns|
  {
    if turns == [] then enumeration
    else
      var last := turns[|turns| - 1];
      RequestTransfers(enumeration, turns[..|turns| - 1])
      + if last.Again? then enumeration else [RequestTransfer(last.said)]
  }

  lemma RequestTransferIs(settings: seq<ConfigurationLaws.Setting>, r: Dfu.Request)
    requires CanRequest(settings, r.setup, r.data, r.In?)
    ensures Writable(RequestTransfer(r))
    ensures var call := RequestTransfer(r).Expected();
            IsFor(settings, call) && !Bulk(call) && RequestOf(call) == r && IsQuiet(call)
  {
    hide Reaches;
    hide WholeSet;
    ControlTransferIs(settings, r.setup, r.data, r.In?);
  }

  lemma {:induction false} PlainRequests(
    calls: seq<D.Call>, more: seq<D.Call>, d: D.Descriptor, description: Description)
    requires Plain(more, d)
    ensures RequestsFor(calls + more, description) == RequestsFor(calls, description)
    decreases |more|
  {
    hide InUse;
    hide Declared;
    hide Reaches;
    hide OfDevice;
    if more == [] {
      assert calls + more == calls;
    } else {
      var init := more[..|more| - 1];
      assert (calls + more)[..|calls + more| - 1] == calls + init;
      PlainBefore(more, d);
      PlainRequests(calls, init, d, description);
    }
    hide Bulk;
    hide Requests;
  }

  lemma NothingRequested(calls: seq<D.Call>, d: D.Descriptor, description: Description)
    requires Plain(calls, d)
    ensures RequestsFor(calls, description) == []
  {
    hide Plain;
    PlainRequests([], calls, d, description);
    assert [] + calls == calls;
  }

  /** What one request adds. */
  lemma RequestIsSaid(calls: seq<D.Call>, r: Dfu.Request, fields: DeviceFields, descriptions: seq<Description>, k: nat,
                      selection: Option<byte>)
    requires Chooses(descriptions, k, selection) && CanRequest(descriptions[k].settings, r.setup, r.data, r.In?)
    requires Stands(calls, fields, descriptions, k, selection)
    ensures var t := RequestTransfer(r);
            && Writable(t) && Stands(calls + [t.Expected()], fields, descriptions, k, selection)
            && RequestsFor(calls + [t.Expected()], descriptions[k]) == RequestsFor(calls, descriptions[k]) + [r]
  {
    hide Stands;
    hide Chooses;
    hide Describes;
    hide CanRequest;
    hide Answers;
    hide IsFor;
    hide RequestTransfer;
    hide TL.Transfer.Expected;
    var call := RequestTransfer(r).Expected();
    StandsDescribes(calls, fields, descriptions, k, selection);
    RequestTransferIs(descriptions[k].settings, r);
    QuietStands(calls, call, fields, descriptions, k, selection);
    StandsAsChosen(calls, fields, descriptions, k, selection);
    assert (calls + [call])[..|calls|] == calls;
  }

  /** The requests said, as the transfers for the device. */
  lemma {:induction false} RequestsAreSent(
    turns: seq<Turn<Dfu.Request>>, fields: DeviceFields, descriptions: seq<Description>, strings: seq<Bytes>,
    selection: Option<byte>, k: nat)
    requires Chooses(descriptions, k, selection) && CanSend(descriptions[k].settings, turns)
    ensures var transfers := RequestTransfers(Enumerate(fields, descriptions, strings, selection), turns);
            && AllWritable(transfers) && Stands(CallsOf(transfers), fields, descriptions, k, selection)
            && RequestsFor(CallsOf(transfers), descriptions[k]) == Said(turns)
    decreases |turns|
  {
    hide Enumerate;
    hide Stands;
    hide Described;
    hide AllPrintable;
    hide Plain;
    hide CallsOf;
    hide RequestsFor;
    hide Writable;
    hide CanRequest;
    hide RequestTransfer;
    hide TL.Transfer.Expected;
    hide DeviceFields.Encoded;
    var enumeration, d := Enumerate(fields, descriptions, strings, selection), fields.Encoded();
    FirstStands(fields, descriptions, strings, selection, k);
    if turns == [] {
      NothingRequested(CallsOf(enumeration), d, descriptions[k]);
    } else {
      var init, last := turns[..|turns| - 1], turns[|turns| - 1];
      RequestsAreSent(init, fields, descriptions, strings, selection, k);
      var transfers := RequestTransfers(enumeration, init);
      var calls := CallsOf(transfers);
      if last.Again? {
        AgainStands(calls, fields, descriptions, strings, selection, k);
        PlainRequests(calls, CallsOf(enumeration), d, descriptions[k]);
        CallsConcat(transfers, enumeration);
        WritableConcat(transfers, enumeration);
      } else {
        RequestIsSaid(calls, last.said, fields, descriptions, k, selection);
        CallsMore(transfers, RequestTransfer(last.said));
      }
    }
  }

  /** Any Apple device in DFU mode, and any requests made to it: from the capture of its enumerations and of them, the
      images are what the requests download. With several configurations and none of them selected, the requests are
      decoded by the lowest. */
  lemma UpgradeIsHeard(
    format: F.Format, container: Container, place: F.Place,
    fields: DeviceFields, descriptions: seq<Description>, strings: seq<Bytes>, selection: Option<byte>, k: nat,
    turns: seq<Turn<Dfu.Request>>)
    requires Chooses(descriptions, k, selection) && fields.Identity().IsAppleDfu()
    requires CanSend(descriptions[k].settings, turns)
    ensures var script :=
              InTurn(place, RequestTransfers(Enumerate(fields, descriptions, strings, selection), turns));
            var size := descriptions[k].TransferSize();
            && Storable(format, script)
            && var handed := Handed(FinalSession(format, script, container, place).deliveries,
                                    Configuration.Expert(Configuration.Dfu, descriptions[k].value, 0, size));
               Dfu.Run(size, DfuRequests(handed)).Images()
               == Dfu.NonEmpty(Cutting.Cut(Cutting.PartsOf(Dfu.Part, Said(turns))))
  {
    hide FinalSession;
    hide InTurn;
    hide Enumerate;
    hide RequestTransfers;
    hide Said;
    hide Stands;
    hide Describes;
    hide Described;
    hide AllPrintable;
    hide Description.TransferSize;
    hide DeviceFields.Encoded;
    hide CanSend;
    hide RequestsFor;
    hide DfuRequests;
    hide Dfu.Run;
    hide Dfu.NonEmpty;
    hide Cutting.Cut;
    hide Cutting.PartsOf;
    hide Handed;
    hide Storable;
    hide CallsOf;
    hide Performs;
    hide AllWritable;
    var transfers := RequestTransfers(Enumerate(fields, descriptions, strings, selection), turns);
    RequestsAreSent(turns, fields, descriptions, strings, selection, k);
    StandsDescribes(CallsOf(transfers), fields, descriptions, k, selection);
    ConversationPerforms(format, place, transfers);
    ScriptToImages(format, InTurn(place, transfers), container, place, [], CallsOf(transfers), fields, descriptions[k]);
  }

  // ---- A device in recovery mode ----

  /** The endpoints of bulk inputs are declared by some setting. */
  predicate CanInput(settings: seq<ConfigurationLaws.Setting>, inAddress: byte, outAddress: byte, i: Recovery.Input) {
    match i
    case ControlOut(setup, data) => CanRequest(settings, setup, data, false)
    case ControlIn(setup, data) => CanRequest(settings, setup, data, true)
    case BulkOut(data) => outAddress < 0x80 && Declared(settings, outAddress) && |data| < 0x1_0000_0000 - HEADER_ROOM
    case BulkIn(data) => inAddress >= 0x80 && Declared(settings, inAddress) && |data| < 0x1_0000_0000 - HEADER_ROOM
  }

  function InputTransfer(i: Recovery.Input, inAddress: byte, outAddress: byte): TL.Transfer {
    match i
    case ControlOut(setup, data) => ControlTransfer(setup, data)
    case ControlIn(setup, data) => ControlTransfer(setup, data)
    case BulkOut(data) => TL.Transfer(TL.BulkType, outAddress, D.Setup(0, 0, 0, 0, 0), data, false)
    case BulkIn(data) => TL.Transfer(TL.BulkType, inAddress, D.Setup(0, 0, 0, 0, 0), data, false)
  }

  predicate CanInputAll(
    settings: seq<ConfigurationLaws.Setting>, inAddress: byte, outAddress: byte, turns: seq<Turn<Recovery.Input>>)
  {
    forall i | 0 <= i < |turns| && turns[i].Say? :: CanInput(settings, inAddress, outAddress, turns[i].said)
  }

  function InputTransfers(
    enumeration: seq<TL.Transfer>, turns: seq<Turn<Recovery.Input>>, inAddress: byte, outAddress: byte)
    : seq<TL.Transfer>
    decreases |turns|
  {
    if turns == [] then enumeration
    else
      var last := turns[|turns| - 1];
      InputTransfers(enumeration, turns[..|turns| - 1], inAddress, outAddress)
      + if last.Again? then enumeration else [InputTransfer(last.said, inAddress, outAddress)]
  }

  lemma InputTransferIs(
    settings: seq<ConfigurationLaws.Setting>, inAddress: byte, outAddress: byte, i: Recovery.Input)
    requires CanInput(settings, inAddress, outAddress, i)
    ensures Writable(InputTransfer(i, inAddress, outAddress))
    ensures var call := InputTransfer(i, inAddress, outAddress).Expected();
            IsFor(settings, call) && InputOf(call) == i && IsQuiet(call)
  {
    hide Declared;
    hide Reaches;
    hide WholeSet;
    StrippedTwice(inAddress);
    StrippedTwice(outAddress);
    match i {
      case ControlOut(setup, data) => ControlTransferIs(settings, setup, data, false);
      case ControlIn(setup, data) => ControlTransferIs(settings, setup, data, true);
      case BulkOut(_) =>
      case BulkIn(_) =>
    }
  }

  lemma {:induction false} PlainInputs(
    calls: seq<D.Call>, more: seq<D.Call>, d: D.Descriptor, description: Description)
    requires Plain(more, d)
    ensures InputsFor(calls + more, description) == InputsFor(calls, description)
    decreases |more|
  {
    hide InUse;
    hide Declared;
    hide Reaches;
    hide OfDevice;
    if more == [] {
      assert calls + more == calls;
    } else {
      var init := more[..|more| - 1];
      assert (calls + more)[..|calls + more| - 1] == calls + init;
      PlainBefore(more, d);
      PlainInputs(calls, init, d, description);
    }
    hide Bulk;
    hide Requests;
  }

  lemma NothingInput(calls: seq<D.Call>, d: D.Descriptor, description: Description)
    requires Plain(calls, d)
    ensures InputsFor(calls, description) == []
  {
    hide Plain;
    PlainInputs([], calls, d, description);
    assert [] + calls == calls;
  }

  /** What is heard of an input: without a configuration in force only requests are. */
  predicate IsAudible(i: Recovery.Input, inForce: bool) {
    inForce || i.ControlIn? || i.ControlOut?
  }

  function Audible(inputs: seq<Recovery.Input>, inForce: bool): seq<Recovery.Input>
    decreases |inputs|
  {
    if inputs == [] then []
    else
      var before, last := Audible(inputs[..|inputs| - 1], inForce), inputs[|inputs| - 1];
      if IsAudible(last, inForce) then before + [last] else before
  }

  /** What one input adds. */
  lemma InputIsSaid(calls: seq<D.Call>, i: Recovery.Input, inAddress: byte, outAddress: byte,
                    fields: DeviceFields, descriptions: seq<Description>, k: nat, selection: Option<byte>)
    requires Chooses(descriptions, k, selection) && CanInput(descriptions[k].settings, inAddress, outAddress, i)
    requires Stands(calls, fields, descriptions, k, selection)
    ensures var t := InputTransfer(i, inAddress, outAddress);
            && Writable(t) && Stands(calls + [t.Expected()], fields, descriptions, k, selection)
            && InputsFor(calls + [t.Expected()], descriptions[k])
               == InputsFor(calls, descriptions[k])
                    + if IsAudible(i, Settles(descriptions, k, selection)) then [i] else []
  {
    hide Stands;
    hide Chooses;
    hide Describes;
    hide Settles;
    hide CanInput;
    hide Answers;
    hide Prevails;
    hide IsFor;
    hide InputTransfer;
    hide TL.Transfer.Expected;
    var call := InputTransfer(i, inAddress, outAddress).Expected();
    StandsDescribes(calls, fields, descriptions, k, selection);
    InputTransferIs(descriptions[k].settings, inAddress, outAddress, i);
    QuietStands(calls, call, fields, descriptions, k, selection);
    StandsAsChosen(calls, fields, descriptions, k, selection);
    assert (calls + [call])[..|calls|] == calls;
    assert InputsFor(calls, descriptions[k]) + [] == InputsFor(calls, descriptions[k]);
  }

  lemma AudibleMore(inputs: seq<Recovery.Input>, i: Recovery.Input, inForce: bool)
    ensures Audible(inputs + [i], inForce) == Audible(inputs, inForce) + if IsAudible(i, inForce) then [i] else []
  {
    assert (inputs + [i])[..|inputs|] == inputs;
    assert Audible(inputs, inForce) + [] == Audible(inputs, inForce);
  }

  /** The inputs said, as the transfers for the device. */
  lemma {:induction false} InputsAreSent(
    turns: seq<Turn<Recovery.Input>>, inAddress: byte, outAddress: byte,
    fields: DeviceFields, descriptions: seq<Description>, strings: seq<Bytes>, selection: Option<byte>, k: nat)
    requires Chooses(descriptions, k, selection)
    requires CanInputAll(descriptions[k].settings, inAddress, outAddress, turns)
    ensures var transfers :=
              InputTransfers(Enumerate(fields, descriptions, strings, selection), turns, inAddress, outAddress);
            && AllWritable(transfers) && Stands(CallsOf(transfers), fields, descriptions, k, selection)
            && InputsFor(CallsOf(transfers), descriptions[k])
               == Audible(Said(turns), Settles(descriptions, k, selection))
    decreases |turns|
  {
    hide Enumerate;
    hide Stands;
    hide Settles;
    hide Described;
    hide AllPrintable;
    hide Plain;
    hide CallsOf;
    hide InputsFor;
    hide Writable;
    hide CanInput;
    hide IsAudible;
    hide InputTransfer;
    hide TL.Transfer.Expected;
    hide DeviceFields.Encoded;
    var enumeration, d := Enumerate(fields, descriptions, strings, selection), fields.Encoded();
    FirstStands(fields, descriptions, strings, selection, k);
    if turns == [] {
      NothingInput(CallsOf(enumeration), d, descriptions[k]);
    } else {
      hide Audible;
      var init, last := turns[..|turns| - 1], turns[|turns| - 1];
      InputsAreSent(init, inAddress, outAddress, fields, descriptions, strings, selection, k);
      var transfers := InputTransfers(enumeration, init, inAddress, outAddress);
      var calls := CallsOf(transfers);
      if last.Again? {
        AgainStands(calls, fields, descriptions, strings, selection, k);
        PlainInputs(calls, CallsOf(enumeration), d, descriptions[k]);
        CallsConcat(transfers, enumeration);
        WritableConcat(transfers, enumeration);
      } else {
        InputIsSaid(calls, last.said, inAddress, outAddress, fields, descriptions, k, selection);
        CallsMore(transfers, InputTransfer(last.said, inAddress, outAddress));
        AudibleMore(Said(init), last.said, Settles(descriptions, k, selection));
      }
    }
  }

  /** Any Apple device in recovery mode, and anything sent to it and back: from the capture of its enumerations and of
      that, the uploads are the bulk OUT data, cut at the announcements. With several configurations and none of them
      selected, no bulk transfer is heard. */
  lemma RestoreIsHeard(
    format: F.Format, container: Container, place: F.Place,
    fields: DeviceFields, descriptions: seq<Description>, strings: seq<Bytes>, selection: Option<byte>, k: nat,
    inAddress: byte, outAddress: byte, turns: seq<Turn<Recovery.Input>>)
    requires Chooses(descriptions, k, selection) && fields.Identity().IsAppleRecovery()
    requires CanInputAll(descriptions[k].settings, inAddress, outAddress, turns)
    ensures var script := InTurn(place, InputTransfers(Enumerate(fields, descriptions, strings, selection), turns,
                                                       inAddress, outAddress));
            && Storable(format, script)
            && var handed := Handed(FinalSession(format, script, container, place).deliveries,
                                    Configuration.Expert(Configuration.Recovery, descriptions[k].value, 0, 0));
               Recovery.Uploads(Recovery.Run(RecoveryInputs(handed)).payloads)
               == Recovery.Files(Cutting.Cut(Cutting.PartsOf(
                    Recovery.Part, Audible(Said(turns), Settles(descriptions, k, selection)))))
  {
    hide FinalSession;
    hide InTurn;
    hide Enumerate;
    hide InputTransfers;
    hide Said;
    hide Audible;
    hide Stands;
    hide Settles;
    hide Describes;
    hide Described;
    hide AllPrintable;
    hide DeviceFields.Encoded;
    hide CanInputAll;
    hide InputsFor;
    hide RecoveryInputs;
    hide Recovery.Run;
    hide Recovery.Uploads;
    hide Cutting.Cut;
    hide Cutting.PartsOf;
    hide Handed;
    hide Storable;
    hide CallsOf;
    hide Performs;
    hide AllWritable;
    var transfers :=
      InputTransfers(Enumerate(fields, descriptions, strings, selection), turns, inAddress, outAddress);
    InputsAreSent(turns, inAddress, outAddress, fields, descriptions, strings, selection, k);
    StandsDescribes(CallsOf(transfers), fields, descriptions, k, selection);
    ConversationPerforms(format, place, transfers);
    ScriptToUploads(format, InTurn(place, transfers), container, place, [], CallsOf(transfers), fields,
                    descriptions[k]);
  }
}
