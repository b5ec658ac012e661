/** A device that is enumerated: its descriptors printed and read, configurations selected or not, and at any time each
    endpoint and each request belongs to the decoder that the descriptors call for. */
module Enumeration {
  import opened Wire
  import opened Configuration
  import opened ConfigurationLaws
  import D = Device
  import DL = DeviceLaws
  import opened Transfers
  import opened TransferLaws
  import opened SessionLaws
  import opened SessionRuns
  import opened AttachmentLaws
  import opened Deliveries

  // ---- Descriptors printed (section 9.6.1 of the USB 2.0 specification) ----

  datatype DeviceFields = DeviceFields(
    usb: uint16, deviceClass: byte, subclass: byte, protocol: byte, maxPacketSize: byte, vendor: uint16,
    product: uint16, release: uint16, manufacturer: byte, productName: byte, serial: byte, configurations: byte)
  {
    function Identity(): Configuration.Identity { Configuration.Identity(vendor, product) }

    function Encoded(): D.Descriptor {
      [18, 1] + PutLe16(usb) + [deviceClass, subclass, protocol, maxPacketSize]
      + PutLe16(vendor) + PutLe16(product) + PutLe16(release) + [manufacturer, productName, serial, configurations]
    }
  }

  lemma DeviceIsIdentified(f: DeviceFields)
    ensures f.Encoded()[1] == 1 && D.IdentityOf(Some(f.Encoded())) == f.Identity()
  {
    var d := f.Encoded();
    Le16OfPut(f.vendor);
    Le16OfPut(f.product);
    assert d[8..][..2] == PutLe16(f.vendor) && d[10..][..2] == PutLe16(f.product);
    Le16Prefix(d[8..]);
    Le16Prefix(d[10..]);
    hide Le16;
  }

  /** A configuration as a device describes it. */
  datatype Description = Description(
    value: byte, numInterfaces: byte, text: byte, attributes: byte, maxPower: byte, settings: seq<Setting>)
  {
    function Header(): ConfigurationLaws.Header {
      ConfigurationLaws.Header(value, numInterfaces, text, attributes, maxPower)
    }

    predicate CanPrint() {
      && settings != [] && ConfigurationLaws.CanPrint(settings)
      && 9 + |Flat(SettingList(settings))| < 0x1_0000
    }

    function Encoded(): Bytes
      requires CanPrint()
    {
      ConfigDescriptor(Header(), settings)
    }

    function Parsed(): Config
      requires CanPrint()
    {
      Parse(NO_CONFIG, Encoded()).config
    }

    /** The transfer size its DFU functional descriptors announce. */
    function TransferSize(): uint16 {
      var functional := AllFunctional(settings);
      if functional == [] then 0 else Le16(Overlay([0, 0, 0, 0, 0, 0, 0], functional)[5..])
    }
  }

  lemma DescriptionIsRead(description: Description)
    requires description.CanPrint()
    ensures var config := description.Parsed();
            && config.value == description.value
            && config.interfaces == WholeInterfaces(description.settings)
            && config.TransferSize() == description.TransferSize()
            && Bare(config)
  {
    PrintedIsParsed(description.Header(), description.settings);
    ParsedIsBare(NO_CONFIG, description.Encoded());
    hide ConfigDescriptor;
    hide Parse;
    hide Overlay;
    hide AllFunctional;
  }

  lemma DescriptionIsWhole(description: Description)
    requires description.CanPrint()
    ensures var data := description.Encoded(); WholeSet(data) && Le16(data[2..]) == |data| && data[..|data|] == data
  {
    var body := Flat(SettingList(description.settings));
    hide SettingList;
    var total: uint16 := 9 + |body|;
    var data := description.Encoded();
    assert data[2..][..2] == PutLe16(total);
    Le16Prefix(data[2..]);
    Le16OfPut(total);
    hide Le16;
    SomethingDescribed(description);
  }

  lemma SomethingDescribed(description: Description)
    requires description.CanPrint()
    ensures |Flat(SettingList(description.settings))| > 0
  {
    var first := InterfaceBytes(description.settings[0]);
    assert |first| > 0;
    hide InterfaceBytes;
    var rest := description.settings[0].extra
                + (EndpointList(description.settings[0].endpoints) + SettingList(description.settings[1..]));
    FlatAppend([first], rest);
    FlatOfLast([], first);
    assert [] + [first] == [first];
  }

  lemma {:induction false} SettingIs(settings: seq<Setting>, k: nat)
    requires k < |settings|
    ensures |WholeInterfaces(settings)| == |settings| && WholeInterfaces(settings)[k] == settings[k].Whole()
  {
    WholeInterfacesLength(settings);
    if k == 0 {
    } else {
      SettingIs(settings[1..], k - 1);
    }
  }

  lemma {:induction false} WholeInterfacesLength(settings: seq<Setting>)
    ensures |WholeInterfaces(settings)| == |settings|
  {
    if settings == [] {
    } else {
      WholeInterfacesLength(settings[1..]);
    }
  }

  // ---- What calls tell of a device ----

  /** A read of a device descriptor is of this one. */
  predicate SameDevice(call: D.Call, d: D.Descriptor) {
    Reads(call) ==> Identified(call) == d
  }

  /** A SET_CONFIGURATION request. */
  predicate Selects(call: D.Call) {
    && call.ControlOut? && call.endpoint in {0, 0x80} && call.setup.requestType in {0, 0x80} && call.setup.request == 9
  }

  function Selection(call: D.Call): byte
    requires Selects(call)
  {
    call.setup.value % 0x100
  }

  /** Calls that are all of one device. */
  predicate OfDevice(calls: seq<D.Call>, d: D.Descriptor) {
    forall i | 0 <= i < |calls| :: Directed(calls[i]) && SameDevice(calls[i], d)
  }

  /** The configuration selected last; none is zero. */
  function LastSelection(calls: seq<D.Call>): byte
    decreases |calls|
  {
    if calls == [] then 0
    else if Selects(calls[|calls| - 1]) then Selection(calls[|calls| - 1])
    else LastSelection(calls[..|calls| - 1])
  }

  /** A complete set of the configuration has been read. */
  predicate IsRead(calls: seq<D.Call>, value: byte) {
    FirstRead(calls, value).Some?
  }

  /** The configuration has been read, and was selected last, or none is selected and no other was read. */
  predicate Prevails(calls: seq<D.Call>, value: byte) {
    && IsRead(calls, value)
    && (|| LastSelection(calls) == value
        || (LastSelection(calls) == 0 && forall v: byte | IsRead(calls, v) :: v == value))
  }

  /** The configuration has been read, and was selected last, or the one selected last was not read and nor was any
      lower one. */
  predicate Answers(calls: seq<D.Call>, value: byte) {
    && IsRead(calls, value)
    && (|| LastSelection(calls) == value
        || (!IsRead(calls, LastSelection(calls)) && forall v: byte | IsRead(calls, v) :: value <= v))
  }

  /** The calls are of the device. Of the configuration they read this description first, and that after the device
      descriptor, which may have been read in portions. There may be anything else before, in between and after. */
  predicate Describes(calls: seq<D.Call>, d: D.Descriptor, description: Description) {
    && description.CanPrint() && OfDevice(calls, d)
    && match FirstRead(calls, description.value)
       case None => true
       case Some(b) => description.Encoded() <= calls[b].data && FirstTaken(calls[..b]).Some?
  }

  lemma OfDeviceBefore(calls: seq<D.Call>, d: D.Descriptor)
    requires calls != [] && OfDevice(calls, d)
    ensures OfDevice(calls[..|calls| - 1], d)
    ensures Directed(calls[|calls| - 1]) && SameDevice(calls[|calls| - 1], d)
  {
    hide Directed;
    hide SameDevice;
    assert forall i | 0 <= i < |calls| - 1 :: calls[..|calls| - 1][i] == calls[i];
  }

  /** Calls of one device start no other session. */
  lemma {:induction false} OfDeviceStays(s: D.State, calls: seq<D.Call>, d: D.Descriptor)
    requires s.descriptor in {None, Some(d)} && OfDevice(calls, d)
    ensures Stays(s, calls) && ApplyAll(s, calls).descriptor in {None, Some(d)}
    ensures s.descriptor.Some? ==> ApplyAll(s, calls).descriptor == Some(d)
    decreases |calls|
  {
    hide D.Apply;
    hide OfDevice;
    hide Reenumerates;
    hide Stays;
    if calls == [] {
      StaysWithout(s);
    } else {
      var init, last := calls[..|calls| - 1], calls[|calls| - 1];
      OfDeviceBefore(calls, d);
      OfDeviceStays(s, init, d);
      assert init + [last] == calls;
      StaysMore(s, init, last);
      ReenumeratesTells(ApplyAll(s, init), last);
      DescriptorAfter(ApplyAll(s, init), last);
    }
  }

  lemma StaysWithout(s: D.State)
    ensures Stays(s, [])
  {
  }

  lemma {:induction false} CurrentIsLast(calls: seq<D.Call>)
    ensures ApplyAll(D.NEW, calls).current == LastSelection(calls)
    decreases |calls|
  {
    hide D.Apply;
    hide Selects;
    hide Selection;
    if calls == [] {
    } else {
      CurrentIsLast(calls[..|calls| - 1]);
      SelectionStep(ApplyAll(D.NEW, calls[..|calls| - 1]), calls[|calls| - 1]);
    }
  }

  lemma SelectionStep(s: D.State, call: D.Call)
    ensures var after := D.Apply(s, call); after.current == if Selects(call) then Selection(call) else s.current
  {
    hide D.ExpertForControl;
    hide D.ExpertForEndpoint;
    hide Parse;
    hide Attach;
    hide D.Setup.Standard;
    hide D.Setup.Recipient;
    if call.ControlIn? || call.ControlOut? { StandardTypes(call.setup); }
  }

  lemma ToldIs(calls: seq<D.Call>, d: D.Descriptor, n: nat)
    requires OfDevice(calls, d) && n <= |calls| && FirstTaken(calls[..n]).Some?
    ensures ToldDevice(calls[..n]) == ToldDevice(calls) == Some(d)
  {
    hide Directed;
    hide Identified;
    hide Reads;
    hide Accepted;
    FirstTakenStays(calls, n);
  }

  lemma DescribesBefore(calls: seq<D.Call>, d: D.Descriptor, description: Description)
    requires calls != [] && Describes(calls, d, description)
    ensures Describes(calls[..|calls| - 1], d, description)
  {
    hide OfDevice;
    hide FirstTaken;
    hide Description.CanPrint;
    hide Description.Encoded;
    var init, b := calls[..|calls| - 1], FirstRead(calls[..|calls| - 1], description.value);
    OfDeviceBefore(calls, d);
    if b.Some? { assert init[..b.value] == calls[..b.value] && init[b.value] == calls[b.value]; }
  }

  /** The device is known, and what is read of a configuration first is stored, with the decoders due on the device. */
  lemma DescribedIsStored(calls: seq<D.Call>, d: D.Descriptor, description: Description)
    requires Describes(calls, d, description) && IsRead(calls, description.value)
    ensures description.CanPrint()
    ensures var s, config := ApplyAll(D.NEW, calls), Attach(D.IdentityOf(Some(d)), description.Parsed());
            && s.descriptor == Some(d) && config.value == description.value
            && config.value in s.configurations && s.configurations[config.value] == config
  {
    hide D.Apply;
    hide ApplyAll;
    hide D.IdentityOf;
    hide Directed;
    hide Takes;
    hide SameDevice;
    hide Identified;
    hide Stays;
    hide ReadsSet;
    hide SetOf;
    hide Attach;
    hide Parse;
    hide Description.CanPrint;
    hide Description.Encoded;
    OfDeviceStays(D.NEW, calls, d);
    DescriptorIsFirst(calls);
    StoreIsFirst(calls, description.value);
    DescriptionIsRead(description);
    var b := FirstRead(calls, description.value).value;
    ToldIs(calls, d, b);
    SetIsDescription(calls[b], description);
    AttachIsOf(D.IdentityOf(Some(d)), description.Parsed());
  }

  // ---- The configuration in use ----

  /** Every decoder of the configuration is its own. */
  predicate Owns(config: Config, value: byte) {
    && config.value == value
    && forall k | 0 <= k < |config.interfaces| && config.interfaces[k].expert.Some? ::
         config.interfaces[k].expert.value.configuration == value
  }

  lemma NumberOwns(id: Identity, config: Config, number: byte)
    ensures var expert := NumberExpert(id, config, number, 0);
            expert.Some? ==> expert.value.configuration == config.value && expert.value.interfaceNumber == number
  {
    NumberExpertExists(id, config, number, 0);
    hide NumberExpert;
  }

  lemma AttachOwns(id: Identity, config: Config)
    ensures Owns(Attach(id, config), config.value)
  {
    forall k | 0 <= k < |config.interfaces|
      ensures AttachedTo(id, config, k).Some? ==> AttachedTo(id, config, k).value.configuration == config.value
    {
      NumberOwns(id, config, config.interfaces[k].number);
      hide NumberExpert;
    }
    hide AttachedTo;
  }

  /** Exactly the configurations read are stored, each under its own value. */
  lemma StoredAreRead(calls: seq<D.Call>, value: byte)
    requires Stays(D.NEW, calls) && forall i | 0 <= i < |calls| :: Directed(calls[i])
    ensures var configurations := ApplyAll(D.NEW, calls).configurations;
            && (value in configurations <==> IsRead(calls, value))
            && (value in configurations ==> Owns(configurations[value], value))
  {
    hide ApplyAll;
    hide Stays;
    hide Directed;
    hide SetOf;
    hide ReadsSet;
    hide Attach;
    hide Owns;
    StoreIsFirst(calls, value);
    if IsRead(calls, value) {
      var b := FirstRead(calls, value).value;
      AttachOwns(D.IdentityOf(ToldDevice(calls[..b])), SetOf(calls[b]));
    }
    hide ToldDevice;
  }

  /** Each stored configuration is one that was read, under its own value. */
  predicate StoreIsTold(s: D.State, calls: seq<D.Call>) {
    && s.current == LastSelection(calls)
    && (forall v: byte :: v in s.configurations <==> IsRead(calls, v))
    && forall v: byte | v in s.configurations :: Owns(s.configurations[v], v)
  }

  lemma SessionIsTold(calls: seq<D.Call>, d: D.Descriptor)
    requires OfDevice(calls, d)
    ensures StoreIsTold(ApplyAll(D.NEW, calls), calls)
  {
    hide ApplyAll;
    hide SameDevice;
    hide Directed;
    hide Stays;
    hide Owns;
    hide IsRead;
    OfDeviceStays(D.NEW, calls, d);
    CurrentIsLast(calls);
    forall v: byte
      ensures var configurations := ApplyAll(D.NEW, calls).configurations;
              && (v in configurations <==> IsRead(calls, v))
              && (v in configurations ==> Owns(configurations[v], v))
    {
      StoredAreRead(calls, v);
    }
  }

  lemma {:induction false} LowestIs(configurations: map<byte, Config>, k: nat)
    requires k <= 0x100
    ensures match D.Lowest(configurations, k)
            case None => forall v: byte | v in configurations :: v < k
            case Some(w) => w in configurations && k <= w && forall v: byte | v in configurations && k <= v :: w <= v
    decreases 0x100 - k
  {
    if k == 0x100 {
    } else {
      LowestIs(configurations, k + 1);
    }
  }

  lemma OneStored(configurations: map<byte, Config>, w: byte)
    requires w in configurations
    ensures |configurations| == 1 <==> forall v: byte | v in configurations :: v == w
  {
    var others := configurations.Keys - {w};
    assert |configurations.Keys| == |others| + 1;
    if v: byte :| v in configurations && v != w { assert v in others; }
    if x :| x in others { assert x in configurations && x != w; }
  }

  /** The configuration that requests are decoded by. */
  function RequestConfiguration(s: D.State): Option<Config> {
    var active := D.ActiveConfiguration(s);
    if active.Some? then active else D.FirstConfiguration(s)
  }

  predicate IsStored(s: D.State, config: Option<Config>, value: byte) {
    value in s.configurations && config == Some(s.configurations[value])
  }

  lemma StoreTellsUse(s: D.State, calls: seq<D.Call>, value: byte)
    requires StoreIsTold(s, calls)
    ensures IsStored(s, D.ActiveConfiguration(s), value) <==> Prevails(calls, value)
    ensures IsStored(s, RequestConfiguration(s), value) <==> Answers(calls, value)
  {
    hide LastSelection;
    hide IsRead;
    LowestIs(s.configurations, 0);
    hide D.Lowest;
    if value in s.configurations { OneStored(s.configurations, value); }
    var first := D.Lowest(s.configurations, 0);
    if first.Some? { OneStored(s.configurations, first.value); }
  }

  /** Over any calls of one device, the active configuration is the one that prevails, and requests are decoded by the
      one that answers. */
  lemma UseIsTold(calls: seq<D.Call>, d: D.Descriptor, value: byte)
    requires OfDevice(calls, d)
    ensures var s := ApplyAll(D.NEW, calls);
            && (IsStored(s, D.ActiveConfiguration(s), value) <==> Prevails(calls, value))
            && (IsStored(s, RequestConfiguration(s), value) <==> Answers(calls, value))
  {
    hide ApplyAll;
    hide OfDevice;
    hide StoreIsTold;
    hide IsStored;
    hide Prevails;
    hide Answers;
    SessionIsTold(calls, d);
    StoreTellsUse(ApplyAll(D.NEW, calls), calls, value);
  }

  /** Requests, and bulk transfers, are those of a configuration that is stored. */
  lemma UseIsStored(s: D.State)
    ensures var active, answering := D.ActiveConfiguration(s), RequestConfiguration(s);
            && (active.Some? ==> exists v: byte :: IsStored(s, active, v))
            && (answering.Some? ==> exists v: byte :: IsStored(s, answering, v))
  {
    hide D.Lowest;
    if s.current in s.configurations { assert IsStored(s, Some(s.configurations[s.current]), s.current); }
    match D.Lowest(s.configurations, 0)
    case None =>
    case Some(k) => if k in s.configurations { assert IsStored(s, Some(s.configurations[k]), k); }
  }

  lemma {:induction false} NumberIsOwn(interfaces: seq<Interface>, number: byte, value: byte)
    requires forall k | 0 <= k < |interfaces| && interfaces[k].expert.Some? ::
               interfaces[k].expert.value.configuration == value
    ensures var expert := D.OfNumber(interfaces, number); expert.Some? ==> expert.value.configuration == value
    ensures var expert := D.AnyExpert(interfaces); expert.Some? ==> expert.value.configuration == value
  {
    if interfaces == [] {
    } else {
      assert forall k | 0 < k < |interfaces| :: interfaces[1..][k - 1] == interfaces[k];
      NumberIsOwn(interfaces[1..], number, value);
    }
  }

  /** The configuration that a call is decoded by. */
  function UsedFor(s: D.State, call: D.Call): Option<Config> {
    if Bulk(call) then D.ActiveConfiguration(s) else RequestConfiguration(s)
  }

  /** The decoder a call goes to belongs to the configuration in use. */
  lemma RouteIsOwn(s: D.State, call: D.Call, value: byte)
    requires forall v: byte | v in s.configurations :: Owns(s.configurations[v], v)
    ensures var route := Route(s, call);
            route.Some? && route.value.configuration == value ==> IsStored(s, UsedFor(s, call), value)
  {
    hide D.ActiveConfiguration;
    hide D.FirstConfiguration;
    hide D.RouteEndpoint;
    hide D.OfNumber;
    hide D.AnyExpert;
    UseIsStored(s);
    var used := UsedFor(s, call);
    if used.Some? {
      var v: byte :| IsStored(s, used, v);
      if Bulk(call) {
        var k := DL.RouteIsDeclared(used.value, s.alternates, Address(call));
      } else {
        NumberIsOwn(used.value.interfaces, call.setup.index % 0x100, v);
      }
    }
  }

  lemma {:induction false} FirstReadConcat(a: seq<D.Call>, b: seq<D.Call>, value: byte)
    ensures FirstRead(a + b, value)
         == match FirstRead(a, value)
            case Some(i) => Some(i)
            case None => match FirstRead(b, value) case Some(i) => Some(|a| + i) case None => None
    decreases |b|
  {
    hide ReadsSetOf;
    if b == [] {
      assert a + b == a;
    } else {
      assert (a + b)[..|a + b| - 1] == a + b[..|b| - 1];
      FirstReadConcat(a, b[..|b| - 1], value);
    }
  }

  lemma AttachIsOf(id: Identity, config: Config)
    ensures Attach(id, config).value == config.value
  {
  }

  lemma SetIsDescription(call: D.Call, description: Description)
    requires description.CanPrint() && ReadsSet(call) && description.Encoded() <= call.data
    ensures SetOf(call) == description.Parsed()
  {
    var data := description.Encoded();
    DescriptionIsWhole(description);
    hide Parse;
    hide Description.Encoded;
    assert call.data[..|data|] == data && call.data[2..][..2] == data[2..][..2];
    Le16Prefix(call.data[2..]);
    Le16Prefix(data[2..]);
    hide Le16;
  }

  // ---- A new device on an address ----

  /** The calls leave a session that knows another device. */
  ghost predicate LeavesOther(calls: seq<D.Call>, d: D.Descriptor) {
    && (forall i | 0 <= i < |calls| :: Directed(calls[i]))
    && var k := LastTaken(calls);
    && k >= 0 && Identified(calls[k]) != d && !DisturbedSince(calls, k, Identified(calls[k]))
  }

  /** The calls begin with a session of the device: the first on the address, or one that a read of the device's
      descriptor starts while another device is known. */
  ghost predicate Begins(before: seq<D.Call>, calls: seq<D.Call>, d: D.Descriptor) {
    before == [] || (LeavesOther(before, d) && calls != [] && Reads(calls[0]) && Identified(calls[0]) == d)
  }

  lemma StartsOver(before: seq<D.Call>, first: D.Call, d: D.Descriptor)
    requires Directed(first) && Reads(first) && Identified(first) == d && LeavesOther(before, d)
    ensures Current(DispatchAll(before + [first])) == D.Apply(D.NEW, first)
  {
    hide D.Apply;
    hide Reenumerates;
    hide Directed;
    hide Identified;
    hide DisturbedSince;
    hide LastTaken;
    DispatchMore(before, first);
    SessionsAreTold(before);
    ReenumeratesTells(Current(DispatchAll(before)), first);
    hide DispatchAll;
    hide Accepted;
  }

  /** The device has a session of its own, which all its calls go to. */
  lemma BeginsSession(before: seq<D.Call>, calls: seq<D.Call>, d: D.Descriptor)
    requires Begins(before, calls, d) && OfDevice(calls, d)
    ensures Current(DispatchAll(before + calls)) == ApplyAll(D.NEW, calls)
  {
    hide D.Apply;
    hide LeavesOther;
    hide OfDevice;
    hide Stays;
    hide Reenumerates;
    hide Takes;
    hide Identified;
    OfDeviceStays(D.NEW, calls, d);
    if before == [] {
      DispatchNone();
      CallsStayInSession([], calls);
    } else {
      hide DispatchAll;
      var first, rest := calls[0], calls[1..];
      assert calls == [first] + rest && before + calls == (before + [first]) + rest;
      FirstIsDirected(calls, d);
      StartsOver(before, first, d);
      ApplyMore(D.NEW, [], first);
      assert [] + [first] == [first];
      StaysConcat(D.NEW, [first], rest);
      ApplyConcat(D.NEW, [first], rest);
      CallsStayInSession(before + [first], rest);
    }
  }

  lemma FirstIsDirected(calls: seq<D.Call>, d: D.Descriptor)
    requires calls != [] && OfDevice(calls, d)
    ensures Directed(calls[0])
  {
    hide Directed;
    hide SameDevice;
  }

  // ---- Where the traffic of the device goes ----

  /** The interface has the endpoint in some setting. */
  predicate OnInterface(settings: seq<Setting>, number: byte, address: byte) {
    exists i :: 0 <= i < |settings| && settings[i].number == number && D.Declares(settings[i].Whole(), address)
  }

  /** No endpoint of the interface is one of another interface. */
  ghost predicate Exclusive(settings: seq<Setting>, number: byte) {
    forall address: byte, j | OnInterface(settings, number, address) && 0 <= j < |settings|
      && D.Declares(settings[j].Whole(), address) :: settings[j].number == number
  }

  lemma SettingHolds(settings: seq<Setting>, k: int, address: byte)
    ensures DL.Holds(WholeInterfaces(settings), k, address)
       <==> 0 <= k < |settings| && D.Declares(settings[k].Whole(), address)
    ensures 0 <= k < |settings| ==>
              |WholeInterfaces(settings)| == |settings| && WholeInterfaces(settings)[k] == settings[k].Whole()
  {
    WholeInterfacesLength(settings);
    if 0 <= k < |settings| { SettingIs(settings, k); }
    hide D.Declares;
  }

  function UsbMuxOf(value: byte, number: byte): Expert {
    Expert(UsbMux, value, number, 0)
  }

  /** Traffic goes to an interface's usbmux decoder exactly when it is on an endpoint of that interface. */
  lemma UsbMuxEndpoints(id: Identity, description: Description, number: byte, i: nat, alternates: map<byte, byte>,
                        address: byte)
    requires id.IsApple() && !id.IsAppleDfu() && !id.IsAppleRecovery() && description.CanPrint()
    requires StartsUsbMux(WholeInterfaces(description.settings), number, i) && Exclusive(description.settings, number)
    ensures D.RouteEndpoint(Attach(id, description.Parsed()), alternates, address)
              == Some(UsbMuxOf(description.value, number))
       <==> OnInterface(description.settings, number, address)
  {
    hide Attach;
    hide NumberExpert;
    hide StartsUsbMux;
    hide D.RouteEndpoint;
    hide D.Declares;
    hide Description.CanPrint;
    hide Description.Parsed;
    hide WholeInterfaces;
    DescriptionIsRead(description);
    var parsed, settings := description.Parsed(), description.settings;
    var expert, due := UsbMuxOf(description.value, number), OnInterface(settings, number, address);
    StartIsUsbMux(id, parsed, number, i);
    forall k | DL.Holds(parsed.interfaces, k, address)
      ensures (AttachedTo(id, parsed, k) == Some(expert)) == due
    {
      SettingHolds(settings, k, address);
      NumberOwns(id, parsed, settings[k].number);
    }
    if due {
      var k :| 0 <= k < |settings| && settings[k].number == number && D.Declares(settings[k].Whole(), address);
      SettingHolds(settings, k, address);
    }
    DL.DecidedIsRouted(id, parsed, alternates, address, expert, due);
  }

  predicate Declared(settings: seq<Setting>, address: byte) {
    exists i :: 0 <= i < |settings| && D.Declares(settings[i].Whole(), address)
  }

  /** The request is for the device, or for an interface that it has. */
  predicate Reaches(settings: seq<Setting>, setup: D.Setup) {
    setup.Recipient() == 1 ==> exists i :: 0 <= i < |settings| && settings[i].number == setup.index % 0x100
  }

  /** Where one decoder serves the whole device, it gets the traffic of every endpoint declared. */
  lemma DeviceEndpoints(id: Identity, description: Description, alternates: map<byte, byte>, address: byte)
    requires description.CanPrint() && DeviceExpert(id, description.Parsed()).Some?
    ensures D.RouteEndpoint(Attach(id, description.Parsed()), alternates, address)
         == if Declared(description.settings, address) then DeviceExpert(id, description.Parsed()) else None
  {
    hide D.RouteEndpoint;
    hide D.Declares;
    hide Description.CanPrint;
    hide Description.Parsed;
    hide WholeInterfaces;
    hide DeviceExpert;
    DescriptionIsRead(description);
    var parsed, settings := description.Parsed(), description.settings;
    var k := DL.RouteIsDeclared(Attach(id, parsed), alternates, address);
    if Declared(settings, address) {
      var j :| 0 <= j < |settings| && D.Declares(settings[j].Whole(), address);
      SettingHolds(settings, j, address);
      DL.AttachedDeclares(id, parsed, j, address);
    }
    DL.AttachedDeclares(id, parsed, k, address);
    SettingHolds(settings, k, address);
    if !Declared(settings, address) { NotDeclared(id, description, address); }
    hide Attach;
    hide NumberExpert;
  }

  lemma NotDeclared(id: Identity, description: Description, address: byte)
    requires description.CanPrint() && !Declared(description.settings, address)
    ensures forall k :: !DL.Holds(Attach(id, description.Parsed()).interfaces, k, address)
  {
    hide D.Declares;
    hide Description.CanPrint;
    hide Description.Parsed;
    hide WholeInterfaces;
    hide Attach;
    DescriptionIsRead(description);
    forall k
      ensures !DL.Holds(Attach(id, description.Parsed()).interfaces, k, address)
    {
      DL.AttachedDeclares(id, description.Parsed(), k, address);
      SettingHolds(description.settings, k, address);
    }
    hide DL.Holds;
  }

  lemma {:induction false} OfNumberAlike(interfaces: seq<Interface>, number: byte, expert: Expert)
    requires forall k | 0 <= k < |interfaces| :: interfaces[k].expert == Some(expert)
    ensures D.OfNumber(interfaces, number)
         == if exists k :: 0 <= k < |interfaces| && interfaces[k].number == number then Some(expert) else None
    ensures D.AnyExpert(interfaces) == if interfaces == [] then None else Some(expert)
  {
    if interfaces == [] {
    } else {
      OfNumberAlike(interfaces[1..], number, expert);
      assert forall k | 0 < k < |interfaces| :: interfaces[1..][k - 1] == interfaces[k];
    }
  }

  lemma AttachedAlike(id: Identity, description: Description)
    requires description.CanPrint() && DeviceExpert(id, description.Parsed()).Some?
    ensures var attached, settings := Attach(id, description.Parsed()).interfaces, description.settings;
            && |attached| == |settings|
            && forall k | 0 <= k < |attached| ::
                 attached[k].expert == DeviceExpert(id, description.Parsed())
                 && attached[k].number == settings[k].number
  {
    hide Description.Parsed;
    hide Description.CanPrint;
    hide WholeInterfaces;
    hide DeviceExpert;
    hide NumberExpert;
    DescriptionIsRead(description);
    var settings := description.settings;
    WholeInterfacesLength(settings);
    forall k | 0 <= k < |settings|
      ensures WholeInterfaces(settings)[k].number == settings[k].number
    {
      SettingHolds(settings, k, 0);
    }
  }

  /** Where one decoder serves the whole device, it gets every request for the device or one of its interfaces. */
  lemma DeviceRequests(s: D.State, id: Identity, description: Description, setup: D.Setup)
    requires description.CanPrint() && DeviceExpert(id, description.Parsed()).Some?
    requires RequestConfiguration(s) == Some(Attach(id, description.Parsed()))
    ensures D.ExpertForControl(s, setup)
         == if Reaches(description.settings, setup) then DeviceExpert(id, description.Parsed()) else None
  {
    hide Description.Parsed;
    hide DeviceExpert;
    hide Attach;
    hide D.OfNumber;
    hide D.AnyExpert;
    hide D.ActiveConfiguration;
    hide D.FirstConfiguration;
    AttachedAlike(id, description);
    var attached, number := Attach(id, description.Parsed()).interfaces, setup.index % 0x100;
    OfNumberAlike(attached, number, DeviceExpert(id, description.Parsed()).value);
  }
}
