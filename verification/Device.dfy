/** One enumeration of a USB device: what its control transfers tell about it, and which decoder its traffic goes to. */
module Device {
  import opened Wire
  import opened Configuration
  import Utf16

  const USB_DT_DEVICE: byte := 0x01
  const USB_DT_STRING: byte := 0x03
  const USB_DT_BOS: byte := 0x0F
  const USB_DT_DEVICE_SIZE: nat := 18
  const USB_DT_BOS_SIZE: nat := 5
  const USB_REQ_GET_DESCRIPTOR: byte := 0x06
  const USB_REQ_SET_CONFIGURATION: byte := 0x09
  const USB_REQ_SET_INTERFACE: byte := 0x0B

  datatype Setup = Setup(requestType: byte, request: byte, value: uint16, index: uint16, length: uint16) {
    predicate In() { requestType >= 0x80 }
    predicate Standard() { requestType / 0x20 % 4 == 0 }
    function Recipient(): nat { requestType % 0x20 }
  }

  /** A completed transfer, as it is handed to the device. */
  datatype Call =
    | ControlIn(endpoint: byte, setup: Setup, data: Bytes)
    | ControlOut(endpoint: byte, setup: Setup, data: Bytes)
    | BulkIn(endpoint: byte, data: Bytes)
    | BulkOut(endpoint: byte, data: Bytes)

  /** What a decoder is handed. */
  datatype Delivery =
    | DeliverControlIn(expert: Expert, setup: Setup, data: Bytes)
    | DeliverControlOut(expert: Expert, setup: Setup, data: Bytes)
    | DeliverBulkIn(expert: Expert, data: Bytes)
    | DeliverBulkOut(expert: Expert, data: Bytes)

  type Descriptor = d: Bytes | |d| == USB_DT_DEVICE_SIZE
    witness [0, 0, 0, 0, 0, 0, 0, 0, 0, 0, 0, 0, 0, 0, 0, 0, 0, 0]

  function IdentityOf(descriptor: Option<Descriptor>): Identity {
    match descriptor
    case None => Identity(0, 0)
    case Some(d) => Identity(Le16(d[8..]), Le16(d[10..]))
  }

  /** The value of a device. The deliveries stand for the calls made on the decoder objects. */
  datatype State = State(
    packets: nat, bytes: nat, controlPackets: nat, controlBytes: nat,
    descriptor: Option<Descriptor>,
    current: byte,
    configurations: map<byte, Config>,
    alternates: map<byte, byte>,
    strings: map<byte, Bytes>,
    bosDescriptors: seq<Bytes>,
    anomalies: nat,
    deliveries: seq<Delivery>)

  const NEW: State := State(0, 0, 0, 0, None, 0, map[], map[], map[], [], 0, [])

  // ---- Descriptors ----

  function ReadDescriptor(s: State, setup: Setup, data: Bytes): State {
    var kind, index := setup.value / 0x100, setup.value % 0x100;
    if |data| < 2 then s
    else if data[1] != kind then s.(anomalies := s.anomalies + 1)
    else if kind == USB_DT_DEVICE then
      if |data| < USB_DT_DEVICE_SIZE then s else s.(descriptor := Some(data[..USB_DT_DEVICE_SIZE]))
    else if kind == USB_DT_CONFIG then ReadConfiguration(s, data)
    else if kind == USB_DT_STRING then
      if index == 0 || data[0] < 2 || |data| < data[0] then s
      else s.(strings := s.strings[index := Utf16.Utf8All(Utf16.CodePoints(Utf16.Units(data[2..data[0]])))])
    else if kind == USB_DT_BOS then
      if WholeBos(data) then s.(bosDescriptors := s.bosDescriptors + [data[..Le16(data[2..])]]) else s
    else s
  }

  /** An object store that is all there; its header alone is one only when it announces no capabilities. */
  predicate WholeBos(data: Bytes) {
    && |data| >= USB_DT_BOS_SIZE && USB_DT_BOS_SIZE <= Le16(data[2..]) <= |data|
    && (Le16(data[2..]) == USB_DT_BOS_SIZE ==> data[4] == 0)
  }

  /** A full set is parsed and kept, with its decoders, unless its configuration is known already. */
  function ReadConfiguration(s: State, data: Bytes): State {
    if |data| < USB_DT_CONFIG_SIZE then s
    else
      var total := Le16(data[2..]);
      if |data| < total || total <= USB_DT_CONFIG_SIZE then s
      else
        var parsed := Parse(NO_CONFIG, data[..total]);
        var flagged := if parsed.ok then s else s.(anomalies := s.anomalies + 1);
        var value := parsed.config.value;
        if value in s.configurations then flagged
        else flagged.(configurations := s.configurations[value := Attach(IdentityOf(s.descriptor), parsed.config)])
  }

  // ---- Routing ----

  /** The lowest configuration value, from k on, that is stored. */
  function Lowest(configurations: map<byte, Config>, k: nat): Option<byte>
    requires k <= 0x100
    decreases 0x100 - k
  {
    if k == 0x100 then None
    else if k in configurations then Some(k) else Lowest(configurations, k + 1)
  }

  function ActiveConfiguration(s: State): Option<Config> {
    if s.current in s.configurations then Some(s.configurations[s.current])
    else if s.current == 0 && |s.configurations| == 1 then FirstConfiguration(s)
    else None
  }

  function FirstConfiguration(s: State): Option<Config> {
    match Lowest(s.configurations, 0)
    case None => None
    case Some(k) => if k in s.configurations then Some(s.configurations[k]) else None
  }

  predicate Declares(i: Interface, address: byte) {
    exists e <- i.endpoints :: e.address == address
  }

  predicate IsCurrent(alternates: map<byte, byte>, i: Interface) {
    i.alternate == if i.number in alternates then alternates[i.number] else 0
  }

  /** The decoder of the first setting in force that declares the endpoint. */
  function Chosen(interfaces: seq<Interface>, alternates: map<byte, byte>, address: byte): Option<Option<Expert>> {
    if interfaces == [] then None
    else if Declares(interfaces[0], address) && IsCurrent(alternates, interfaces[0]) then Some(interfaces[0].expert)
    else Chosen(interfaces[1..], alternates, address)
  }

  /** The first decoder among all settings that declare the endpoint. */
  function Fallback(interfaces: seq<Interface>, address: byte): Option<Expert> {
    if interfaces == [] then None
    else if Declares(interfaces[0], address) && interfaces[0].expert.Some? then interfaces[0].expert
    else Fallback(interfaces[1..], address)
  }

  function RouteEndpoint(config: Config, alternates: map<byte, byte>, address: byte): Option<Expert> {
    var chosen := Chosen(config.interfaces, alternates, address);
    if chosen.Some? then chosen.value else Fallback(config.interfaces, address)
  }

  function ExpertForEndpoint(s: State, address: byte): Option<Expert> {
    match ActiveConfiguration(s)
    case None => None
    case Some(config) => RouteEndpoint(config, s.alternates, address)
  }

  function OfNumber(interfaces: seq<Interface>, number: byte): Option<Expert> {
    if interfaces == [] then None
    else if interfaces[0].number == number then interfaces[0].expert
    else OfNumber(interfaces[1..], number)
  }

  function AnyExpert(interfaces: seq<Interface>): Option<Expert> {
    if interfaces == [] then None
    else if interfaces[0].expert.Some? then interfaces[0].expert
    else AnyExpert(interfaces[1..])
  }

  function ExpertForControl(s: State, setup: Setup): Option<Expert> {
    var active := ActiveConfiguration(s);
    match if active.Some? then active else FirstConfiguration(s)
    case None => None
    case Some(config) =>
      if setup.Recipient() == 1 then OfNumber(config.interfaces, setup.index % 0x100)
      else AnyExpert(config.interfaces)
  }

  function Deliver(s: State, delivery: Delivery): State {
    s.(deliveries := s.deliveries + [delivery])
  }

  /** What one completed transfer does to a device. */
  function Apply(s: State, call: Call): State {
    match call
    case BulkIn(endpoint, data) =>
      var address: byte := endpoint % 0x80 + 0x80;
      var counted := s.(packets := s.packets + 1, bytes := s.bytes + |data|);
      var expert := ExpertForEndpoint(s, address);
      if expert.Some? then Deliver(counted, DeliverBulkIn(expert.value, data)) else counted
    case BulkOut(endpoint, data) =>
      var counted := s.(packets := s.packets + 1, bytes := s.bytes + |data|);
      var expert := ExpertForEndpoint(s, endpoint % 0x80);
      if expert.Some? then Deliver(counted, DeliverBulkOut(expert.value, data)) else counted
    case ControlIn(endpoint, setup, data) => ApplyControlIn(s, endpoint, setup, data)
    case ControlOut(endpoint, setup, data) => ApplyControlOut(s, endpoint, setup, data)
  }

  function ApplyControlIn(s: State, endpoint: byte, setup: Setup, data: Bytes): State {
    var counted := s.(controlPackets := s.controlPackets + 1, controlBytes := s.controlBytes + |data|);
    if endpoint % 0x80 != 0 then counted
    else if setup.Standard() then
      if setup.request == USB_REQ_GET_DESCRIPTOR && setup.Recipient() == 0 then ReadDescriptor(counted, setup, data)
      else counted
    else
      var expert := ExpertForControl(s, setup);
      if expert.Some? then Deliver(counted, DeliverControlIn(expert.value, setup, data)) else counted
  }

  function ApplyControlOut(s: State, endpoint: byte, setup: Setup, data: Bytes): State {
    var counted := s.(controlPackets := s.controlPackets + 1, controlBytes := s.controlBytes + |data|);
    if endpoint % 0x80 != 0 then counted
    else if setup.Standard() then
      if setup.Recipient() == 0 && setup.request == USB_REQ_SET_CONFIGURATION then
        counted.(current := setup.value % 0x100, alternates := map[])
      else if setup.Recipient() == 1 && setup.request == USB_REQ_SET_INTERFACE then
        counted.(alternates := s.alternates[setup.index % 0x100 := setup.value % 0x100])
      else counted
    else
      var expert := ExpertForControl(s, setup);
      if expert.Some? then Deliver(counted, DeliverControlOut(expert.value, setup, data)) else counted
  }

  /** Where a control transfer goes does not depend on what was counted. */
  lemma CountsDoNotRoute(s: State, setup: Setup, packets: nat, bytes: nat)
    ensures ExpertForControl(s.(controlPackets := packets, controlBytes := bytes), setup) == ExpertForControl(s, setup)
  {
  }

  class Device {
    var packetCount: nat
    var byteCount: nat
    var controlPacketCount: nat
    var controlByteCount: nat
    var deviceDescriptor: Option<Descriptor>
    var currentConfiguration: byte
    var configurations: map<byte, Config>
    var alternates: map<byte, byte>
    var strings: map<byte, Bytes>
    var bosDescriptors: seq<Bytes>
    var anomalies: nat
    var deliveries: seq<Delivery>

    function Value(): State
      reads this
    {
      State(packetCount, byteCount, controlPacketCount, controlByteCount, deviceDescriptor, currentConfiguration,
            configurations, alternates, strings, bosDescriptors, anomalies, deliveries)
    }

    constructor ()
      ensures Value() == NEW
    {
      packetCount, byteCount, controlPacketCount, controlByteCount := 0, 0, 0, 0;
      deviceDescriptor, currentConfiguration, configurations := None, 0, map[];
      alternates, strings, bosDescriptors, anomalies, deliveries := map[], map[], [], 0, [];
    }

    method ProcessBulkPacketIn(endpoint: byte, data: Bytes)
      modifies this
      ensures Value() == Apply(old(Value()), BulkIn(endpoint, data))
    {
      packetCount, byteCount := packetCount + 1, byteCount + |data|;
      var expert := GetExpertForEndpoint(endpoint % 0x80 + 0x80);
      if expert.Some? { deliveries := deliveries + [DeliverBulkIn(expert.value, data)]; }
    }

    method ProcessBulkPacketOut(endpoint: byte, data: Bytes)
      modifies this
      ensures Value() == Apply(old(Value()), BulkOut(endpoint, data))
    {
      packetCount, byteCount := packetCount + 1, byteCount + |data|;
      var expert := GetExpertForEndpoint(endpoint % 0x80);
      if expert.Some? { deliveries := deliveries + [DeliverBulkOut(expert.value, data)]; }
    }

    method ProcessControlPacketIn(endpoint: byte, setup: Setup, data: Bytes)
      modifies this
      ensures Value() == Apply(old(Value()), ControlIn(endpoint, setup, data))
    {
      hide ReadDescriptor;
      hide ExpertForControl;
      hide ExpertForEndpoint;
      hide Setup.Standard;
      hide Setup.Recipient;
      CountsDoNotRoute(Value(), setup, controlPacketCount + 1, controlByteCount + |data|);
      controlPacketCount, controlByteCount := controlPacketCount + 1, controlByteCount + |data|;
      if endpoint % 0x80 != 0 { return; }
      if setup.Standard() {
        if setup.request == USB_REQ_GET_DESCRIPTOR && setup.Recipient() == 0 {
          ProcessDescriptor(setup, data);
        }
        return;
      }
      var expert := GetExpertForControl(setup);
      if expert.Some? { deliveries := deliveries + [DeliverControlIn(expert.value, setup, data)]; }
    }

    method ProcessControlPacketOut(endpoint: byte, setup: Setup, data: Bytes)
      modifies this
      ensures Value() == Apply(old(Value()), ControlOut(endpoint, setup, data))
    {
      hide ReadDescriptor;
      hide ExpertForControl;
      hide ExpertForEndpoint;
      hide Setup.Standard;
      hide Setup.Recipient;
      CountsDoNotRoute(Value(), setup, controlPacketCount + 1, controlByteCount + |data|);
      controlPacketCount, controlByteCount := controlPacketCount + 1, controlByteCount + |data|;
      if endpoint % 0x80 != 0 { return; }
      if setup.Standard() {
        if setup.Recipient() == 0 && setup.request == USB_REQ_SET_CONFIGURATION {
          currentConfiguration := setup.value % 0x100;
          alternates := map[];
        } else if setup.Recipient() == 1 && setup.request == USB_REQ_SET_INTERFACE {
          alternates := alternates[setup.index % 0x100 := setup.value % 0x100];
        }
        return;
      }
      var expert := GetExpertForControl(setup);
      if expert.Some? { deliveries := deliveries + [DeliverControlOut(expert.value, setup, data)]; }
    }

    method ProcessDescriptor(setup: Setup, data: Bytes)
      modifies this
      ensures Value() == ReadDescriptor(old(Value()), setup, data)
    {
      var kind, index := setup.value / 0x100, setup.value % 0x100;
      if |data| < 2 { return; }
      if data[1] != kind {
        anomalies := anomalies + 1;
        return;
      }
      if kind == USB_DT_DEVICE {
        if |data| >= USB_DT_DEVICE_SIZE { deviceDescriptor := Some(data[..USB_DT_DEVICE_SIZE]); }
      } else if kind == USB_DT_CONFIG {
        ProcessConfiguration(data);
      } else if kind == USB_DT_STRING {
        if index == 0 || data[0] < 2 || |data| < data[0] { return; }
        var text := Utf16.Utf16leToUtf8(data[2..data[0]]);
        strings := strings[index := text];
      } else if kind == USB_DT_BOS {
        if |data| < USB_DT_BOS_SIZE { return; }
        var total := Le16(data[2..]);
        if total < USB_DT_BOS_SIZE || |data| < total { return; }
        if total == USB_DT_BOS_SIZE && data[4] != 0 { return; }
        bosDescriptors := bosDescriptors + [data[..total]];
      }
    }

    method ProcessConfiguration(data: Bytes)
      modifies this
      ensures Value() == ReadConfiguration(old(Value()), data)
    {
      if |data| < USB_DT_CONFIG_SIZE { return; }
      // A header read on its own is not parsed
      var total := Le16(data[2..]);
      if |data| < total || total <= USB_DT_CONFIG_SIZE { return; }
      var config, ok := ParseConfiguration(data[..total]);
      ParsedIsBare(NO_CONFIG, data[..total]);
      if !ok { anomalies := anomalies + 1; }
      if config.value in configurations { return; }
      var attached := AttachExperts(IdentityOf(deviceDescriptor), config);
      configurations := configurations[config.value := attached];
    }

    method GetExpertForEndpoint(endpoint: byte) returns (expert: Option<Expert>)
      ensures expert == ExpertForEndpoint(Value(), endpoint)
    {
      var config := ActiveConfiguration(Value());
      if config == None { return None; }

      var fallback: Option<Expert> := None;
      var interfaces := config.value.interfaces;
      var i := 0;
      while i < |interfaces|
        invariant 0 <= i <= |interfaces|
        invariant Chosen(interfaces, alternates, endpoint) == Chosen(interfaces[i..], alternates, endpoint)
        invariant Fallback(interfaces, endpoint)
               == if fallback.Some? then fallback else Fallback(interfaces[i..], endpoint)
      {
        var current := interfaces[i];
        var e := 0;
        while e < |current.endpoints|
          invariant 0 <= e <= |current.endpoints|
          invariant (exists k :: 0 <= k < e && current.endpoints[k].address == endpoint) ==>
                      !IsCurrent(alternates, current) && (fallback.Some? || current.expert.None?)
          invariant Fallback(interfaces, endpoint)
                 == if fallback.Some? then fallback else Fallback(interfaces[i..], endpoint)
        {
          if current.endpoints[e].address == endpoint {
            assert Declares(interfaces[i..][0], endpoint);
            if IsCurrent(alternates, current) { return current.expert; }
            if fallback == None { fallback := current.expert; }
          }
          e := e + 1;
        }
        assert interfaces[i..][1..] == interfaces[i + 1..];
        i := i + 1;
      }
      return fallback;
    }

    method GetExpertForControl(setup: Setup) returns (expert: Option<Expert>)
      ensures expert == ExpertForControl(Value(), setup)
    {
      var config := ActiveConfiguration(Value());
      if config == None {
        // None selected: the lowest known one stands in
        config := FirstConfiguration(Value());
        if config == None { return None; }
      }

      var interfaces := config.value.interfaces;
      var i := 0;
      if setup.Recipient() == 1 {
        while i < |interfaces|
          invariant 0 <= i <= |interfaces|
          invariant OfNumber(interfaces, setup.index % 0x100) == OfNumber(interfaces[i..], setup.index % 0x100)
        {
          if interfaces[i].number == setup.index % 0x100 { return interfaces[i].expert; }
          assert interfaces[i..][1..] == interfaces[i + 1..];
          i := i + 1;
        }
        return None;
      }

      while i < |interfaces|
        invariant 0 <= i <= |interfaces|
        invariant AnyExpert(interfaces) == AnyExpert(interfaces[i..])
      {
        if interfaces[i].expert.Some? { return interfaces[i].expert; }
        assert interfaces[i..][1..] == interfaces[i + 1..];
        i := i + 1;
      }
      return None;
    }
  }
}
