/** Configuration descriptor sets: the parser, and which protocol decoder each interface is given. */
module Configuration {
  import opened Wire

  const USB_DT_CONFIG: byte := 0x02
  const USB_DT_INTERFACE: byte := 0x04
  const USB_DT_ENDPOINT: byte := 0x05
  const USB_DT_DFU_FUNCTIONAL: byte := 0x21
  const USB_DT_CONFIG_SIZE: nat := 9
  const USB_DT_INTERFACE_SIZE: nat := 9
  const USB_DT_ENDPOINT_SIZE: nat := 7

  const APPLE_VID: uint16 := 0x05AC
  const USB_CLASS_APPLICATION_SPECIFIC: byte := 0xFF
  const USB_CLASS_DFU: byte := 0xFE
  const USB_SUBCLASS_DFU: byte := 0x01
  const APPLE_SUBCLASS_USBMUX: byte := 0xFE
  const APPLE_PROTOCOL_USBMUX2: byte := 0x02

  // ---- Protocol decoders ----

  datatype Kind = Dfu | Recovery | UsbMux

  /** A decoder. A configuration value is attached once in a session, and one interface of it gets at most one
      decoder, so these fields name one object. */
  datatype Expert = Expert(kind: Kind, configuration: byte, interfaceNumber: byte, transferSize: uint16)

  // ---- Descriptors ----

  datatype Endpoint = Endpoint(address: byte, attributes: byte, maxPacketSize: uint16, interval: byte)

  /** One alternate setting of an interface. */
  datatype Interface = Interface(
    number: byte, alternate: byte, interfaceClass: byte, subclass: byte, protocol: byte,
    endpoints: seq<Endpoint>, expert: Option<Expert>)
  {
    predicate IsDfu() { interfaceClass == USB_CLASS_DFU && subclass == USB_SUBCLASS_DFU }

    predicate IsUsbMux() {
      && interfaceClass == USB_CLASS_APPLICATION_SPECIFIC && subclass == APPLE_SUBCLASS_USBMUX
      && protocol == APPLE_PROTOCOL_USBMUX2
    }
  }

  /** The seven bytes kept of a DFU functional descriptor. */
  type DfuBytes = b: Bytes | |b| == 7 witness [0, 0, 0, 0, 0, 0, 0]

  datatype Config = Config(
    totalLength: uint16, numInterfaces: byte, value: byte, attributes: byte, maxPower: byte,
    dfu: DfuBytes, hasDfu: bool, interfaces: seq<Interface>)
  {
    function TransferSize(): uint16 { if hasDfu then Le16(dfu[5..]) else 0 }
  }

  const NO_CONFIG: Config := Config(0, 0, 0, 0, 0, [0, 0, 0, 0, 0, 0, 0], false, [])

  /** What one well-delimited descriptor adds; none when it is too short for its type. */
  function Add(config: Config, raw: Bytes): Option<Config>
    requires |raw| >= 2
  {
    var last := |config.interfaces| - 1;
    if raw[1] == USB_DT_CONFIG then
      if |raw| < USB_DT_CONFIG_SIZE then None
      else Some(config.(totalLength := Le16(raw[2..]), numInterfaces := raw[4], value := raw[5],
                        attributes := raw[7], maxPower := raw[8]))
    else if raw[1] == USB_DT_INTERFACE then
      if |raw| < USB_DT_INTERFACE_SIZE then None
      else Some(config.(interfaces :=
                  config.interfaces + [Interface(raw[2], raw[3], raw[5], raw[6], raw[7], [], None)]))
    else if raw[1] == USB_DT_ENDPOINT then
      if |raw| < USB_DT_ENDPOINT_SIZE then None
      else if last < 0 then Some(config)
      else
        var endpoint := Endpoint(raw[2], raw[3], Le16(raw[4..]), raw[6]);
        var current := config.interfaces[last];
        Some(config.(interfaces := config.interfaces[last := current.(endpoints := current.endpoints + [endpoint])]))
    else if raw[1] == USB_DT_DFU_FUNCTIONAL && last >= 0 && config.interfaces[last].IsDfu() then
      var kept := Min(|raw|, 7);
      Some(config.(dfu := raw[..kept] + config.dfu[kept..], hasDfu := true))
    else Some(config)
  }

  /** The first descriptor of a set, when it is delimited properly. */
  predicate Delimited(data: Bytes) {
    |data| >= 2 && 2 <= data[0] <= |data|
  }

  datatype Parsed = Parsed(config: Config, ok: bool)

  /** The functional counterpart of the descriptor walk. */
  function Parse(config: Config, data: Bytes): Parsed
    decreases |data|
  {
    if data == [] then Parsed(config, true)
    else if !Delimited(data) then Parsed(config, false)
    else
      match Add(config, data[..data[0]])
      case None => Parsed(config, false)
      case Some(next) => Parse(next, data[data[0]..])
  }

  method ParseConfiguration(data: Bytes) returns (config: Config, ok: bool)
    ensures Parsed(config, ok) == Parse(NO_CONFIG, data)
  {
    config := NO_CONFIG;
    var offset := 0;
    while offset < |data|
      invariant 0 <= offset <= |data|
      invariant Parse(NO_CONFIG, data) == Parse(config, data[offset..])
      decreases |data| - offset
    {
      var remaining := |data| - offset;
      if remaining < 2 || data[offset] < 2 || data[offset] > remaining {
        return config, false;
      }
      var raw := data[offset..offset + data[offset]];
      assert raw == data[offset..][..data[offset]];
      assert data[offset..][data[offset]..] == data[offset + data[offset]..];
      var next := Add(config, raw);
      if next == None { return config, false; }
      config := next.value;
      offset := offset + data[offset];
    }
    return config, true;
  }

  /** No interface has a decoder yet. */
  predicate Bare(config: Config) {
    forall k | 0 <= k < |config.interfaces| :: config.interfaces[k].expert == None
  }

  lemma {:induction false} ParsedIsBare(config: Config, data: Bytes)
    requires Bare(config)
    ensures Bare(Parse(config, data).config)
    decreases |data|
  {
    if data == [] || !Delimited(data) {
    } else {
      var next := Add(config, data[..data[0]]);
      if next.Some? {
        assert Bare(next.value);
        ParsedIsBare(next.value, data[data[0]..]);
      }
    }
  }

  // ---- Attaching decoders ----

  /** The identification an attachment is based on; all zero before a device descriptor was read. */
  datatype Identity = Identity(vendor: uint16, product: uint16) {
    predicate IsApple() { vendor == APPLE_VID }
    predicate IsAppleDfu() { IsApple() && (product == 0x1227 || product == 0x1222) }
    predicate IsAppleRecovery() { IsApple() && 0x1280 <= product <= 0x1283 }
  }

  /** The decoder of a whole device, in the modes in which all interfaces have the same one. */
  function DeviceExpert(id: Identity, config: Config): Option<Expert> {
    if id.IsAppleDfu() then Some(Expert(Dfu, config.value, 0, config.TransferSize()))
    else if id.IsAppleRecovery() then Some(Expert(Recovery, config.value, 0, 0))
    else None
  }

  /** The decoder an alternate setting calls for by itself. */
  function OwnExpert(id: Identity, config: Config, i: nat): Option<Expert>
    requires i < |config.interfaces|
  {
    var s := config.interfaces[i];
    if id.IsApple() && s.IsUsbMux() then Some(Expert(UsbMux, config.value, s.number, 0))
    else if s.IsDfu() then Some(Expert(Dfu, config.value, s.number, config.TransferSize()))
    else None
  }

  /** The decoder of an interface number: that of its first alternate setting, from i on, that calls for one. */
  function NumberExpert(id: Identity, config: Config, number: byte, i: nat): Option<Expert>
    requires i <= |config.interfaces|
    decreases |config.interfaces| - i
  {
    if i == |config.interfaces| then None
    else if config.interfaces[i].number == number && OwnExpert(id, config, i).Some? then OwnExpert(id, config, i)
    else NumberExpert(id, config, number, i + 1)
  }

  function AttachedTo(id: Identity, config: Config, i: nat): Option<Expert>
    requires i < |config.interfaces|
  {
    var whole := DeviceExpert(id, config);
    if whole.Some? then whole else NumberExpert(id, config, config.interfaces[i].number, 0)
  }

  function Attach(id: Identity, config: Config): (r: Config)
    ensures |r.interfaces| == |config.interfaces|
  {
    config.(interfaces := seq(|config.interfaces|,
      i requires 0 <= i < |config.interfaces| => config.interfaces[i].(expert := AttachedTo(id, config, i))))
  }

  /** What the inner maps and fields hold once the first n settings have been looked at. */
  ghost predicate AttachedSoFar(
    id: Identity, config: Config, n: nat, byInterface: map<byte, Expert>, interfaces: seq<Interface>)
    requires n <= |config.interfaces|
  {
    && |interfaces| == |config.interfaces|
    && (forall number: byte :: number in byInterface <==>
          exists j :: 0 <= j < n && config.interfaces[j].number == number && OwnExpert(id, config, j).Some?)
    && (forall number <- byInterface :: Some(byInterface[number]) == NumberExpert(id, config, number, 0))
    && (forall k | 0 <= k < |interfaces| ::
          var s := config.interfaces[k];
          interfaces[k] == s.(expert := if s.number in byInterface then Some(byInterface[s.number]) else None))
  }

  lemma {:induction false} FirstQualifying(id: Identity, config: Config, number: byte, i: nat, first: nat)
    requires i <= first < |config.interfaces| && config.interfaces[first].number == number
    requires OwnExpert(id, config, first).Some?
    requires forall j | i <= j < first && config.interfaces[j].number == number :: OwnExpert(id, config, j).None?
    ensures NumberExpert(id, config, number, i) == OwnExpert(id, config, first)
    decreases first - i
  {
    hide OwnExpert;
    if i == first {
    } else {
      FirstQualifying(id, config, number, i + 1, first);
    }
  }

  lemma {:induction false} NoneQualifying(id: Identity, config: Config, number: byte, i: nat)
    requires i <= |config.interfaces|
    requires forall j | i <= j < |config.interfaces| && config.interfaces[j].number == number ::
        OwnExpert(id, config, j).None?
    ensures NumberExpert(id, config, number, i) == None
    decreases |config.interfaces| - i
  {
    hide OwnExpert;
    if i == |config.interfaces| {
    } else {
      NoneQualifying(id, config, number, i + 1);
    }
  }

  lemma NothingAttached(id: Identity, config: Config)
    requires Bare(config)
    ensures AttachedSoFar(id, config, 0, map[], config.interfaces)
  {
  }

  /** A setting joins the decoder its interface has already. */
  lemma JoinsShared(id: Identity, config: Config, i: nat, byInterface: map<byte, Expert>, interfaces: seq<Interface>)
    requires i < |config.interfaces| && AttachedSoFar(id, config, i, byInterface, interfaces)
    requires interfaces[i].number in byInterface
    ensures interfaces[i := interfaces[i].(expert := Some(byInterface[interfaces[i].number]))] == interfaces
    ensures AttachedSoFar(id, config, i + 1, byInterface, interfaces)
  {
    hide OwnExpert;
    hide NumberExpert;
  }

  lemma QualifiesNot(id: Identity, config: Config, i: nat, byInterface: map<byte, Expert>, interfaces: seq<Interface>)
    requires i < |config.interfaces| && AttachedSoFar(id, config, i, byInterface, interfaces)
    requires OwnExpert(id, config, i).None?
    ensures AttachedSoFar(id, config, i + 1, byInterface, interfaces)
  {
    hide OwnExpert;
    hide NumberExpert;
  }

  /** The first setting of an interface that qualifies brings a decoder for all of them. */
  lemma SharesFirst(id: Identity, config: Config, i: nat, byInterface: map<byte, Expert>, was: seq<Interface>,
                    interfaces: seq<Interface>)
    requires i < |config.interfaces| && AttachedSoFar(id, config, i, byInterface, was)
    requires was[i].number !in byInterface && OwnExpert(id, config, i).Some?
    requires |interfaces| == |was|
    requires forall k | 0 <= k < |interfaces| ::
      interfaces[k] == if was[k].number == was[i].number then was[k].(expert := OwnExpert(id, config, i)) else was[k]
    ensures AttachedSoFar(id, config, i + 1, byInterface[was[i].number := OwnExpert(id, config, i).value], interfaces)
  {
    hide OwnExpert;
    hide NumberExpert;
    assert config.interfaces[i].number == was[i].number;
    FirstQualifying(id, config, was[i].number, 0, i);
  }

  method AttachExperts(id: Identity, config: Config) returns (attached: Config)
    requires Bare(config)
    ensures attached == Attach(id, config)
  {
    hide OwnExpert;
    hide AttachedSoFar;
    NothingAttached(id, config);
    var deviceExpert := DeviceExpert(id, config);
    var interfaces := config.interfaces;
    var byInterface: map<byte, Expert> := map[];
    var i := 0;
    while i < |interfaces|
      invariant 0 <= i <= |interfaces| == |config.interfaces|
      invariant deviceExpert.Some? ==>
        forall k | 0 <= k < |interfaces| ::
          interfaces[k] == if k < i then config.interfaces[k].(expert := deviceExpert) else config.interfaces[k]
      invariant deviceExpert.None? ==> AttachedSoFar(id, config, i, byInterface, interfaces)
    {
      var number := interfaces[i].number;
      if deviceExpert.Some? {
        interfaces := interfaces[i := interfaces[i].(expert := deviceExpert)];
      } else if number in byInterface {
        JoinsShared(id, config, i, byInterface, interfaces);
        interfaces := interfaces[i := interfaces[i].(expert := Some(byInterface[number]))];
      } else {
        var expert := OwnExpert(id, config, i);
        if expert.Some? {
          ghost var before := byInterface;
          byInterface := byInterface[number := expert.value];
          // Whatever was passed before under this number gets it as well
          var other := 0;
          ghost var was := interfaces;
          while other < |interfaces|
            invariant 0 <= other <= |interfaces| == |was|
            invariant forall k | 0 <= k < |interfaces| ::
              interfaces[k] == if k < other && was[k].number == number then was[k].(expert := expert) else was[k]
          {
            if interfaces[other].number == number {
              interfaces := interfaces[other := interfaces[other].(expert := expert)];
            }
            other := other + 1;
          }
          SharesFirst(id, config, i, before, was, interfaces);
        } else {
          QualifiesNot(id, config, i, byInterface, interfaces);
        }
      }
      i := i + 1;
    }
    attached := config.(interfaces := interfaces);
    if deviceExpert.None? { SharedIsAttached(id, config, byInterface, interfaces); }
    assert attached.interfaces == Attach(id, config).interfaces;
  }

  lemma SharedIsAttached(id: Identity, config: Config, byInterface: map<byte, Expert>, interfaces: seq<Interface>)
    requires DeviceExpert(id, config).None?
    requires AttachedSoFar(id, config, |config.interfaces|, byInterface, interfaces)
    ensures interfaces == Attach(id, config).interfaces
  {
    hide OwnExpert;
    forall k | 0 <= k < |interfaces|
      ensures interfaces[k] == Attach(id, config).interfaces[k]
    {
      var number := config.interfaces[k].number;
      if number !in byInterface { NoneQualifying(id, config, number, 0); }
    }
  }
}
