/** What descriptor parsing and attachment guarantee. */
module ConfigurationLaws {
  import opened Wire
  import opened Configuration

  // ---- Attachment ----

  /** Whether some alternate setting of an interface number calls for a decoder. */
  ghost predicate Qualifies(id: Identity, config: Config, number: byte) {
    exists j :: 0 <= j < |config.interfaces| && config.interfaces[j].number == number && OwnExpert(id, config, j).Some?
  }

  lemma {:induction false} NumberExpertExists(id: Identity, config: Config, number: byte, i: nat)
    requires i <= |config.interfaces|
    ensures NumberExpert(id, config, number, i).Some? <==>
            exists j :: i <= j < |config.interfaces| && config.interfaces[j].number == number
                && OwnExpert(id, config, j).Some?
    ensures NumberExpert(id, config, number, i).Some? ==>
            exists j :: i <= j < |config.interfaces| && config.interfaces[j].number == number
                        && NumberExpert(id, config, number, i) == OwnExpert(id, config, j)
    decreases |config.interfaces| - i
  {
    hide OwnExpert;
    if i == |config.interfaces| {
    } else {
      NumberExpertExists(id, config, number, i + 1);
    }
  }

  /** The decoder a setting calls for, by the numbers assigned: usbmux is for Apple devices, DFU for any. */
  function CallsFor(id: Identity, s: Interface): Option<Kind> {
    if id.vendor == 0x05AC && s.interfaceClass == 0xFF && s.subclass == 0xFE && s.protocol == 2 then Some(UsbMux)
    else if s.interfaceClass == 0xFE && s.subclass == 1 then Some(Dfu)
    else None
  }

  /** The transfer size a configuration announces, in the last two bytes kept of its DFU functional descriptor. */
  function Announced(config: Config): nat {
    if config.hasDfu then config.dfu[5] + config.dfu[6] as int * 0x100 else 0
  }

  /** Of the settings of an interface number that call for a decoder, the first. */
  ghost predicate IsFirstFor(id: Identity, interfaces: seq<Interface>, number: byte, k: int) {
    && 0 <= k < |interfaces| && interfaces[k].number == number && CallsFor(id, interfaces[k]).Some?
    && forall j | 0 <= j < k && interfaces[j].number == number :: CallsFor(id, interfaces[j]).None?
  }

  lemma OwnIsCalledFor(id: Identity, config: Config, k: nat)
    requires k < |config.interfaces|
    ensures OwnExpert(id, config, k)
         == match CallsFor(id, config.interfaces[k])
            case None => None
            case Some(kind) =>
              Some(Expert(kind, config.value, config.interfaces[k].number,
                          if kind == Dfu then config.TransferSize() else 0))
    ensures config.TransferSize() == Announced(config)
  {
    TwoDigits(config.dfu[6], config.dfu[5], 0);
    hide Number;
  }

  /** Which decoder each setting has: in upgrade and recovery mode that of the whole device; otherwise the one that the
      first setting of its interface to call for any calls for. */
  lemma AttachedIsDue(id: Identity, config: Config, i: nat, k: int)
    requires i < |config.interfaces|
    requires var number := config.interfaces[i].number;
             || IsFirstFor(id, config.interfaces, number, k)
             || (k == -1 && forall j :: !IsFirstFor(id, config.interfaces, number, j))
    ensures Attach(id, config).interfaces[i].expert
         == if id.vendor == 0x05AC && id.product in {0x1222, 0x1227}
            then Some(Expert(Dfu, config.value, 0, Announced(config)))
            else if id.vendor == 0x05AC && id.product in {0x1280, 0x1281, 0x1282, 0x1283}
            then Some(Expert(Recovery, config.value, 0, 0))
            else if k == -1 then None
            else
              var kind := CallsFor(id, config.interfaces[k]).value;
              Some(Expert(kind, config.value, config.interfaces[i].number,
                          if kind == Dfu then Announced(config) else 0))
  {
    var number := config.interfaces[i].number;
    forall j: nat | j < |config.interfaces|
      ensures OwnExpert(id, config, j).Some? <==> CallsFor(id, config.interfaces[j]).Some?
    {
      OwnIsCalledFor(id, config, j);
    }
    OwnIsCalledFor(id, config, if k == -1 then i else k);
    hide OwnExpert;
    hide CallsFor;
    if k == -1 {
      NoFirstFor(id, config.interfaces, number, |config.interfaces|);
      NoneQualifying(id, config, number, 0);
    } else {
      FirstQualifying(id, config, number, 0, k);
    }
    hide NumberExpert;
    hide Announced;
    hide Config.TransferSize;
  }

  lemma {:induction false} NoFirstFor(id: Identity, interfaces: seq<Interface>, number: byte, n: nat)
    requires n <= |interfaces| && forall j :: !IsFirstFor(id, interfaces, number, j)
    ensures forall j | 0 <= j < n && interfaces[j].number == number :: CallsFor(id, interfaces[j]).None?
  {
    hide CallsFor;
    if n == 0 {
    } else {
      NoFirstFor(id, interfaces, number, n - 1);
      assert !IsFirstFor(id, interfaces, number, n - 1);
    }
  }

  /** All alternate settings of an interface share one decoder, which exists exactly when one of them calls for it or
      the device as a whole does. */
  lemma AlternatesShareTheirExpert(id: Identity, config: Config)
    ensures var attached := Attach(id, config).interfaces;
            && (forall i, j | 0 <= i < |attached| && 0 <= j < |attached| && attached[i].number == attached[j].number ::
                  attached[i].expert == attached[j].expert)
            && (forall i | 0 <= i < |attached| ::
                  attached[i].expert.Some? <==>
                  id.IsAppleDfu() || id.IsAppleRecovery() || Qualifies(id, config, attached[i].number))
  {
    hide OwnExpert;
    var attached := Attach(id, config).interfaces;
    forall i | 0 <= i < |attached|
      ensures attached[i].expert.Some? <==>
              id.IsAppleDfu() || id.IsAppleRecovery() || Qualifies(id, config, attached[i].number)
    {
      NumberExpertExists(id, config, config.interfaces[i].number, 0);
    }
  }

  /** Settings of different interfaces never share a decoder, unless the device as a whole has one. */
  lemma DifferentInterfacesDiffer(id: Identity, config: Config, i: nat, j: nat)
    requires i < |config.interfaces| && j < |config.interfaces|
    requires !id.IsAppleDfu() && !id.IsAppleRecovery()
    requires config.interfaces[i].number != config.interfaces[j].number
    ensures var attached := Attach(id, config).interfaces;
            attached[i].expert == attached[j].expert ==> attached[i].expert == None
  {
    var a, b := config.interfaces[i].number, config.interfaces[j].number;
    NumberExpertExists(id, config, a, 0);
    NumberExpertExists(id, config, b, 0);
    assert forall k | 0 <= k < |config.interfaces| && OwnExpert(id, config, k).Some? ::
             OwnExpert(id, config, k).value.interfaceNumber == config.interfaces[k].number;
    hide OwnExpert;
  }

  /** The decoder of an interface number is a usbmux one: of its settings that call for any, this is the first. */
  ghost predicate StartsUsbMux(interfaces: seq<Interface>, number: byte, i: nat) {
    && i < |interfaces| && interfaces[i].number == number && interfaces[i].IsUsbMux()
    && forall j | 0 <= j < i && interfaces[j].number == number :: !interfaces[j].IsUsbMux() && !interfaces[j].IsDfu()
  }

  lemma StartIsUsbMux(id: Identity, config: Config, number: byte, i: nat)
    requires id.IsApple() && StartsUsbMux(config.interfaces, number, i)
    ensures NumberExpert(id, config, number, 0) == Some(Expert(UsbMux, config.value, number, 0))
  {
    FirstQualifying(id, config, number, 0, i);
    hide NumberExpert;
  }

  // ---- Whole sets ----

  /** Long enough for its type: configurations and interfaces have nine bytes, endpoints seven. */
  predicate LongEnough(raw: Bytes)
    requires |raw| >= 2
  {
    (raw[1] == 2 || raw[1] == 4 ==> |raw| >= 9) && (raw[1] == 5 ==> |raw| >= 7)
  }

  /** Descriptors end to end, each as long as it declares and long enough. */
  predicate Tiled(data: Bytes)
    decreases |data|
  {
    data == [] || (|data| >= 2 && 2 <= data[0] <= |data| && LongEnough(data[..data[0]]) && Tiled(data[data[0]..]))
  }

  /** A set is accepted exactly when it is made of whole descriptors; also one that has no interface, or none yet. */
  lemma {:induction false} WholeIsAccepted(config: Config, data: Bytes)
    ensures Parse(config, data).ok <==> Tiled(data)
    decreases |data|
  {
    if Delimited(data) {
      var raw := data[..data[0]];
      assert Add(config, raw).Some? <==> LongEnough(raw);
      hide Add;
      hide LongEnough;
      if Add(config, raw).Some? { WholeIsAccepted(Add(config, raw).value, data[data[0]..]); }
    }
  }

  /** Ahead of the first interface nothing but the configuration's own descriptor counts. */
  lemma LooseIsSkipped(config: Config, raw: Bytes, rest: Bytes)
    requires config.interfaces == [] && |raw| >= 2 && raw[0] == |raw| && raw[1] !in {2, 4} && LongEnough(raw)
    ensures Parse(config, raw + rest) == Parse(config, rest)
  {
    var data := raw + rest;
    assert data[..data[0]] == raw && data[data[0]..] == rest;
  }

  // ---- Truncation ----

  /** The descriptors of a set, as far as their lengths delimit them. */
  function Wholes(data: Bytes): seq<Bytes>
    decreases |data|
  {
    if Delimited(data) then [data[..data[0]]] + Wholes(data[data[0]..]) else []
  }

  function TotalLength(raws: seq<Bytes>): nat {
    if raws == [] then 0 else |raws[0]| + TotalLength(raws[1..])
  }

  /** Descriptors added one after the other, up to the first that is too short for its type. */
  function Build(config: Config, raws: seq<Bytes>): Config
    requires forall i | 0 <= i < |raws| :: |raws[i]| >= 2
    decreases |raws|
  {
    if raws == [] then config
    else
      match Add(config, raws[0])
      case None => config
      case Some(next) => Build(next, raws[1..])
  }

  lemma {:induction false} WholesAreLongEnough(data: Bytes)
    ensures forall i | 0 <= i < |Wholes(data)| :: |Wholes(data)[i]| >= 2
    ensures TotalLength(Wholes(data)) <= |data|
    decreases |data|
  {
    if !Delimited(data) {
    } else {
      WholesAreLongEnough(data[data[0]..]);
    }
  }

  lemma {:induction false} ParseIsBuild(config: Config, data: Bytes)
    ensures (forall i | 0 <= i < |Wholes(data)| :: |Wholes(data)[i]| >= 2)
         && Parse(config, data).config == Build(config, Wholes(data))
    decreases |data|
  {
    WholesAreLongEnough(data);
    if !Delimited(data) {
    } else {
      var next := Add(config, data[..data[0]]);
      if next.Some? { ParseIsBuild(next.value, data[data[0]..]); }
      hide Add;
    }
  }

  /** The descriptors cut are the first of the whole, as many as end by then. */
  predicate CutOff(whole: seq<Bytes>, cut: seq<Bytes>, n: nat) {
    && cut <= whole && TotalLength(cut) <= n
    && (|cut| < |whole| ==> TotalLength(whole[..|cut| + 1]) > n)
  }

  lemma CutOffBehind(first: Bytes, whole: seq<Bytes>, cut: seq<Bytes>, n: nat)
    requires CutOff(whole, cut, n)
    ensures CutOff([first] + whole, [first] + cut, |first| + n)
  {
    if |cut| < |whole| {
      assert ([first] + whole)[..|cut| + 2] == [first] + whole[..|cut| + 1];
    }
  }

  lemma CutAtOnce(first: Bytes, rest: seq<Bytes>, n: nat)
    requires n < |first|
    ensures CutOff([first] + rest, [], n)
  {
    assert ([first] + rest)[..1] == [first];
    assert [first][1..] == [];
  }

  lemma DelimitedCut(data: Bytes, n: nat)
    requires n <= |data|
    ensures Delimited(data[..n]) <==> Delimited(data) && data[0] <= n
    ensures Delimited(data[..n]) ==> data[..n][0] == data[0] && data[..n][..data[0]] == data[..data[0]]
  {
    assert n == 0 || data[..n][0] == data[0];
  }

  /** A set cut off after n bytes has exactly the descriptors that end by then. */
  lemma {:induction false} WholesOfTruncation(data: Bytes, n: nat)
    requires n <= |data|
    ensures CutOff(Wholes(data), Wholes(data[..n]), n)
    decreases n
  {
    DelimitedCut(data, n);
    if Delimited(data[..n]) {
      hide CutOff;
      var k := data[0];
      TakeDrop(data, k, n);
      WholesOfTruncation(data[k..], n - k);
      CutOffBehind(data[..k], Wholes(data[k..]), Wholes(data[k..][..n - k]), n - k);
    } else if Delimited(data) {
      CutAtOnce(data[..data[0]], Wholes(data[data[0]..]), n);
      hide CutOff;
    }
  }

  /** The interfaces of a shorter parse are the first ones of a longer, and so are the endpoints of each. */
  predicate Prefix(a: Config, b: Config) {
    && |a.interfaces| <= |b.interfaces|
    && (forall i | 0 <= i < |a.interfaces| :: SamePrefix(a.interfaces[i], b.interfaces[i]))
    && (forall i | 0 <= i < |a.interfaces| - 1 :: a.interfaces[i] == b.interfaces[i])
  }

  predicate SamePrefix(a: Interface, b: Interface) {
    b == a.(endpoints := b.endpoints) && a.endpoints <= b.endpoints
  }

  lemma AddExtends(config: Config, raw: Bytes)
    requires |raw| >= 2
    ensures Add(config, raw).Some? ==> Prefix(config, Add(config, raw).value)
  {
  }

  lemma PrefixIsTransitive(a: Config, b: Config, c: Config)
    requires Prefix(a, b) && Prefix(b, c)
    ensures Prefix(a, c)
  {
    forall i | 0 <= i < |a.interfaces|
      ensures SamePrefix(a.interfaces[i], c.interfaces[i])
    {
      assert SamePrefix(b.interfaces[i], c.interfaces[i]);
    }
  }

  lemma {:induction false} BuildExtends(config: Config, raws: seq<Bytes>, k: nat)
    requires k <= |raws| && forall i | 0 <= i < |raws| :: |raws[i]| >= 2
    ensures Prefix(Build(config, raws[..k]), Build(config, raws))
    decreases |raws|
  {
    if raws == [] {
    } else {
      AddExtends(config, raws[0]);
      var next := Add(config, raws[0]);
      hide Add;
      if k > 0 {
        assert raws[..k][1..] == raws[1..][..k - 1];
        if next.Some? { BuildExtends(next.value, raws[1..], k - 1); }
      } else if next.Some? {
        BuildExtends(next.value, raws[1..], 0);
        assert raws[1..][..0] == [];
        PrefixIsTransitive(config, next.value, Build(config, raws));
      }
    }
  }

  /** Every truncation of a descriptor set yields the descriptors wholly inside it: a prefix of the interfaces, and of
      the endpoints of each. */
  lemma TruncationIsPrefix(data: Bytes, n: nat)
    requires n <= |data|
    ensures Prefix(Parse(NO_CONFIG, data[..n]).config, Parse(NO_CONFIG, data).config)
    ensures var whole, cut := Wholes(data), Wholes(data[..n]);
            && cut <= whole && TotalLength(cut) <= n
            && (|cut| < |whole| ==> TotalLength(whole[..|cut| + 1]) > n)
            && (forall i | 0 <= i < |whole| :: |whole[i]| >= 2)
            && Parse(NO_CONFIG, data[..n]).config == Build(NO_CONFIG, whole[..|cut|])
  {
    WholesOfTruncation(data, n);
    ParseIsBuild(NO_CONFIG, data);
    ParseIsBuild(NO_CONFIG, data[..n]);
    var whole, cut := Wholes(data), Wholes(data[..n]);
    assert whole[..|cut|] == cut;
    BuildExtends(NO_CONFIG, whole, |cut|);
    hide Parse;
    hide Build;
    hide Prefix;
  }

  // ---- Printing and reading back (section 9.6 of the USB 2.0 specification) ----

  /** A setting as printed: its descriptor, class specific descriptors, and its endpoints. */
  datatype Setting = Setting(
    number: byte, alternate: byte, interfaceClass: byte, subclass: byte, protocol: byte,
    extra: seq<Bytes>, endpoints: seq<Endpoint>)
  {
    function Bare(): Interface { Interface(number, alternate, interfaceClass, subclass, protocol, [], None) }
    function Whole(): Interface { Bare().(endpoints := endpoints) }
    predicate IsUpgrade() { interfaceClass == 0xFE && subclass == 0x01 }
    predicate CanPrint() { |endpoints| < 0x100 && forall k | 0 <= k < |extra| :: Foreign(extra[k]) }
  }

  /** A descriptor of some other type, of the length it declares. */
  predicate Foreign(raw: Bytes) {
    |raw| >= 2 && raw[0] == |raw| && raw[1] !in {2, 4, 5}
  }

  function EndpointBytes(e: Endpoint): Bytes {
    [7, 5, e.address, e.attributes] + PutLe16(e.maxPacketSize) + [e.interval]
  }

  function InterfaceBytes(s: Setting): Bytes
    requires |s.endpoints| < 0x100
  {
    [9, 4, s.number, s.alternate, |s.endpoints|, s.interfaceClass, s.subclass, s.protocol, 0]
  }

  function EndpointList(endpoints: seq<Endpoint>): seq<Bytes> {
    if endpoints == [] then [] else [EndpointBytes(endpoints[0])] + EndpointList(endpoints[1..])
  }

  predicate CanPrint(settings: seq<Setting>) {
    forall i | 0 <= i < |settings| :: settings[i].CanPrint()
  }

  function SettingList(settings: seq<Setting>): seq<Bytes>
    requires CanPrint(settings)
  {
    if settings == [] then []
    else
      [InterfaceBytes(settings[0])]
      + (settings[0].extra + (EndpointList(settings[0].endpoints) + SettingList(settings[1..])))
  }

  /** What a configuration says of itself. */
  datatype Header = Header(value: byte, numInterfaces: byte, text: byte, attributes: byte, maxPower: byte)

  function HeaderBytes(h: Header, total: uint16): Bytes {
    [9, 2] + PutLe16(total) + [h.numInterfaces, h.value, h.text, h.attributes, h.maxPower]
  }

  /** A complete descriptor set. */
  function ConfigDescriptor(header: Header, settings: seq<Setting>): Bytes
    requires CanPrint(settings) && 9 + |Flat(SettingList(settings))| < 0x1_0000
  {
    var body := Flat(SettingList(settings));
    HeaderBytes(header, 9 + |body|) + body
  }

  function WholeInterfaces(settings: seq<Setting>): seq<Interface> {
    if settings == [] then [] else [settings[0].Whole()] + WholeInterfaces(settings[1..])
  }

  /** Every descriptor declares its own length. */
  predicate WellDelimited(raws: seq<Bytes>) {
    forall i | 0 <= i < |raws| :: |raws[i]| >= 2 && raws[i][0] == |raws[i]|
  }

  /** Adding each descriptor in turn; none when one of them is refused. */
  function AddAll(config: Config, raws: seq<Bytes>): Option<Config>
    requires WellDelimited(raws)
    decreases |raws|
  {
    if raws == [] then Some(config)
    else
      match Add(config, raws[0])
      case None => None
      case Some(next) => AddAll(next, raws[1..])
  }

  lemma {:induction false} ParseOfPrinted(config: Config, raws: seq<Bytes>)
    requires WellDelimited(raws) && AddAll(config, raws).Some?
    ensures Parse(config, Flat(raws)) == Parsed(AddAll(config, raws).value, true)
    decreases |raws|
  {
    if raws == [] {
    } else {
      var data := Flat(raws);
      assert data[..|raws[0]|] == raws[0] && data[|raws[0]|..] == Flat(raws[1..]);
      ParseOfPrinted(Add(config, raws[0]).value, raws[1..]);
      hide Add;
    }
  }

  lemma {:induction false} AddAllAppend(config: Config, a: seq<Bytes>, b: seq<Bytes>)
    requires WellDelimited(a) && WellDelimited(b) && AddAll(config, a).Some?
    ensures WellDelimited(a + b) && AddAll(config, a + b) == AddAll(AddAll(config, a).value, b)
    decreases |a|
  {
    hide Add;
    if a == [] {
      assert a + b == b;
    } else {
      assert (a + b)[1..] == a[1..] + b;
      AddAllAppend(Add(config, a[0]).value, a[1..], b);
    }
  }

  /** DFU functional descriptors laid over each other, each as far as it goes. */
  function Overlay(known: DfuBytes, raws: seq<Bytes>): DfuBytes
    decreases |raws|
  {
    if raws == [] then known
    else
      var kept := Min(|raws[0]|, 7);
      Overlay(raws[0][..kept] + known[kept..], raws[1..])
  }

  /** The functional descriptors among class specific ones, which only count in a DFU interface. */
  function Functional(dfu: bool, extra: seq<Bytes>): seq<Bytes> {
    if extra == [] then []
    else
      (if dfu && |extra[0]| >= 2 && extra[0][1] == 0x21 then [extra[0]] else [])
      + Functional(dfu, extra[1..])
  }

  function AllFunctional(settings: seq<Setting>): seq<Bytes> {
    if settings == [] then []
    else Functional(settings[0].IsUpgrade(), settings[0].extra) + AllFunctional(settings[1..])
  }

  lemma {:induction false} OverlayAppend(known: DfuBytes, a: seq<Bytes>, b: seq<Bytes>)
    ensures Overlay(known, a + b) == Overlay(Overlay(known, a), b)
    decreases |a|
  {
    if a == [] {
      assert a + b == b;
    } else {
      assert (a + b)[1..] == a[1..] + b;
      var kept := Min(|a[0]|, 7);
      OverlayAppend(a[0][..kept] + known[kept..], a[1..], b);
    }
  }

  /** These interfaces, and these DFU descriptors laid over what was known; all else as it was. */
  predicate Agrees(config: Config, was: Config, interfaces: seq<Interface>, functional: seq<Bytes>) {
    config == was.(interfaces := interfaces, dfu := Overlay(was.dfu, functional),
                   hasDfu := was.hasDfu || functional != [])
  }

  lemma AgreesThen(a: Config, b: Config, c: Config, interfaces: seq<Interface>, first: seq<Bytes>, later: seq<Bytes>)
    requires Agrees(b, a, b.interfaces, first) && Agrees(c, b, interfaces, later)
    ensures Agrees(c, a, interfaces, first + later)
  {
    OverlayAppend(a.dfu, first, later);
    hide Overlay;
  }

  lemma {:induction false} ForeignAddFunctional(config: Config, raws: seq<Bytes>)
    requires config.interfaces != [] && forall i | 0 <= i < |raws| :: Foreign(raws[i])
    ensures WellDelimited(raws) && AddAll(config, raws).Some?
         && Agrees(AddAll(config, raws).value, config, config.interfaces,
                   Functional(config.interfaces[|config.interfaces| - 1].IsDfu(), raws))
    decreases |raws|
  {
    if raws == [] {
    } else {
      var dfu := config.interfaces[|config.interfaces| - 1].IsDfu();
      assert Foreign(raws[0]);
      var next := Add(config, raws[0]).value;
      ForeignIsAdded(config, raws[0]);
      hide Add;
      hide Overlay;
      ForeignAddFunctional(next, raws[1..]);
      AgreesThen(config, next, AddAll(next, raws[1..]).value, config.interfaces,
        if dfu && raws[0][1] == USB_DT_DFU_FUNCTIONAL then [raws[0]] else [], Functional(dfu, raws[1..]));
    }
  }

  lemma ForeignIsAdded(config: Config, raw: Bytes)
    requires config.interfaces != [] && Foreign(raw)
    ensures var dfu := config.interfaces[|config.interfaces| - 1].IsDfu();
            && Add(config, raw).Some?
            && Agrees(Add(config, raw).value, config, config.interfaces,
                      if dfu && raw[1] == USB_DT_DFU_FUNCTIONAL then [raw] else [])
  {
    assert [raw][1..] == [];
    var kept := Min(|raw|, 7);
    assert Overlay(config.dfu, [raw]) == Overlay(raw[..kept] + config.dfu[kept..], [raw][1..]);
  }

  lemma {:induction false} EndpointsAreAdded(config: Config, before: seq<Interface>, bare: Interface,
                                             endpoints: seq<Endpoint>)
    requires config.interfaces == before + [bare]
    ensures WellDelimited(EndpointList(endpoints)) && AddAll(config, EndpointList(endpoints)).Some?
         && Agrees(AddAll(config, EndpointList(endpoints)).value, config,
                   before + [bare.(endpoints := bare.endpoints + endpoints)], [])
    decreases |endpoints|
  {
    if endpoints == [] {
      assert bare.endpoints + [] == bare.endpoints;
    } else {
      var next := Add(config, EndpointBytes(endpoints[0]));
      var more := bare.(endpoints := bare.endpoints + [endpoints[0]]);
      EndpointIsAdded(config, before, bare, endpoints[0]);
      EndpointsAreAdded(next.value, before, more, endpoints[1..]);
      assert EndpointList(endpoints)[1..] == EndpointList(endpoints[1..]);
      assert more.endpoints + endpoints[1..] == bare.endpoints + endpoints;
      hide Add;
      hide EndpointBytes;
    }
  }

  lemma EndpointIsAdded(config: Config, before: seq<Interface>, bare: Interface, e: Endpoint)
    requires config.interfaces == before + [bare]
    ensures var raw := EndpointBytes(e);
            && |raw| == USB_DT_ENDPOINT_SIZE && raw[0] == |raw|
            && Add(config, raw) == Some(config.(interfaces := before + [bare.(endpoints := bare.endpoints + [e])]))
  {
    var raw := EndpointBytes(e);
    Le16OfPut(e.maxPacketSize);
    assert raw[4..][..2] == PutLe16(e.maxPacketSize) && Le16(raw[4..]) == Le16(raw[4..][..2]);
    var more := bare.(endpoints := bare.endpoints + [e]);
    assert config.interfaces[|config.interfaces| - 1 := more] == before + [more];
  }

  lemma {:induction false} SettingsAreAdded(config: Config, settings: seq<Setting>)
    requires CanPrint(settings)
    ensures WellDelimited(SettingList(settings)) && AddAll(config, SettingList(settings)).Some?
         && Agrees(AddAll(config, SettingList(settings)).value, config,
                   config.interfaces + WholeInterfaces(settings), AllFunctional(settings))
    decreases |settings|
  {
    if settings == [] {
      assert config.interfaces + [] == config.interfaces;
    } else {
      var s := settings[0];
      OneSettingIsAdded(config, s);
      hide Add;
      hide InterfaceBytes;
      hide Agrees;
      var own, rest := [InterfaceBytes(s)] + (s.extra + EndpointList(s.endpoints)), SettingList(settings[1..]);
      var c := AddAll(config, own).value;
      SettingsAreAdded(c, settings[1..]);
      AddAllAppend(config, own, rest);
      SettingListIs(settings);
      AgreedInterfaces(c, config, config.interfaces + [s.Whole()], Functional(s.IsUpgrade(), s.extra));
      AgreesThen(config, c, AddAll(c, rest).value, c.interfaces + WholeInterfaces(settings[1..]),
                 Functional(s.IsUpgrade(), s.extra), AllFunctional(settings[1..]));
      Associates(config.interfaces, [s.Whole()], WholeInterfaces(settings[1..]));
    }
  }

  lemma AgreedInterfaces(config: Config, was: Config, interfaces: seq<Interface>, functional: seq<Bytes>)
    requires Agrees(config, was, interfaces, functional)
    ensures config.interfaces == interfaces
  {
  }

  lemma SettingListIs(settings: seq<Setting>)
    requires CanPrint(settings) && settings != []
    ensures var s := settings[0];
            SettingList(settings)
            == ([InterfaceBytes(s)] + (s.extra + EndpointList(s.endpoints))) + SettingList(settings[1..])
  {
    var s := settings[0];
    hide InterfaceBytes;
    var first, own, rest := [InterfaceBytes(s)], EndpointList(s.endpoints), SettingList(settings[1..]);
    Associates(first, s.extra + own, rest);
    Associates(s.extra, own, rest);
  }

  lemma OneSettingIsAdded(config: Config, s: Setting)
    requires s.CanPrint()
    ensures var raws := [InterfaceBytes(s)] + (s.extra + EndpointList(s.endpoints));
            && WellDelimited(raws) && AddAll(config, raws).Some?
            && Agrees(AddAll(config, raws).value, config, config.interfaces + [s.Whole()],
                      Functional(s.IsUpgrade(), s.extra))
  {
    var first, own := [InterfaceBytes(s)], EndpointList(s.endpoints);
    var a := config.(interfaces := config.interfaces + [s.Bare()]);
    assert WellDelimited(first) && first[1..] == [] && Add(config, first[0]) == Some(a);
    assert AddAll(config, first) == Some(a);
    hide Add;
    hide InterfaceBytes;
    hide Overlay;
    ForeignAddFunctional(a, s.extra);
    var b := AddAll(a, s.extra).value;
    EndpointsAreAdded(b, config.interfaces, s.Bare(), s.endpoints);
    assert [] + s.endpoints == s.endpoints;
    AddAllAppend(a, s.extra, own);
    AddAllAppend(config, first, s.extra + own);
    var functional := Functional(s.IsUpgrade(), s.extra);
    AgreesThen(a, b, AddAll(b, own).value, config.interfaces + [s.Whole()], functional, []);
    assert functional + [] == functional;
    hide Functional;
  }

  /** A printed set is read back: what it says of itself, every setting and endpoint, in order, and the DFU functional
      descriptors of its DFU interfaces. */
  lemma PrintedIsParsed(header: Header, settings: seq<Setting>)
    requires CanPrint(settings) && 9 + |Flat(SettingList(settings))| < 0x1_0000
    ensures Parse(NO_CONFIG, ConfigDescriptor(header, settings))
         == Parsed(Config(9 + |Flat(SettingList(settings))|, header.numInterfaces, header.value, header.attributes,
                          header.maxPower, Overlay([0, 0, 0, 0, 0, 0, 0], AllFunctional(settings)),
                          AllFunctional(settings) != [], WholeInterfaces(settings)), true)
  {
    hide Add;
    hide HeaderBytes;
    hide Parse;
    hide Overlay;
    hide AllFunctional;
    hide WholeInterfaces;
    hide SettingList;
    var body := SettingList(settings);
    var total: uint16 := 9 + |Flat(body)|;
    var raw := HeaderBytes(header, total);
    HeaderIsAdded(header, total);
    var first := Add(NO_CONFIG, raw).value;
    SettingsAreAdded(first, settings);
    assert [] + WholeInterfaces(settings) == WholeInterfaces(settings);
    var raws := [raw] + body;
    assert raws[1..] == body && Flat(raws) == raw + Flat(body);
    ParseOfPrinted(NO_CONFIG, raws);
  }

  lemma HeaderIsAdded(h: Header, total: uint16)
    ensures var raw := HeaderBytes(h, total);
            && |raw| == 9 && raw[0] == 9
            && Add(NO_CONFIG, raw) == Some(Config(total, h.numInterfaces, h.value, h.attributes, h.maxPower,
                                                  [0, 0, 0, 0, 0, 0, 0], false, []))
  {
    var raw := HeaderBytes(h, total);
    Le16OfPut(total);
    Le16Prefix(raw[2..]);
    assert raw[2..][..2] == PutLe16(total);
    hide Le16;
  }
}
