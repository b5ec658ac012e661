/** What a device keeps over time, and when its routing depends on the alternate settings selected. */
module DeviceLaws {
  import opened Wire
  import opened Configuration
  import opened Device
  import ConfigurationLaws

  // ---- Routing ----

  predicate Holds(interfaces: seq<Interface>, k: int, address: byte) {
    0 <= k < |interfaces| && Declares(interfaces[k], address)
  }

  lemma {:induction false} ChosenIsCurrent(interfaces: seq<Interface>, alternates: map<byte, byte>, address: byte)
    ensures var chosen := Chosen(interfaces, alternates, address);
            && (chosen.None? ==> forall k :: Holds(interfaces, k, address) ==> !IsCurrent(alternates, interfaces[k]))
            && (chosen.Some? ==> exists k :: IsFirst(interfaces, alternates, k, address)
                                             && interfaces[k].expert == chosen.value)
    decreases |interfaces|
  {
    hide Declares;
    hide IsCurrent;
    if interfaces == [] {
    } else {
      var rest := interfaces[1..];
      ChosenIsCurrent(rest, alternates, address);
      if Declares(interfaces[0], address) && IsCurrent(alternates, interfaces[0]) {
        assert IsFirst(interfaces, alternates, 0, address);
      } else {
        var chosen := Chosen(rest, alternates, address);
        forall k | Holds(interfaces, k, address) && k > 0
          ensures Holds(rest, k - 1, address) && interfaces[k] == rest[k - 1]
        {
        }
        if chosen.Some? {
          var k :| IsFirst(rest, alternates, k, address) && rest[k].expert == chosen.value;
          assert IsFirst(interfaces, alternates, k + 1, address) && interfaces[k + 1] == rest[k];
        }
      }
    }
  }

  /** The first setting in force that declares the endpoint. */
  predicate IsFirst(interfaces: seq<Interface>, alternates: map<byte, byte>, k: int, address: byte) {
    && Holds(interfaces, k, address) && IsCurrent(alternates, interfaces[k])
    && forall j | 0 <= j < k :: Holds(interfaces, j, address) ==> !IsCurrent(alternates, interfaces[j])
  }

  lemma {:induction false} FallbackIsFirst(interfaces: seq<Interface>, address: byte)
    ensures var fallback := Fallback(interfaces, address);
            && (fallback.None? ==> forall k :: Holds(interfaces, k, address) ==> interfaces[k].expert.None?)
            && (fallback.Some? ==> exists k :: Holds(interfaces, k, address) && interfaces[k].expert == fallback)
    decreases |interfaces|
  {
    hide Declares;
    if interfaces == [] {
    } else {
      var rest := interfaces[1..];
      FallbackIsFirst(rest, address);
      if Declares(interfaces[0], address) && interfaces[0].expert.Some? {
        assert Holds(interfaces, 0, address);
      } else if Fallback(rest, address).Some? {
        var k :| Holds(rest, k, address) && rest[k].expert == Fallback(rest, address);
        assert Holds(interfaces, k + 1, address) && interfaces[k + 1] == rest[k];
      } else {
        forall k | Holds(interfaces, k, address)
          ensures interfaces[k].expert.None?
        {
          if k > 0 { assert Holds(rest, k - 1, address) && interfaces[k] == rest[k - 1]; }
        }
      }
    }
  }

  /** The setting has the endpoint, and is the one selected; 0 is until one is. */
  predicate InForce(i: Interface, alternates: map<byte, byte>, address: byte) {
    && (exists e | 0 <= e < |i.endpoints| :: i.endpoints[e].address == address)
    && (if i.number in alternates then i.alternate == alternates[i.number] else i.alternate == 0)
  }

  /** The setting has the endpoint, and a decoder. */
  predicate CanStandIn(i: Interface, address: byte) {
    (exists e | 0 <= e < |i.endpoints| :: i.endpoints[e].address == address) && i.expert.Some?
  }

  ghost predicate FirstInForce(interfaces: seq<Interface>, alternates: map<byte, byte>, address: byte, k: int) {
    && 0 <= k < |interfaces| && InForce(interfaces[k], alternates, address)
    && forall j | 0 <= j < k :: !InForce(interfaces[j], alternates, address)
  }

  ghost predicate FirstStandIn(interfaces: seq<Interface>, address: byte, k: int) {
    && 0 <= k < |interfaces| && CanStandIn(interfaces[k], address)
    && forall j | 0 <= j < k :: !CanStandIn(interfaces[j], address)
  }

  lemma DeclaringIs(i: Interface, alternates: map<byte, byte>, address: byte)
    ensures InForce(i, alternates, address) <==> Declares(i, address) && IsCurrent(alternates, i)
    ensures CanStandIn(i, address) <==> Declares(i, address) && i.expert.Some?
  {
    if Declares(i, address) {
      var e :| e in i.endpoints && e.address == address;
      var n :| 0 <= n < |i.endpoints| && i.endpoints[n] == e;
    }
  }

  lemma {:induction false} ChosenIsFirst(interfaces: seq<Interface>, alternates: map<byte, byte>, address: byte, k: int)
    requires FirstInForce(interfaces, alternates, address, k)
          || (k == -1 && forall j :: !FirstInForce(interfaces, alternates, address, j))
    ensures Chosen(interfaces, alternates, address) == if k == -1 then None else Some(interfaces[k].expert)
    decreases |interfaces|
  {
    hide Declares;
    hide IsCurrent;
    hide InForce;
    if interfaces == [] {
    } else {
      var rest := interfaces[1..];
      DeclaringIs(interfaces[0], alternates, address);
      if k != 0 {
        if k == -1 {
          assert !FirstInForce(interfaces, alternates, address, 0);
          assert forall j :: FirstInForce(rest, alternates, address, j) ==>
                               FirstInForce(interfaces, alternates, address, j + 1);
        }
        ChosenIsFirst(rest, alternates, address, if k == -1 then -1 else k - 1);
      }
    }
  }

  lemma {:induction false} FallbackIsFirstStandIn(interfaces: seq<Interface>, address: byte, k: int)
    requires FirstStandIn(interfaces, address, k) || (k == -1 && forall j :: !FirstStandIn(interfaces, address, j))
    ensures Fallback(interfaces, address) == if k == -1 then None else interfaces[k].expert
    decreases |interfaces|
  {
    hide Declares;
    hide CanStandIn;
    if interfaces == [] {
    } else {
      var rest := interfaces[1..];
      DeclaringIs(interfaces[0], map[], address);
      if k != 0 {
        if k == -1 {
          assert !FirstStandIn(interfaces, address, 0);
          assert forall j :: FirstStandIn(rest, address, j) ==> FirstStandIn(interfaces, address, j + 1);
        }
        FallbackIsFirstStandIn(rest, address, if k == -1 then -1 else k - 1);
      }
    }
  }

  /** Where traffic of an endpoint goes: to the decoder of the first setting in force that has it, also if that has
      none; without such a setting to the first decoder of any setting that has the endpoint. */
  lemma EndpointIsRouted(config: Config, alternates: map<byte, byte>, address: byte, k: int, l: int)
    requires FirstInForce(config.interfaces, alternates, address, k)
          || (k == -1 && forall j :: !FirstInForce(config.interfaces, alternates, address, j))
    requires FirstStandIn(config.interfaces, address, l)
          || (l == -1 && forall j :: !FirstStandIn(config.interfaces, address, j))
    ensures RouteEndpoint(config, alternates, address)
         == if k != -1 then config.interfaces[k].expert
            else if l != -1 then config.interfaces[l].expert
            else None
  {
    ChosenIsFirst(config.interfaces, alternates, address, k);
    FallbackIsFirstStandIn(config.interfaces, address, l);
  }

  /** What a request is for: the interface it addresses, or whatever has a decoder. */
  predicate Targets(i: Interface, setup: Setup) {
    if setup.requestType % 0x20 == 1 then i.number == setup.index % 0x100 else i.expert.Some?
  }

  ghost predicate FirstTarget(interfaces: seq<Interface>, setup: Setup, k: int) {
    && 0 <= k < |interfaces| && Targets(interfaces[k], setup)
    && forall j | 0 <= j < k :: !Targets(interfaces[j], setup)
  }

  /** Where a request goes: to the decoder of the first setting of the interface it addresses, also if that has none;
      a request to anything else to the first decoder there is. */
  lemma RequestIsRouted(s: State, config: Config, setup: Setup, k: int)
    requires ActiveConfiguration(s) == Some(config)
          || (ActiveConfiguration(s) == None && FirstConfiguration(s) == Some(config))
    requires FirstTarget(config.interfaces, setup, k)
          || (k == -1 && forall j :: !FirstTarget(config.interfaces, setup, j))
    ensures ExpertForControl(s, setup) == if k == -1 then None else config.interfaces[k].expert
  {
    hide ActiveConfiguration;
    hide FirstConfiguration;
    TargetIsFirst(config.interfaces, setup, k);
  }

  lemma {:induction false} TargetIsFirst(interfaces: seq<Interface>, setup: Setup, k: int)
    requires FirstTarget(interfaces, setup, k) || (k == -1 && forall j :: !FirstTarget(interfaces, setup, j))
    ensures (if setup.Recipient() == 1 then OfNumber(interfaces, setup.index % 0x100) else AnyExpert(interfaces))
         == if k == -1 then None else interfaces[k].expert
    decreases |interfaces|
  {
    if interfaces == [] {
    } else {
      var rest := interfaces[1..];
      if k != 0 {
        if k == -1 {
          assert !FirstTarget(interfaces, setup, 0);
          assert forall j :: FirstTarget(rest, setup, j) ==> FirstTarget(interfaces, setup, j + 1);
        }
        TargetIsFirst(rest, setup, if k == -1 then -1 else k - 1);
      }
    }
  }

  /** Whatever SET_INTERFACE requests were seen, traffic of the endpoint goes to the same decoder. */
  ghost predicate Independent(config: Config, address: byte) {
    forall a: map<byte, byte>, b: map<byte, byte> ::
      RouteEndpoint(config, a, address) == RouteEndpoint(config, b, address)
  }

  /** All settings that declare the endpoint have the same decoder. */
  ghost predicate Shared(config: Config, address: byte) {
    forall i, j | Holds(config.interfaces, i, address) && Holds(config.interfaces, j, address) ::
      config.interfaces[i].expert == config.interfaces[j].expert
  }

  /** As attachment leaves it: settings of one interface have one decoder. */
  ghost predicate OneEach(config: Config) {
    forall i, j | 0 <= i < |config.interfaces| && 0 <= j < |config.interfaces|
      && config.interfaces[i].number == config.interfaces[j].number ::
      config.interfaces[i].expert == config.interfaces[j].expert
  }

  /** The interface can be in some setting that does not declare the endpoint, as far as the first k settings go. */
  ghost predicate CanStepAside(config: Config, k: int, number: byte, address: byte) {
    exists a: byte :: AsideIn(config, k, number, address, a)
  }

  ghost predicate AsideIn(config: Config, k: int, number: byte, address: byte, a: byte) {
    forall j | 0 <= j < k && Holds(config.interfaces, j, address) && config.interfaces[j].number == number ::
      config.interfaces[j].alternate != a
  }

  /** The setting declares the endpoint, and every other interface can leave the endpoint to it. */
  ghost predicate Reachable(config: Config, k: int, address: byte) {
    && Holds(config.interfaces, k, address)
    && forall n: byte :: n == config.interfaces[k].number || CanStepAside(config, k, n, address)
  }

  /** All settings that traffic of the endpoint can be left to have the same decoder. */
  ghost predicate Agreed(config: Config, address: byte) {
    forall i, j | Reachable(config, i, address) && Reachable(config, j, address) ::
      config.interfaces[i].expert == config.interfaces[j].expert
  }

  ghost function Aside(config: Config, k: int, number: byte, address: byte): (a: byte)
    ensures CanStepAside(config, k, number, address) ==> AsideIn(config, k, number, address, a)
  {
    if CanStepAside(config, k, number, address) then var a: byte :| AsideIn(config, k, number, address, a); a else 0
  }

  /** The settings that leave the endpoint to setting k. */
  ghost function Leaving(config: Config, k: int, address: byte): (alternates: map<byte, byte>)
    requires 0 <= k < |config.interfaces|
    ensures forall n: byte :: n in alternates
  {
    map n: byte | 0 <= n < 0x100 ::
      if n == config.interfaces[k].number then config.interfaces[k].alternate else Aside(config, k, n, address)
  }

  lemma ReachableIsReached(config: Config, k: int, address: byte)
    requires OneEach(config) && Reachable(config, k, address)
    ensures RouteEndpoint(config, Leaving(config, k, address), address) == config.interfaces[k].expert
  {
    var alternates, s := Leaving(config, k, address), config.interfaces[k];
    ChosenIsCurrent(config.interfaces, alternates, address);
    assert IsCurrent(alternates, s);
    var chosen := Chosen(config.interfaces, alternates, address);
    var j :| IsFirst(config.interfaces, alternates, j, address) && config.interfaces[j].expert == chosen.value;
    if config.interfaces[j].number != s.number {
      StepsAside(config, k, j, address);
    }
    hide Declares;
    hide Chosen;
    hide Leaving;
  }

  lemma StepsAside(config: Config, k: int, j: int, address: byte)
    requires Reachable(config, k, address) && 0 <= j < |config.interfaces|
    requires Holds(config.interfaces, j, address) && config.interfaces[j].number != config.interfaces[k].number
    ensures j < k ==> !IsCurrent(Leaving(config, k, address), config.interfaces[j])
  {
    hide Declares;
    var n := config.interfaces[j].number;
    assert CanStepAside(config, k, n, address);
    assert AsideIn(config, k, n, address, Aside(config, k, n, address));
  }

  lemma FirstIsReachable(config: Config, alternates: map<byte, byte>, k: int, address: byte)
    requires IsFirst(config.interfaces, alternates, k, address)
    ensures Reachable(config, k, address)
  {
    hide Declares;
    forall n: byte
      ensures CanStepAside(config, k, n, address)
    {
      AsideNow(config, alternates, k, n, address);
    }
  }

  lemma AsideNow(config: Config, alternates: map<byte, byte>, k: int, n: byte, address: byte)
    requires forall j | 0 <= j < k && Holds(config.interfaces, j, address) ::
               !IsCurrent(alternates, config.interfaces[j])
    ensures CanStepAside(config, k, n, address)
  {
    hide Declares;
    var a: byte := if n in alternates then alternates[n] else 0;
    assert AsideIn(config, k, n, address, a);
  }

  /** With no setting in force that declares the endpoint, all that do could have it. */
  lemma NoneIsReachable(config: Config, alternates: map<byte, byte>, k: int, address: byte)
    requires Chosen(config.interfaces, alternates, address).None? && Holds(config.interfaces, k, address)
    ensures Reachable(config, k, address)
  {
    ChosenIsCurrent(config.interfaces, alternates, address);
    hide Declares;
    hide Chosen;
    hide IsCurrent;
    forall n: byte
      ensures CanStepAside(config, k, n, address)
    {
      AsideNow(config, alternates, k, n, address);
    }
  }

  /** Where the endpoint goes, some setting it can be left to has the decoder; or none declares it. */
  lemma RouteIsReachable(config: Config, alternates: map<byte, byte>, address: byte) returns (k: int)
    requires exists i :: Holds(config.interfaces, i, address)
    requires Agreed(config, address)
    ensures Reachable(config, k, address) && RouteEndpoint(config, alternates, address) == config.interfaces[k].expert
  {
    hide Declares;
    hide IsCurrent;
    hide CanStepAside;
    ChosenIsCurrent(config.interfaces, alternates, address);
    FallbackIsFirst(config.interfaces, address);
    var chosen := Chosen(config.interfaces, alternates, address);
    if chosen.Some? {
      k :| IsFirst(config.interfaces, alternates, k, address) && config.interfaces[k].expert == chosen.value;
      FirstIsReachable(config, alternates, k, address);
    } else {
      var fallback := Fallback(config.interfaces, address);
      if fallback.Some? {
        k :| Holds(config.interfaces, k, address) && config.interfaces[k].expert == fallback;
      } else {
        k :| Holds(config.interfaces, k, address);
      }
      NoneIsReachable(config, alternates, k, address);
    }
  }

  lemma UndeclaredRoute(config: Config, address: byte, alternates: map<byte, byte>)
    requires forall k :: !Holds(config.interfaces, k, address)
    ensures RouteEndpoint(config, alternates, address) == None
  {
    ChosenIsCurrent(config.interfaces, alternates, address);
    FallbackIsFirst(config.interfaces, address);
  }

  /** Routing is independent of SET_INTERFACE history if and only if all settings that traffic of the endpoint can be
      left to have the same decoder. */
  lemma RoutingIndependence(config: Config, address: byte)
    requires OneEach(config)
    ensures Independent(config, address) <==> Agreed(config, address)
  {
    hide RouteEndpoint;
    hide CanStepAside;
    hide Declares;
    if Agreed(config, address) {
      forall a: map<byte, byte>, b: map<byte, byte>
        ensures RouteEndpoint(config, a, address) == RouteEndpoint(config, b, address)
      {
        if exists i :: Holds(config.interfaces, i, address) {
          var j := RouteIsReachable(config, a, address);
          var k := RouteIsReachable(config, b, address);
        } else {
          UndeclaredRoute(config, address, a);
          UndeclaredRoute(config, address, b);
        }
      }
    }
    if Independent(config, address) {
      forall i, j | Reachable(config, i, address) && Reachable(config, j, address)
        ensures config.interfaces[i].expert == config.interfaces[j].expert
      {
        ReachableIsReached(config, i, address);
        ReachableIsReached(config, j, address);
      }
    }
  }

  /** In particular when all settings that declare the endpoint share their decoder. */
  lemma SharedIsIndependent(config: Config, address: byte)
    requires OneEach(config) && Shared(config, address)
    ensures Independent(config, address)
  {
    RoutingIndependence(config, address);
    hide CanStepAside;
    hide Independent;
    hide Declares;
  }

  /** In particular when the endpoint belongs to one interface number. */
  lemma OneInterfaceIsIndependent(config: Config, address: byte)
    requires OneEach(config)
    requires forall i, j | Holds(config.interfaces, i, address) && Holds(config.interfaces, j, address) ::
               config.interfaces[i].number == config.interfaces[j].number
    ensures Independent(config, address)
  {
    SharedIsIndependent(config, address);
  }

  /** Configurations as devices store them are routed this way. */
  lemma AttachedRouting(id: Identity, parsed: Config, address: byte)
    ensures var config := Attach(id, parsed); Independent(config, address) <==> Agreed(config, address)
  {
    ConfigurationLaws.AlternatesShareTheirExpert(id, parsed);
    hide AttachedTo;
    RoutingIndependence(Attach(id, parsed), address);
  }

  /** An endpoint is routed to the decoder of a setting that declares it, and nowhere when none does. */
  lemma RouteIsDeclared(config: Config, alternates: map<byte, byte>, address: byte) returns (k: int)
    ensures var route := RouteEndpoint(config, alternates, address);
            if exists i :: Holds(config.interfaces, i, address)
            then Holds(config.interfaces, k, address) && route == config.interfaces[k].expert
            else route == None
  {
    hide Declares;
    hide IsCurrent;
    k := -1;
    ChosenIsCurrent(config.interfaces, alternates, address);
    FallbackIsFirst(config.interfaces, address);
    if exists i :: Holds(config.interfaces, i, address) {
      var chosen, fallback := Chosen(config.interfaces, alternates, address), Fallback(config.interfaces, address);
      if chosen.Some? {
        k :| IsFirst(config.interfaces, alternates, k, address) && config.interfaces[k].expert == chosen.value;
      } else if fallback.Some? {
        k :| Holds(config.interfaces, k, address) && config.interfaces[k].expert == fallback;
      } else {
        k :| Holds(config.interfaces, k, address);
      }
    }
    hide Chosen;
    hide Fallback;
  }

  lemma AttachedDeclares(id: Identity, parsed: Config, k: int, address: byte)
    ensures Holds(Attach(id, parsed).interfaces, k, address) <==> Holds(parsed.interfaces, k, address)
    ensures Holds(parsed.interfaces, k, address) ==>
              Attach(id, parsed).interfaces[k].expert == AttachedTo(id, parsed, k)
  {
    hide AttachedTo;
  }

  /** Of the settings that declare the endpoint all have the decoder, or none has. */
  ghost predicate Decided(id: Identity, parsed: Config, address: byte, expert: Expert, due: bool) {
    forall k | Holds(parsed.interfaces, k, address) :: (AttachedTo(id, parsed, k) == Some(expert)) == due
  }

  /** Then traffic of the endpoint goes to the decoder, or never does, whatever settings are selected. */
  lemma DecidedIsRouted(id: Identity, parsed: Config, alternates: map<byte, byte>, address: byte, expert: Expert,
                        due: bool)
    requires Decided(id, parsed, address, expert, due)
    requires due ==> exists k :: Holds(parsed.interfaces, k, address)
    ensures (RouteEndpoint(Attach(id, parsed), alternates, address) == Some(expert)) == due
  {
    hide AttachedTo;
    hide Attach;
    hide RouteEndpoint;
    hide Holds;
    if k :| Holds(parsed.interfaces, k, address) { AttachedDeclares(id, parsed, k, address); }
    var k := RouteIsDeclared(Attach(id, parsed), alternates, address);
    AttachedDeclares(id, parsed, k, address);
  }

  const HEADER: ConfigurationLaws.Header := ConfigurationLaws.Header(1, 2, 0, 0x80, 250)

  /** An interface that no decoder claims, and a DFU interface that has the same endpoint in its setting 1. */
  const PLAIN: ConfigurationLaws.Setting :=
    ConfigurationLaws.Setting(0, 0, 0, 0, 0, [], [Endpoint(0x81, 2, 512, 0)])
  const DFU: ConfigurationLaws.Setting :=
    ConfigurationLaws.Setting(1, 1, USB_CLASS_DFU, USB_SUBCLASS_DFU, 0, [], [Endpoint(0x81, 2, 512, 0)])

  /** So there is a descriptor set by which traffic of an endpoint is routed one way before the host selects any
      setting, and another way after. */
  lemma SomeRoutingDepends(id: Identity)
    requires !id.IsAppleDfu() && !id.IsAppleRecovery()
    ensures ConfigurationLaws.CanPrint([PLAIN, DFU])
         && |Flat(ConfigurationLaws.SettingList([PLAIN, DFU]))| == 32
    ensures var parsed := Parse(NO_CONFIG, ConfigurationLaws.ConfigDescriptor(HEADER, [PLAIN, DFU]));
            parsed.ok && !Independent(Attach(id, parsed.config), 0x81)
  {
    DescriptorsArePrinted();
    ConfigurationLaws.PrintedIsParsed(HEADER, [PLAIN, DFU]);
    var parsed := Parse(NO_CONFIG, ConfigurationLaws.ConfigDescriptor(HEADER, [PLAIN, DFU])).config;
    assert [PLAIN, DFU][1..] == [DFU] && [DFU][1..] == [];
    assert ConfigurationLaws.WholeInterfaces([DFU]) == [DFU.Whole()];
    assert parsed.interfaces == [PLAIN.Whole(), DFU.Whole()];
    DependsOn(id, parsed);
    hide ConfigurationLaws.ConfigDescriptor;
    hide Parse;
    hide Attach;
  }

  lemma DependsOn(id: Identity, parsed: Config)
    requires !id.IsAppleDfu() && !id.IsAppleRecovery() && parsed.interfaces == [PLAIN.Whole(), DFU.Whole()]
    ensures !Independent(Attach(id, parsed), 0x81)
  {
    var config := Attach(id, parsed);
    var before, after: map<byte, byte> := map[], map[0 := 1, 1 := 1];
    assert NumberExpert(id, parsed, 0, 2) == NumberExpert(id, parsed, 1, 2) == None;
    assert OwnExpert(id, parsed, 0) == None && OwnExpert(id, parsed, 1).Some?;
    assert NumberExpert(id, parsed, 0, 1) == None && NumberExpert(id, parsed, 1, 1) == OwnExpert(id, parsed, 1);
    assert config.interfaces[0].expert == None && config.interfaces[1].expert == OwnExpert(id, parsed, 1);
    hide Attach;
    assert config.interfaces[0].endpoints[0].address == config.interfaces[1].endpoints[0].address == 0x81;
    assert Declares(config.interfaces[0], 0x81) && Declares(config.interfaces[1], 0x81);
    assert config.interfaces[1..][0] == config.interfaces[1];
    assert Chosen(config.interfaces, before, 0x81) == Some(None);
    assert Chosen(config.interfaces, after, 0x81) == Some(config.interfaces[1].expert);
    assert RouteEndpoint(config, before, 0x81) != RouteEndpoint(config, after, 0x81);
  }

  lemma DescriptorsArePrinted()
    ensures ConfigurationLaws.CanPrint([PLAIN, DFU])
         && |Flat(ConfigurationLaws.SettingList([PLAIN, DFU]))| == 32
  {
    assert [PLAIN, DFU][1..] == [DFU] && [DFU][1..] == [];
    var e := Endpoint(0x81, 2, 512, 0);
    assert [e][1..] == [];
    var endpoint := ConfigurationLaws.EndpointBytes(e);
    var a, b := ConfigurationLaws.InterfaceBytes(PLAIN), ConfigurationLaws.InterfaceBytes(DFU);
    assert |endpoint| == 7 && |a| == |b| == 9;
    hide ConfigurationLaws.EndpointBytes;
    hide ConfigurationLaws.InterfaceBytes;
    assert ConfigurationLaws.SettingList([DFU]) == [b, endpoint];
    assert ConfigurationLaws.SettingList([PLAIN, DFU]) == [a, endpoint, b, endpoint];
    assert [a, endpoint, b, endpoint][1..] == [endpoint, b, endpoint];
    assert [endpoint, b, endpoint][1..] == [b, endpoint] && [b, endpoint][1..] == [endpoint];
    assert |Flat([endpoint])| == 7;
    assert |Flat([b, endpoint])| == 16;
  }

  // ---- What a session keeps ----

  /** The configuration as parsed, before decoders were attached. */
  function Strip(config: Config): Config {
    config.(interfaces := seq(|config.interfaces|,
      i requires 0 <= i < |config.interfaces| => config.interfaces[i].(expert := None)))
  }

  /** Attaching can be redone from what was parsed. */
  lemma AttachIsFunction(id: Identity, config: Config)
    requires Bare(config)
    ensures Strip(Attach(id, config)) == config
  {
    hide AttachedTo;
    assert Strip(Attach(id, config)).interfaces == config.interfaces;
  }

  ghost predicate AttachedFor(id: Identity, config: Config) {
    config == Attach(id, Strip(config))
  }

  /** Every configuration is stored under its own value, with the decoders that were due before or after the device
      descriptor was read. */
  ghost predicate Consistent(s: State) {
    forall v <- s.configurations ::
      && s.configurations[v].value == v
      && (AttachedFor(Identity(0, 0), s.configurations[v])
          || AttachedFor(IdentityOf(s.descriptor), s.configurations[v]))
  }

  /** What never changes while a session lasts. */
  ghost predicate Later(a: State, b: State) {
    && (a.descriptor.Some? ==> b.descriptor == a.descriptor)
    && (forall v <- a.configurations :: v in b.configurations && b.configurations[v] == a.configurations[v])
    && (a.descriptor.Some? ==> forall v <- b.configurations ::
          v !in a.configurations ==> AttachedFor(IdentityOf(a.descriptor), b.configurations[v]))
    && a.deliveries <= b.deliveries
  }

  /** The call does not read a device descriptor other than the one known. */
  predicate Undisturbed(s: State, call: Call) {
    s.descriptor.Some? ==> Apply(s, call).descriptor == s.descriptor
  }

  /** Nothing that is kept was touched. */
  predicate SameStore(a: State, b: State) {
    b.descriptor == a.descriptor && b.configurations == a.configurations && a.deliveries <= b.deliveries
  }

  lemma SameStoreStep(a: State, b: State)
    requires Consistent(a) && SameStore(a, b)
    ensures Consistent(b) && Later(a, b)
  {
    hide AttachedFor;
    hide IdentityOf;
  }

  lemma NewConfigurationStep(s: State, b: State, v: byte, config: Config)
    requires Consistent(s) && v !in s.configurations
    requires b.descriptor == s.descriptor && b.deliveries == s.deliveries
    requires b.configurations == s.configurations[v := config]
    requires config.value == v && AttachedFor(IdentityOf(s.descriptor), config)
    ensures Consistent(b) && Later(s, b)
  {
    hide AttachedFor;
    hide IdentityOf;
  }

  lemma ConfigurationStep(s: State, data: Bytes)
    requires Consistent(s)
    ensures Consistent(ReadConfiguration(s, data)) && Later(s, ReadConfiguration(s, data))
  {
    hide Parse;
    hide Attach;
    hide Strip;
    hide IdentityOf;
    hide Consistent;
    hide Later;
    var b := ReadConfiguration(s, data);
    if SameStore(s, b) {
      SameStoreStep(s, b);
    } else {
      var config := Parse(NO_CONFIG, data[..Le16(data[2..])]).config;
      ParsedIsBare(NO_CONFIG, data[..Le16(data[2..])]);
      AttachIsFunction(IdentityOf(s.descriptor), config);
      AttachKeepsValue(IdentityOf(s.descriptor), config);
      NewConfigurationStep(s, b, config.value, Attach(IdentityOf(s.descriptor), config));
    }
  }

  lemma AttachKeepsValue(id: Identity, config: Config)
    ensures Attach(id, config).value == config.value
  {
  }

  lemma NewDescriptorStep(s: State, b: State)
    requires Consistent(s) && s.descriptor.None? && b.configurations == s.configurations && b.deliveries == s.deliveries
    ensures Consistent(b) && Later(s, b)
  {
    assert IdentityOf(s.descriptor) == Identity(0, 0);
    hide IdentityOf;
    hide AttachedFor;
  }

  lemma DescriptorStep(s: State, setup: Setup, data: Bytes)
    requires Consistent(s) && (s.descriptor.Some? ==> ReadDescriptor(s, setup, data).descriptor == s.descriptor)
    ensures Consistent(ReadDescriptor(s, setup, data)) && Later(s, ReadDescriptor(s, setup, data))
  {
    hide ReadConfiguration;
    hide Consistent;
    hide Later;
    var b := ReadDescriptor(s, setup, data);
    ConfigurationStep(s, data);
    if SameStore(s, b) {
      SameStoreStep(s, b);
    } else if setup.value / 0x100 == USB_DT_DEVICE {
      NewDescriptorStep(s, b);
    }
  }

  lemma ApplyStep(s: State, call: Call)
    requires Consistent(s) && Undisturbed(s, call)
    ensures Consistent(Apply(s, call)) && Later(s, Apply(s, call))
  {
    hide ReadDescriptor;
    hide ExpertForControl;
    hide ExpertForEndpoint;
    hide Consistent;
    hide Later;
    var b := Apply(s, call);
    if SameStore(s, b) {
      SameStoreStep(s, b);
    } else {
      var counted := s.(controlPackets := s.controlPackets + 1, controlBytes := s.controlBytes + |call.data|);
      assert b == ReadDescriptor(counted, call.setup, call.data);
      SameStoreStep(s, counted);
      DescriptorStep(counted, call.setup, call.data);
      LaterIsTransitive(s, counted, b);
    }
    hide Apply;
  }

  lemma LaterIsTransitive(a: State, b: State, c: State)
    requires Later(a, b) && Later(b, c)
    ensures Later(a, c)
  {
  }
}
