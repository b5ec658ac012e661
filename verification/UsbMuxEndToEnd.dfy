/** From bulk transfers to messages: whatever is length prefixed, cut into segments, wrapped in usbmux packets and
    cut again into transfers comes out as the messages that went in. */
module UsbMuxEndToEnd {
  import opened Wire
  import opened MuxStream
  import opened UsbMux
  import opened UsbMuxWire
  import opened UsbMuxHistory
  import opened UsbMuxLaws
  import Laws = MuxStreamLaws

  /** What a direction that carried these payloads must have become. */
  predicate Delivered(flow: Flow, messages: seq<Message>, outbound: bool, payloads: seq<Bytes>)
    requires Laws.AllPlausible(payloads)
  {
    && messages == Laws.Messages(outbound, payloads)
    && flow == if payloads == [] then FRESH else Flow(Plist, |Laws.Frames(payloads)|, [])
  }

  /** Payloads that framing can carry: plausible sizes, and a property list in the first. */
  predicate Script(payloads: seq<Bytes>) {
    Laws.AllPlausible(payloads) && (payloads != [] ==> Laws.IsPlist(payloads[0]))
  }

  /** A generation whose segments carry a script, in whatever portions, ends with exactly that script. */
  lemma GenerationDelivered(
    decode: Decoder, h: History, host: uint16, device: uint16, g: uint32, outbound: bool, payloads: seq<Bytes>)
    requires Countable(h) && 1 <= g <= Generations(h, host, device) && Script(payloads)
    requires Flat(DataOf(Lifetime(h, host, device, g), outbound)) == Laws.Frames(payloads)
    ensures var id, streams := StreamId(host, device, g), Run(decode, h).streams;
            && id in streams
            && Delivered(streams[id].FlowOf(outbound), OneDirection(streams[id].messages, outbound), outbound, payloads)
  {
    TableIsHistory(decode, h, host, device, g);
    var names := Run(decode, Ancestry(h, host, device, g)).names;
    var life := Lifetime(h, host, device, g);
    var chunks := DataOf(life, outbound);
    ReplayDirection(NewStream(names, host, device), life, outbound);
    if payloads == [] {
      SilentIsFresh(outbound, FRESH, chunks);
    } else {
      Laws.RoundTrip(outbound, payloads);
      assert Laws.Recovered(outbound, payloads);
    }
    hide AbsorbAll;
    hide Run;
    hide Replay;
    hide OneDirection;
    hide Laws.Frames;
    hide Laws.Messages;
  }

  lemma {:induction false} SilentIsFresh(outbound: bool, flow: Flow, chunks: seq<Bytes>)
    requires Flat(chunks) == []
    ensures AbsorbAll(outbound, flow, chunks) == Absorbed(flow, [])
    decreases |chunks|
  {
    if chunks == [] {
    } else {
      assert chunks[0] == [] && Flat(chunks[1..]) == [];
      SilentIsFresh(outbound, flow, chunks[1..]);
    }
  }

  // ---- Connections that are opened once ----

  /** The segments of a connection. */
  function ConnectionOf(h: History, host: uint16, device: uint16): History
    decreases |h|
  {
    if h == [] then []
    else
      var before := ConnectionOf(Before(h), host, device);
      if Latest(h).Of(host, device) then before + [Latest(h)] else before
  }

  /** The segments of a direction. */
  function SideOf(h: History, outbound: bool): History
    decreases |h|
  {
    if h == [] then []
    else
      var before := SideOf(Before(h), outbound);
      if Latest(h).outbound == outbound then before + [Latest(h)] else before
  }

  predicate NeverOpens(h: History) {
    forall i | 0 <= i < |h| :: !h[i].BareSyn()
  }

  lemma BeforeAdded(h: History, a: Arrival)
    ensures Before(h + [a]) == h && Latest(h + [a]) == a
  {
  }

  lemma {:induction false} SidesOfConnection(h: History, host: uint16, device: uint16, outbound: bool)
    ensures SideOf(ConnectionOf(h, host, device), outbound) == ConnectionOf(SideOf(h, outbound), host, device)
    decreases |h|
  {
    hide Arrival.Of;
    if h == [] {
    } else {
      SidesOfConnection(Before(h), host, device, outbound);
      BeforeAdded(ConnectionOf(Before(h), host, device), Latest(h));
      BeforeAdded(SideOf(Before(h), outbound), Latest(h));
    }
  }

  /** A side holds all the data of its direction, both hold all the segments, and one of them all that open. */
  lemma {:induction false} SidesAreEnough(h: History, outbound: bool)
    ensures DataOf(h, outbound) == DataOf(SideOf(h, outbound), outbound)
    ensures |h| == |SideOf(h, true)| + |SideOf(h, false)|
    ensures NeverOpens(h) <==> NeverOpens(SideOf(h, true))
    decreases |h|
  {
    if h == [] {
    } else {
      SidesAreEnough(Before(h), outbound);
      BeforeAdded(SideOf(Before(h), true), Latest(h));
      BeforeAdded(SideOf(Before(h), false), Latest(h));
      NeverOpensAdded(Before(h), Latest(h));
      NeverOpensAdded(SideOf(Before(h), true), Latest(h));
      assert Before(h) + [Latest(h)] == h;
      hide NeverOpens;
    }
  }

  lemma NeverOpensAdded(h: History, a: Arrival)
    ensures NeverOpens(h + [a]) <==> NeverOpens(h) && !a.BareSyn()
    ensures a.BareSyn() ==> a.outbound
  {
    if NeverOpens(h + [a]) {
      forall i | 0 <= i < |h|
        ensures !h[i].BareSyn()
      {
        assert (h + [a])[i] == h[i];
      }
      assert (h + [a])[|h|] == a;
    }
  }

  /** A connection that is never opened has one generation, of all its segments. */
  lemma {:induction false} OneLifetime(h: History, host: uint16, device: uint16)
    requires NeverOpens(ConnectionOf(h, host, device))
    ensures Lifetime(h, host, device, 1) == ConnectionOf(h, host, device)
    ensures Generations(h, host, device) == if ConnectionOf(h, host, device) == [] then 0 else 1
    decreases |h|
  {
    if h == [] {
    } else {
      if Latest(h).Of(host, device) { NeverOpensAdded(ConnectionOf(Before(h), host, device), Latest(h)); }
      OneLifetime(Before(h), host, device);
      hide Arrival.Of;
      hide Arrival.BareSyn;
      hide NeverOpens;
    }
  }

  /** The segments among the packets of a direction. */
  function Parsed(packets: seq<Packet>, outbound: bool): History
    decreases |packets|
  {
    if packets == [] then []
    else
      var before, last := Parsed(packets[..|packets| - 1], outbound), packets[|packets| - 1];
      var parsed := ParseSegment(last.payload);
      if last.protocol == MUX_PROTO_TCP && parsed.Some? then before + [Arrival(outbound, parsed.value)] else before
  }

  lemma {:induction false} SidesAreParsed(sent: seq<Sent>, outbound: bool)
    ensures SideOf(Arrivals(sent), outbound) == Parsed(PacketsOf(sent, outbound), outbound)
    decreases |sent|
  {
    hide ParseSegment;
    if sent == [] {
    } else {
      var init, last := sent[..|sent| - 1], sent[|sent| - 1];
      SidesAreParsed(init, outbound);
      var packets, parsed := PacketsOf(init, outbound), ParseSegment(last.packet.payload);
      assert (packets + [last.packet])[..|packets|] == packets;
      if parsed.Some? { BeforeAdded(Arrivals(init), Arrival(last.outbound, parsed.value)); }
    }
  }

  lemma {:induction false} SideIsSent(wire: seq<Wired>, outbound: bool)
    ensures PacketsOf(SentOf(wire), outbound) == Side(wire, outbound)
    decreases |wire|
  {
    if wire == [] {
    } else {
      var init := wire[..|wire| - 1];
      SideIsSent(init, outbound);
      assert SentOf(wire)[..|wire| - 1] == SentOf(init);
    }
  }

  /** In whatever order packets of the two directions complete, each direction holds the segments put on the wire. */
  lemma SidesAreSegments(decode: Decoder, transfers: seq<Transfer>, wire: seq<Wired>, outbound: bool)
    requires Carries(transfers, wire)
    ensures SideOf(Arrivals(Completed(transfers)), outbound) == SideOf(SegmentsOf(wire), outbound)
  {
    WireIsDemultiplexed(decode, transfers, wire);
    SidesAreParsed(Completed(transfers), outbound);
    SidesAreParsed(SentOf(wire), outbound);
    SideIsSent(wire, outbound);
    CarriedIsRead(transfers, wire);
    hide Completed;
    hide Arrivals;
    hide Side;
    hide SideOf;
    hide Parsed;
  }

  // ---- Connections ----

  /** The stream of a generation holds exactly the messages sent. */
  ghost predicate Received(s: Demux, host: uint16, device: uint16, g: uint32, sentOut: seq<Bytes>, sentIn: seq<Bytes>)
    requires Script(sentOut) && Script(sentIn)
  {
    var id := StreamId(host, device, g);
    && id in s.table.streams
    && var stream := s.table.streams[id];
    && Delivered(stream.out, OneDirection(stream.messages, true), true, sentOut)
    && Delivered(stream.inn, OneDirection(stream.messages, false), false, sentIn)
  }

  /** What the generations of a connection carry: length prefixed messages, in whatever segments. */
  ghost predicate CarriesScripts(
    h: History, host: uint16, device: uint16, g: nat, sentOut: seq<Bytes>, sentIn: seq<Bytes>)
  {
    && 1 <= g <= Generations(h, host, device) && Script(sentOut) && Script(sentIn)
    && Flat(DataOf(Lifetime(h, host, device, g), true)) == Laws.Frames(sentOut)
    && Flat(DataOf(Lifetime(h, host, device, g), false)) == Laws.Frames(sentIn)
  }

  lemma ScriptsAreReceived(
    decode: Decoder, transfers: seq<Transfer>, wire: seq<Wired>,
    host: uint16, device: uint16, g: uint32, sentOut: seq<Bytes>, sentIn: seq<Bytes>)
    requires Carries(transfers, wire) && |wire| < GENERATIONS
    requires CarriesScripts(Arrivals(Completed(transfers)), host, device, g, sentOut, sentIn)
    ensures Received(FeedTransfers(decode, transfers), host, device, g, sentOut, sentIn)
  {
    WireIsDemultiplexed(decode, transfers, wire);
    SentIsCounted(Completed(transfers));
    SideIsCounted(wire);
    var h := Arrivals(Completed(transfers));
    ShortIsCountable(h);
    GenerationDelivered(decode, h, host, device, g, true, sentOut);
    GenerationDelivered(decode, h, host, device, g, false, sentIn);
    hide FeedTransfers;
    hide Completed;
    hide Arrivals;
    hide Delivered;
    hide Run;
    hide Generations;
    hide Lifetime;
    hide Laws.Frames;
    hide Carries;
  }

  lemma {:induction false} SentIsCounted(sent: seq<Sent>)
    ensures |Arrivals(sent)| <= |PacketsOf(sent, true)| + |PacketsOf(sent, false)|
    decreases |sent|
  {
    hide ParseSegment;
    if sent == [] {
    } else {
      SentIsCounted(sent[..|sent| - 1]);
    }
  }

  lemma {:induction false} SideIsCounted(wire: seq<Wired>)
    ensures |wire| == |Side(wire, true)| + |Side(wire, false)|
    decreases |wire|
  {
    if wire == [] {
    } else {
      SideIsCounted(wire[..|wire| - 1]);
    }
  }

  /** Every connection is its own: each of its generations ends up with exactly the messages its own segments carried,
      in both directions, whatever else was on the wire and however all of it was cut and interleaved. */
  lemma ConnectionDelivered(
    decode: Decoder, transfers: seq<Transfer>, wire: seq<Wired>,
    host: uint16, device: uint16, g: uint32, sentOut: seq<Bytes>, sentIn: seq<Bytes>)
    requires Carries(transfers, wire) && InOrder(transfers, wire) && |wire| < GENERATIONS
    requires CarriesScripts(SegmentsOf(wire), host, device, g, sentOut, sentIn)
    ensures var s := FeedTransfers(decode, transfers);
            && s.inn == [] && s.out == [] && s.resyncs == 0
            && Received(s, host, device, g, sentOut, sentIn)
  {
    hide InOrder;
    hide Carries;
    hide CarriesScripts;
    hide Received;
    hide FeedTransfers;
    hide Completed;
    hide SentOf;
    CompletedInOrder(transfers, wire);
    CarriedIsRead(transfers, wire);
    WireIsDemultiplexed(decode, transfers, wire);
    ScriptsAreReceived(decode, transfers, wire, host, device, g, sentOut, sentIn);
  }

  /** A connection whose opening is not on the wire has one generation in whatever order its packets complete, so the
      messages of each direction are those of that direction's segments. */
  lemma UnopenedIsDelivered(
    decode: Decoder, transfers: seq<Transfer>, wire: seq<Wired>,
    host: uint16, device: uint16, sentOut: seq<Bytes>, sentIn: seq<Bytes>)
    requires Carries(transfers, wire) && |wire| < GENERATIONS && Script(sentOut) && Script(sentIn)
    requires var connection := ConnectionOf(SegmentsOf(wire), host, device);
             && connection != [] && NeverOpens(connection)
             && Flat(DataOf(connection, true)) == Laws.Frames(sentOut)
             && Flat(DataOf(connection, false)) == Laws.Frames(sentIn)
    ensures var s := FeedTransfers(decode, transfers);
            && s.inn == [] && s.out == [] && s.resyncs == 0
            && Received(s, host, device, 1, sentOut, sentIn)
  {
    hide FeedTransfers;
    hide Completed;
    hide Arrivals;
    hide Side;
    hide SideOf;
    hide ConnectionOf;
    hide NeverOpens;
    hide Carries;
    hide Received;
    hide Lifetime;
    hide Generations;
    hide Laws.Frames;
    WireIsDemultiplexed(decode, transfers, wire);
    var h := Arrivals(Completed(transfers));
    ConnectionSides(decode, transfers, wire, host, device);
    OneLifetime(h, host, device);
    ScriptsAreReceived(decode, transfers, wire, host, device, 1, sentOut, sentIn);
  }

  /** What a connection's segments are, up to how the two directions interleave. */
  lemma ConnectionSides(
    decode: Decoder, transfers: seq<Transfer>, wire: seq<Wired>, host: uint16, device: uint16)
    requires Carries(transfers, wire)
    ensures var a := ConnectionOf(Arrivals(Completed(transfers)), host, device);
            var b := ConnectionOf(SegmentsOf(wire), host, device);
            && |a| == |b| && (NeverOpens(a) <==> NeverOpens(b))
            && DataOf(a, true) == DataOf(b, true) && DataOf(a, false) == DataOf(b, false)
  {
    hide Completed;
    hide Arrivals;
    hide SegmentsOf;
    hide SideOf;
    hide ConnectionOf;
    hide NeverOpens;
    hide Carries;
    hide DataOf;
    var h, sent := Arrivals(Completed(transfers)), SegmentsOf(wire);
    SidesAreSegments(decode, transfers, wire, true);
    SidesAreSegments(decode, transfers, wire, false);
    SidesOfConnection(h, host, device, true);
    SidesOfConnection(h, host, device, false);
    SidesOfConnection(sent, host, device, true);
    SidesOfConnection(sent, host, device, false);
    SidesAreEnough(ConnectionOf(h, host, device), true);
    SidesAreEnough(ConnectionOf(h, host, device), false);
    SidesAreEnough(ConnectionOf(sent, host, device), true);
    SidesAreEnough(ConnectionOf(sent, host, device), false);
  }

  /** A capture of fewer than 2^32 segments cannot use up the generation numbers. */
  lemma ShortIsCountable(h: History)
    requires |h| < GENERATIONS
    ensures Countable(h)
  {
    forall host: uint16, device: uint16
      ensures Generations(h, host, device) < GENERATIONS
    {
      GenerationsAreCounted(h, host, device);
    }
  }

  /** A connection has one generation when only its very first segment may be a bare SYN. */
  lemma {:induction false} OpenedOnce(h: History, host: uint16, device: uint16)
    requires forall j, k | 0 <= j < k < |h| :: h[j].Of(host, device) && h[k].Of(host, device) ==> !h[k].BareSyn()
    ensures Generations(h, host, device) == if exists k :: 0 <= k < |h| && h[k].Of(host, device) then 1 else 0
    decreases |h|
  {
    if h == [] {
    } else {
      OpenedOnce(Before(h), host, device);
      if exists k :: 0 <= k < |h| && h[k].Of(host, device) {
        var k :| 0 <= k < |h| && h[k].Of(host, device);
        assert k < |Before(h)| ==> Before(h)[k].Of(host, device);
      }
      if exists k :: 0 <= k < |Before(h)| && Before(h)[k].Of(host, device) {
        var k :| 0 <= k < |Before(h)| && Before(h)[k].Of(host, device);
        assert h[k].Of(host, device);
      }
      hide Arrival.Of;
      hide Arrival.BareSyn;
    }
  }
}
