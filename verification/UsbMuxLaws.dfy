/** What follows from the history: frozen generations, conserved bytes, service names, and per-direction contents. */
module UsbMuxLaws {
  import opened Wire
  import opened MuxStream
  import opened UsbMux
  import opened UsbMuxHistory
  import Laws = MuxStreamLaws

  // ---- Generation numbers ----

  /** The streams of every connection are numbered from one to its generation count. */
  ghost predicate Exact(t: Table) {
    forall h: uint16, d: uint16, i: uint32 :: StreamId(h, d, i) in t.streams <==> 1 <= i <= t.IndexOf(h, d)
  }

  /** On every run the streams are so numbered if and only if no connection has used up its generation numbers. */
  lemma HistoryIsExact(decode: Decoder, h: History)
    ensures Exact(Run(decode, h)) <==> Countable(h)
  {
    if Countable(h) {
      CountableIsExact(decode, h);
    } else {
      var host: uint16, device: uint16 :| Generations(h, host, device) >= GENERATIONS;
      WrappedMatches(decode, h, host, device);
      assert StreamId(host, device, 0) in Run(decode, h).streams;
      hide Run;
    }
  }

  /** The index counts generations as far as its 32 bits go; once it has wrapped there is a stream numbered zero. */
  ghost predicate Wrapped(t: Table, g: nat, host: uint16, device: uint16) {
    && t.IndexOf(host, device) == g % GENERATIONS
    && (StreamPort(host, device) in t.index <==> g > 0)
    && (g >= GENERATIONS ==> StreamId(host, device, 0) in t.streams)
  }

  lemma {:induction false} WrappedMatches(decode: Decoder, h: History, host: uint16, device: uint16)
    ensures Wrapped(Run(decode, h), Generations(h, host, device), host, device)
    decreases |h|
  {
    hide Wrapped;
    hide ApplySegment;
    if h == [] {
      NothingWrapped(host, device);
    } else {
      WrappedMatches(decode, Before(h), host, device);
      RunStep(decode, h, host, device);
      WrappedStep(decode, Run(decode, Before(h)), Latest(h), Generations(Before(h), host, device), host, device);
    }
  }

  lemma NothingWrapped(host: uint16, device: uint16)
    ensures Wrapped(EMPTY, 0, host, device)
  {
  }

  lemma WrappedStep(decode: Decoder, t: Table, a: Arrival, g: nat, host: uint16, device: uint16)
    requires t.Linked() && Wrapped(t, g, host, device)
    ensures Wrapped(ApplySegment(decode, t, a.outbound, a.segment),
                    if a.Of(host, device) && (a.BareSyn() || g == 0) then g + 1 else g, host, device)
  {
    var ready := Opened(t, a.outbound, a.segment);
    ApplySegmentUpdates(decode, t, ready, ready.LatestId(a.Host(), a.Device()), a.outbound, a.segment);
    hide ApplySegment;
    hide Received;
    hide Table.Linked;
    StreamIdInjective(host, device, 0, a.Host(), a.Device(), 0);
    hide StreamId;
    hide StreamPort;
    CounterStep(g);
    hide Learned;
  }

  lemma CounterStep(g: nat)
    ensures (g % GENERATIONS + 1) % GENERATIONS == (g + 1) % GENERATIONS
    ensures g < GENERATIONS <= g + 1 ==> (g + 1) % GENERATIONS == 0
  {
  }

  lemma CountableIsExact(decode: Decoder, h: History)
    requires Countable(h)
    ensures Exact(Run(decode, h))
  {
    forall host: uint16, device: uint16, i: uint32
      ensures StreamId(host, device, i) in Run(decode, h).streams <==> 1 <= i <= Run(decode, h).IndexOf(host, device)
    {
      TableIsHistory(decode, h, host, device, i);
    }
  }

  /** Numbering survives a new stream exactly when the 32-bit generation counter does not wrap. */
  lemma BeginKeepsExact(t: Table, host: uint16, device: uint16)
    requires Exact(t)
    ensures Exact(BeginStream(t, host, device)) <==> t.IndexOf(host, device) + 1 < GENERATIONS
  {
    var b := BeginStream(t, host, device);
    var was: uint32 := t.IndexOf(host, device);
    StreamIdInjective(host, device, 0, host, device, was);
    if was + 1 < GENERATIONS {
      forall h: uint16, d: uint16, i: uint32
        ensures StreamId(h, d, i) in b.streams <==> 1 <= i <= b.IndexOf(h, d)
      {
        StreamIdInjective(h, d, i, host, device, b.IndexOf(host, device));
        assert StreamId(h, d, i) in t.streams <==> 1 <= i <= t.IndexOf(h, d);
      }
    } else {
      assert b.IndexOf(host, device) == 0 && StreamId(host, device, 0) in b.streams;
    }
  }

  /** A host that opens the same connection over and over. */
  function Syns(host: uint16, device: uint16, n: nat): (h: History)
    ensures |h| == n
  {
    if n == 0 then [] else Syns(host, device, n - 1) + [Syn(host, device)]
  }

  function Syn(host: uint16, device: uint16): Arrival {
    Arrival(true, Segment(host, device, 2, []))
  }

  lemma SynBegins(host: uint16, device: uint16)
    ensures Syn(host, device).Of(host, device) && Syn(host, device).BareSyn()
  {
  }

  lemma {:induction false} SynsAreCounted(host: uint16, device: uint16, n: nat)
    ensures Generations(Syns(host, device, n), host, device) == n
    decreases n
  {
    hide Syn;
    hide Arrival.Of;
    hide Arrival.BareSyn;
    if n == 0 {
    } else {
      SynsAreCounted(host, device, n - 1);
      SynBegins(host, device);
      var h := Syns(host, device, n);
      assert Before(h) == Syns(host, device, n - 1) && Latest(h) == Syn(host, device);
    }
  }

  /** As many as there are generation numbers break the numbering, and one less does not. */
  lemma CounterWraps(decode: Decoder, host: uint16, device: uint16)
    ensures Exact(Run(decode, Syns(host, device, GENERATIONS - 1)))
    ensures !Exact(Run(decode, Syns(host, device, GENERATIONS)))
  {
    var one, all := Syns(host, device, GENERATIONS - 1), Syns(host, device, GENERATIONS);
    SynsAreCounted(host, device, GENERATIONS);
    hide Syns;
    hide Exact;
    hide Run;
    hide Generations;
    HistoryIsExact(decode, all);
    HistoryIsExact(decode, one);
    forall h: uint16, d: uint16
      ensures Generations(one, h, d) < GENERATIONS
    {
      GenerationsAreCounted(one, h, d);
    }
  }

  lemma {:induction false} GenerationsAreCounted(h: History, host: uint16, device: uint16)
    ensures Generations(h, host, device) <= |h|
    decreases |h|
  {
    if h == [] {
    } else {
      GenerationsAreCounted(Before(h), host, device);
    }
  }

  // ---- Streams over time ----

  /** How a stream may change: it keeps its ports and name, stays closed, and only ever gains. */
  predicate Evolves(s: Stream, later: Stream) {
    && later.host == s.host && later.device == s.device && later.service == s.service
    && (s.closed ==> later.closed)
    && s.messages <= later.messages
    && s.inn.bytes <= later.inn.bytes && s.out.bytes <= later.out.bytes
  }

  lemma ReceivedEvolves(s: Stream, a: Arrival)
    ensures Evolves(s, Received(s, a.outbound, a.segment))
  {
    hide Framing;
  }

  /** A stream evolves as more arrives, and is frozen once a later generation has begun. */
  lemma {:induction false} StreamsEvolve(
    decode: Decoder, h: History, more: History, host: uint16, device: uint16, g: uint32)
    requires Countable(h + more) && 1 <= g <= Generations(h, host, device)
    ensures Countable(h) && Generations(h, host, device) <= Generations(h + more, host, device)
    ensures var id, now, later := StreamId(host, device, g), Run(decode, h).streams, Run(decode, h + more).streams;
            && id in now && id in later
            && Evolves(now[id], later[id])
            && (g < Generations(h, host, device) ==> later[id] == now[id])
    decreases |more|
  {
    if more == [] {
      assert h + more == h;
      TableIsHistory(decode, h, host, device, g);
    } else {
      assert Before(h + more) == h + Before(more);
      CountableBefore(h + more);
      StreamsEvolve(decode, h, Before(more), host, device, g);
      TableIsHistory(decode, h + Before(more), host, device, g);
      TableIsHistory(decode, h + more, host, device, g);
      ExpectedStep(decode, h + more, host, device, g);
      ReceivedEvolves(Expected(decode, h + Before(more), host, device, g), Latest(h + more));
    }
  }

  // ---- Closing ----

  /** Some segment carries FIN or RST. */
  predicate Ended(arrivals: History) {
    exists i :: 0 <= i < |arrivals| && arrivals[i].Ends()
  }

  lemma {:induction false} ReplayCloses(stream: Stream, arrivals: History)
    ensures Replay(stream, arrivals).closed <==> stream.closed || Ended(arrivals)
    decreases |arrivals|
  {
    hide Deliver;
    if arrivals == [] {
    } else {
      var init, last := Before(arrivals), Latest(arrivals);
      ReplayCloses(stream, init);
      if i :| 0 <= i < |init| && init[i].Ends() { assert arrivals[i].Ends(); }
      if i :| 0 <= i < |arrivals| && arrivals[i].Ends() { assert i < |init| ==> init[i].Ends(); }
      DeliverKeepsOpen(Replay(stream, init), last.outbound, last.segment.data);
    }
  }

  lemma DeliverKeepsOpen(s: Stream, outbound: bool, data: Bytes)
    ensures Deliver(s, outbound, data).closed == s.closed
  {
  }

  /** The stream of a generation is closed exactly when one of its segments ends it. */
  lemma ClosedByItsEnd(decode: Decoder, h: History, host: uint16, device: uint16, g: uint32)
    requires Countable(h) && 1 <= g <= Generations(h, host, device)
    ensures var id, streams := StreamId(host, device, g), Run(decode, h).streams;
            id in streams && (streams[id].closed <==> Ended(Lifetime(h, host, device, g)))
  {
    hide Run;
    hide Replay;
    hide Lifetime;
    hide Ended;
    hide Countable;
    hide StreamId;
    TableIsHistory(decode, h, host, device, g);
    var names := Run(decode, Ancestry(h, host, device, g)).names;
    ReplayCloses(NewStream(names, host, device), Lifetime(h, host, device, g));
  }

  // ---- Contents of one direction ----

  function OneDirection(messages: seq<Message>, outbound: bool): seq<Message>
    decreases |messages|
  {
    if messages == [] then []
    else
      var before := OneDirection(messages[..|messages| - 1], outbound);
      var last := messages[|messages| - 1];
      if last.outbound == outbound then before + [last] else before
  }

  /** The payloads of one direction, segment by segment. */
  function DataOf(arrivals: History, outbound: bool): seq<Bytes>
    decreases |arrivals|
  {
    if arrivals == [] then []
    else
      var before := DataOf(Before(arrivals), outbound);
      if Latest(arrivals).outbound == outbound then before + [Latest(arrivals).segment.data] else before
  }

  lemma {:induction false} OneDirectionAppend(a: seq<Message>, b: seq<Message>, outbound: bool)
    ensures OneDirection(a + b, outbound) == OneDirection(a, outbound) + OneDirection(b, outbound)
    decreases |b|
  {
    if b == [] {
      assert a + b == a;
    } else {
      assert (a + b)[..|a + b| - 1] == a + b[..|b| - 1];
      OneDirectionAppend(a, b[..|b| - 1], outbound);
    }
  }

  predicate AllFrom(messages: seq<Message>, outbound: bool) {
    forall i | 0 <= i < |messages| :: messages[i].outbound == outbound
  }

  lemma {:induction false} OneDirectionOf(messages: seq<Message>, from: bool, outbound: bool)
    requires AllFrom(messages, from)
    ensures OneDirection(messages, outbound) == if from == outbound then messages else []
    decreases |messages|
  {
    if messages == [] {
    } else {
      var init := messages[..|messages| - 1];
      assert messages == init + [messages[|messages| - 1]];
      OneDirectionOf(init, from, outbound);
    }
  }

  lemma {:induction false} FramingDirection(outbound: bool, encoding: Encoding, buffer: Bytes)
    ensures AllFrom(Framing(outbound, encoding, buffer).messages, outbound)
    decreases |buffer|
  {
    var turn := TurnOf(outbound, encoding, buffer);
    if !turn.Take? {
    } else {
      assert turn.message.outbound == outbound;
      FramingDirection(outbound, Plist, turn.rest);
      assert Framing(outbound, encoding, buffer).messages
          == [turn.message] + Framing(outbound, Plist, turn.rest).messages;
    }
  }

  lemma AbsorbDirection(outbound: bool, flow: Flow, data: Bytes)
    ensures AllFrom(Absorb(outbound, flow, data).messages, outbound)
  {
    FramingDirection(outbound, flow.encoding, flow.buffer + data);
    hide Framing;
  }

  lemma {:induction false} AbsorbAllAppend(outbound: bool, flow: Flow, chunks: seq<Bytes>, last: Bytes)
    ensures var before := AbsorbAll(outbound, flow, chunks);
            AbsorbAll(outbound, flow, chunks + [last]) == Laws.Then(before, Absorb(outbound, before.flow, last))
    decreases |chunks|
  {
    hide Absorb;
    if chunks == [] {
      assert chunks + [last] == [last] && [last][1..] == [];
      var one := Absorb(outbound, flow, last);
      assert one.messages + [] == one.messages && [] + one.messages == one.messages;
    } else {
      assert (chunks + [last])[1..] == chunks[1..] + [last];
      var first := Absorb(outbound, flow, chunks[0]);
      AbsorbAllAppend(outbound, first.flow, chunks[1..], last);
      var rest := AbsorbAll(outbound, first.flow, chunks[1..]);
      Associates(first.messages, rest.messages, Absorb(outbound, rest.flow, last).messages);
    }
  }

  /** A segment only changes its own direction, as absorbing its data would. */
  lemma ReceivedDirection(s: Stream, a: Arrival, outbound: bool)
    ensures var after := Received(s, a.outbound, a.segment);
            if a.outbound == outbound then
              var absorbed := Absorb(outbound, s.FlowOf(outbound), a.segment.data);
              && after.FlowOf(outbound) == absorbed.flow
              && OneDirection(after.messages, outbound) == OneDirection(s.messages, outbound) + absorbed.messages
            else
              && after.FlowOf(outbound) == s.FlowOf(outbound)
              && OneDirection(after.messages, outbound) == OneDirection(s.messages, outbound)
  {
    hide Framing;
    hide OneDirection;
    hide AllFrom;
    var absorbed := Absorb(a.outbound, s.FlowOf(a.outbound), a.segment.data);
    AbsorbDirection(a.outbound, s.FlowOf(a.outbound), a.segment.data);
    OneDirectionOf(absorbed.messages, a.outbound, outbound);
    OneDirectionAppend(s.messages, absorbed.messages, outbound);
    assert s.messages + [] == s.messages;
    assert OneDirection(s.messages, outbound) + [] == OneDirection(s.messages, outbound);
    assert a.segment.data == [] ==> absorbed == Absorbed(s.FlowOf(a.outbound), []);
    hide Absorb;
  }

  /** Each direction of a stream holds exactly what framing its own segments' data yields. */
  lemma {:induction false} ReplayDirection(stream: Stream, arrivals: History, outbound: bool)
    requires stream.inn == stream.out == FRESH && stream.messages == []
    ensures var s := Replay(stream, arrivals);
            AbsorbAll(outbound, FRESH, DataOf(arrivals, outbound))
            == Absorbed(if outbound then s.out else s.inn, OneDirection(s.messages, outbound))
    decreases |arrivals|
  {
    if arrivals == [] {
    } else {
      var before := Replay(stream, Before(arrivals));
      ReplayDirection(stream, Before(arrivals), outbound);
      ReceivedDirection(before, Latest(arrivals), outbound);
      AbsorbAllAppend(outbound, FRESH, DataOf(Before(arrivals), outbound), Latest(arrivals).segment.data);
      hide Absorb;
      hide AbsorbAll;
      hide OneDirection;
      hide Received;
    }
  }
}
