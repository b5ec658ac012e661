/** The stream table as a function of the segments received: which streams exist, and what each of them holds. */
module UsbMuxHistory {
  import opened Wire
  import opened MuxStream
  import opened UsbMux

  /** A segment, and the direction it travelled in. The flag bits are those of section 3.1 of RFC 9293. */
  datatype Arrival = Arrival(outbound: bool, segment: Segment) {
    function Host(): uint16 { if outbound then segment.source else segment.destination }
    function Device(): uint16 { if outbound then segment.destination else segment.source }
    predicate Of(host: uint16, device: uint16) { Host() == host && Device() == device }

    /** SYN without ACK, from the host. */
    predicate BareSyn() { outbound && segment.flags / 2 % 2 == 1 && segment.flags / 16 % 2 == 0 }

    /** FIN or RST. */
    predicate Ends() { segment.flags % 2 == 1 || segment.flags / 4 % 2 == 1 }
  }

  type History = seq<Arrival>

  function Before(h: History): History
    requires h != []
  {
    h[..|h| - 1]
  }

  function Latest(h: History): Arrival
    requires h != []
  {
    h[|h| - 1]
  }

  ghost function Run(decode: Decoder, h: History): (t: Table)
    ensures t.Linked()
    decreases |h|
  {
    if h == [] then EMPTY
    else
      var t := Run(decode, Before(h));
      ApplySegmentIsLinked(decode, t, Latest(h).outbound, Latest(h).segment);
      ApplySegment(decode, t, Latest(h).outbound, Latest(h).segment)
  }

  // ---- Generations ----

  /** How many streams a connection has had: one per bare SYN, and one for traffic that precedes any. */
  function Generations(h: History, host: uint16, device: uint16): nat
    decreases |h|
  {
    if h == [] then 0
    else
      var before := Generations(Before(h), host, device);
      if Latest(h).Of(host, device) && (Latest(h).BareSyn() || before == 0) then before + 1 else before
  }

  /** The segments of one generation of a connection, in order. */
  function Lifetime(h: History, host: uint16, device: uint16, g: nat): History
    decreases |h|
  {
    if h == [] then []
    else
      var before := Lifetime(Before(h), host, device, g);
      if Latest(h).Of(host, device) && Generations(h, host, device) == g then before + [Latest(h)] else before
  }

  /** What had been received when a generation began. */
  function Ancestry(h: History, host: uint16, device: uint16, g: nat): History
    requires 1 <= g <= Generations(h, host, device)
    decreases |h|
  {
    if Generations(Before(h), host, device) < g then Before(h) else Ancestry(Before(h), host, device, g)
  }

  function Replay(stream: Stream, arrivals: History): Stream
    decreases |arrivals|
  {
    if arrivals == [] then stream
    else Received(Replay(stream, Before(arrivals)), Latest(arrivals).outbound, Latest(arrivals).segment)
  }

  /** What a generation's stream should be: a new stream, named by what was known at its birth, that received
      exactly the segments of its lifetime. */
  ghost function Expected(decode: Decoder, h: History, host: uint16, device: uint16, g: nat): Stream
    requires 1 <= g <= Generations(h, host, device)
  {
    var names := Run(decode, Ancestry(h, host, device, g)).names;
    Replay(NewStream(names, host, device), Lifetime(h, host, device, g))
  }

  /** No connection has used up its 32-bit generation numbers. */
  ghost predicate Countable(h: History) {
    forall host: uint16, device: uint16 :: Generations(h, host, device) < GENERATIONS
  }

  ghost predicate EntryMatches(decode: Decoder, h: History, host: uint16, device: uint16, g: uint32) {
    var id, streams := StreamId(host, device, g), Run(decode, h).streams;
    && (id in streams <==> 1 <= g <= Generations(h, host, device))
    && (id in streams ==> streams[id] == Expected(decode, h, host, device, g))
  }

  ghost predicate IndexMatches(decode: Decoder, h: History, host: uint16, device: uint16) {
    var t := Run(decode, h);
    && t.IndexOf(host, device) == Generations(h, host, device)
    && (StreamPort(host, device) in t.index <==> Generations(h, host, device) > 0)
  }

  lemma {:induction false} FutureLifetimeIsEmpty(h: History, host: uint16, device: uint16, g: nat)
    requires g > Generations(h, host, device)
    ensures Lifetime(h, host, device, g) == []
    decreases |h|
  {
    if h == [] {
    } else {
      FutureLifetimeIsEmpty(Before(h), host, device, g);
    }
  }

  lemma CountableBefore(h: History)
    requires h != [] && Countable(h)
    ensures Countable(Before(h))
  {
    forall host: uint16, device: uint16
      ensures Generations(Before(h), host, device) < GENERATIONS
    {
      assert Generations(h, host, device) < GENERATIONS;
    }
  }

  /** One more segment: the table's new values, entry by entry. */
  lemma StepEntry(decode: Decoder, t: Table, a: Arrival, host: uint16, device: uint16, g: uint32)
    requires t.Linked()
    ensures var ready := Opened(t, a.outbound, a.segment);
            var after := ApplySegment(decode, t, a.outbound, a.segment);
            var id := StreamId(host, device, g);
            && after.index == ready.index
            && (id in after.streams <==> id in ready.streams)
            && (a.Of(host, device) && g == ready.IndexOf(host, device) ==>
                  id in ready.streams && after.streams[id] == Received(ready.streams[id], a.outbound, a.segment))
            && (!(a.Of(host, device) && g == ready.IndexOf(host, device)) && id in ready.streams ==>
                  after.streams[id] == ready.streams[id])
  {
    var ready := Opened(t, a.outbound, a.segment);
    OpenedIsLinked(t, a.outbound, a.segment);
    StreamIdInjective(host, device, g, a.Host(), a.Device(), ready.IndexOf(a.Host(), a.Device()));
    hide StreamId;
    hide StreamPort;
    hide Received;
    hide Learned;
    hide Opened;
  }

  /** Opening leaves every other entry alone. */
  lemma OpenEntry(t: Table, a: Arrival, host: uint16, device: uint16, g: uint32)
    ensures var ready := Opened(t, a.outbound, a.segment);
            var id := StreamId(host, device, g);
            if a.Of(host, device) && (a.BareSyn() || StreamPort(host, device) !in t.index) then
              && ready.IndexOf(host, device) == (t.IndexOf(host, device) as int + 1) % GENERATIONS
              && StreamPort(host, device) in ready.index
              && (id in ready.streams <==> id in t.streams || g == ready.IndexOf(host, device))
              && (g == ready.IndexOf(host, device) ==> ready.streams[id] == NewStream(t.names, host, device))
              && (id in ready.streams && g != ready.IndexOf(host, device) ==> ready.streams[id] == t.streams[id])
            else
              && ready.IndexOf(host, device) == t.IndexOf(host, device)
              && (StreamPort(host, device) in ready.index <==> StreamPort(host, device) in t.index)
              && (id in ready.streams <==> id in t.streams)
              && (id in ready.streams ==> ready.streams[id] == t.streams[id])
  {
    var ready := Opened(t, a.outbound, a.segment);
    StreamIdInjective(host, device, g, a.Host(), a.Device(), ready.IndexOf(a.Host(), a.Device()));
    hide StreamId;
    hide StreamPort;
    hide NewStream;
  }

  /** The table, entry by entry, is what the history says. */
  lemma {:induction false} TableIsHistory(decode: Decoder, h: History, host: uint16, device: uint16, g: uint32)
    requires Countable(h)
    ensures IndexMatches(decode, h, host, device) && EntryMatches(decode, h, host, device, g)
    decreases |h|
  {
    if h == [] {
    } else {
      CountableBefore(h);
      TableIsHistory(decode, Before(h), host, device, g);
      StepMatches(decode, h, host, device, g);
    }
  }

  lemma ExpectedStep(decode: Decoder, h: History, host: uint16, device: uint16, g: nat)
    requires h != [] && 1 <= g <= Generations(h, host, device)
    ensures var before, a := Before(h), Latest(h);
            var now := Expected(decode, h, host, device, g);
            if g > Generations(before, host, device) then
              now == Received(NewStream(Run(decode, before).names, host, device), a.outbound, a.segment)
            else if a.Of(host, device) && Generations(h, host, device) == g then
              now == Received(Expected(decode, before, host, device, g), a.outbound, a.segment)
            else now == Expected(decode, before, host, device, g)
  {
    hide Received;
    hide NewStream;
    hide Run;
    var before, a := Before(h), Latest(h);
    var life := Lifetime(before, host, device, g);
    if g > Generations(before, host, device) {
      FutureLifetimeIsEmpty(before, host, device, g);
      var born := NewStream(Run(decode, before).names, host, device);
      assert Replay(born, life) == born;
    }
    if a.Of(host, device) && Generations(h, host, device) == g {
      assert Before(life + [a]) == life && Latest(life + [a]) == a;
    }
  }

  lemma StepMatches(decode: Decoder, h: History, host: uint16, device: uint16, g: uint32)
    requires h != [] && Generations(h, host, device) < GENERATIONS
    requires IndexMatches(decode, Before(h), host, device) && EntryMatches(decode, Before(h), host, device, g)
    ensures IndexMatches(decode, h, host, device) && EntryMatches(decode, h, host, device, g)
  {
    IndexStep(decode, h, host, device);
    EntryStep(decode, h, host, device, g);
  }

  /** The table once the stream of the latest segment is open. */
  ghost function Readied(decode: Decoder, h: History): Table
    requires h != []
  {
    Opened(Run(decode, Before(h)), Latest(h).outbound, Latest(h).segment)
  }

  lemma IndexStep(decode: Decoder, h: History, host: uint16, device: uint16)
    requires h != [] && Generations(h, host, device) < GENERATIONS
    requires IndexMatches(decode, Before(h), host, device)
    ensures IndexMatches(decode, h, host, device)
    ensures Readied(decode, h).IndexOf(host, device) == Generations(h, host, device)
  {
    hide Generations;
    hide Arrival.BareSyn;
    hide Arrival.Of;
    hide ApplySegment;
    hide Opened;
    hide Run;
    hide StreamPort;
    hide Table.Linked;
    var t, a := Run(decode, Before(h)), Latest(h);
    RunStep(decode, h, host, device);
    OpenEntry(t, a, host, device, 0);
    StepEntry(decode, t, a, host, device, 0);
  }

  lemma EntryStep(decode: Decoder, h: History, host: uint16, device: uint16, g: uint32)
    requires h != [] && IndexMatches(decode, Before(h), host, device)
    requires Readied(decode, h).IndexOf(host, device) == Generations(h, host, device)
    requires EntryMatches(decode, Before(h), host, device, g)
    ensures EntryMatches(decode, h, host, device, g)
  {
    hide Generations;
    hide Arrival.BareSyn;
    hide Arrival.Of;
    hide ApplySegment;
    hide Opened;
    hide Received;
    hide NewStream;
    hide StreamId;
    hide StreamPort;
    hide Table.Linked;
    hide Table.IndexOf;
    hide Run;
    hide Expected;
    var t, a := Run(decode, Before(h)), Latest(h);
    RunStep(decode, h, host, device);
    OpenEntry(t, a, host, device, g);
    StepEntry(decode, t, a, host, device, g);
    if 1 <= g <= Generations(h, host, device) {
      ExpectedStep(decode, h, host, device, g);
    }
  }

  lemma RunStep(decode: Decoder, h: History, host: uint16, device: uint16)
    requires h != []
    ensures Run(decode, h) == ApplySegment(decode, Run(decode, Before(h)), Latest(h).outbound, Latest(h).segment)
    ensures var was, now := Generations(Before(h), host, device), Generations(h, host, device);
            now == if Latest(h).Of(host, device) && (Latest(h).BareSyn() || was == 0) then was + 1 else was
  {
  }
}
