/** Service names as a function of the lockdown replies seen, and the bytes of all streams taken together. */
module UsbMuxNames {
  import opened Wire
  import opened MuxStream
  import opened UsbMux
  import opened UsbMuxHistory
  import opened UsbMuxLaws

  // ---- Every lockdown message is read once ----

  /** A lockdown message, and the stream it arrived on. */
  datatype Entry = Entry(id: uint64, message: Message)

  function Tagged(id: uint64, messages: seq<Message>): seq<Entry>
    decreases |messages|
  {
    if messages == [] then []
    else Tagged(id, messages[..|messages| - 1]) + [Entry(id, messages[|messages| - 1])]
  }

  /** The messages a log holds for the streams in ids. */
  function MessagesOn(log: seq<Entry>, ids: iset<uint64>): seq<Message>
    decreases |log|
  {
    if log == [] then []
    else
      var before := MessagesOn(log[..|log| - 1], ids);
      if log[|log| - 1].id in ids then before + [log[|log| - 1].message] else before
  }

  const ALL: iset<uint64> := iset id: uint64 | true

  /** The stream the latest segment belongs to, as it finds it. */
  ghost function Touched(decode: Decoder, h: History): (r: (uint64, Stream))
    requires h != []
  {
    var t, a := Run(decode, Before(h)), Latest(h);
    OpenedIsLinked(t, a.outbound, a.segment);
    var ready := Opened(t, a.outbound, a.segment);
    var id := ready.LatestId(a.Host(), a.Device());
    (id, ready.streams[id])
  }

  /** What the segments completed on lockdown streams, in order. */
  ghost function Log(decode: Decoder, h: History): seq<Entry>
    decreases |h|
  {
    if h == [] then []
    else
      var (id, stream) := Touched(decode, h);
      var a := Latest(h);
      Log(decode, Before(h))
      + if a.Device() == LOCKDOWN_PORT then Tagged(id, NewMessages(stream, a.outbound, a.segment)) else []
  }

  lemma {:induction false} MessagesOnAppend(a: seq<Entry>, b: seq<Entry>, ids: iset<uint64>)
    ensures MessagesOn(a + b, ids) == MessagesOn(a, ids) + MessagesOn(b, ids)
    decreases |b|
  {
    if b == [] {
      assert a + b == a;
    } else {
      assert (a + b)[..|a + b| - 1] == a + b[..|b| - 1];
      MessagesOnAppend(a, b[..|b| - 1], ids);
    }
  }

  lemma {:induction false} MessagesOnTagged(id: uint64, messages: seq<Message>, ids: iset<uint64>)
    ensures MessagesOn(Tagged(id, messages), ids) == if id in ids then messages else []
    decreases |messages|
  {
    if messages == [] {
    } else {
      var init := messages[..|messages| - 1];
      MessagesOnTagged(id, init, ids);
      var tagged := Tagged(id, messages);
      assert tagged[..|tagged| - 1] == Tagged(id, init);
      assert messages == init + [messages[|messages| - 1]];
    }
  }

  lemma {:induction false} LearnAppend(decode: Decoder, names: map<uint16, string>, a: seq<Message>, b: seq<Message>)
    ensures Learn(decode, names, a + b) == Learn(decode, Learn(decode, names, a), b)
    decreases |b|
  {
    if b == [] {
      assert a + b == a;
    } else {
      assert (a + b)[..|a + b| - 1] == a + b[..|b| - 1];
      LearnAppend(decode, names, a, b[..|b| - 1]);
    }
  }

  lemma OpenedKeepsNames(t: Table, outbound: bool, segment: Segment)
    ensures Opened(t, outbound, segment).names == t.names
  {
  }

  lemma RunNamesStep(decode: Decoder, h: History)
    requires h != []
    ensures var (id, stream) := Touched(decode, h);
            Run(decode, h).names == Learned(decode, Run(decode, Before(h)).names, stream, Latest(h).outbound,
                Latest(h).segment)
            && stream.device == Latest(h).Device()
  {
    hide Learned;
    hide Received;
    hide StreamId;
    hide StreamPort;
    hide Opened;
    hide ApplySegment;
    var t, a := Run(decode, Before(h)), Latest(h);
    OpenedIsLinked(t, a.outbound, a.segment);
    var ready := Opened(t, a.outbound, a.segment);
    OpenedKeepsNames(t, a.outbound, a.segment);
    ApplySegmentUpdates(decode, t, ready, Touched(decode, h).0, a.outbound, a.segment);
    assert StreamId(a.Host(), a.Device(), ready.IndexOf(a.Host(), a.Device())) in ready.streams;
  }

  /** The names known are those the logged messages give. */
  lemma {:induction false} NamesFollowLog(decode: Decoder, h: History)
    ensures Run(decode, h).names == Learn(decode, map[], MessagesOn(Log(decode, h), ALL))
    decreases |h|
  {
    if h == [] {
    } else {
      NamesFollowLog(decode, Before(h));
      RunNamesStep(decode, h);
      var (id, stream) := Touched(decode, h);
      var completed := if Latest(h).Device() == LOCKDOWN_PORT
                  then NewMessages(stream, Latest(h).outbound, Latest(h).segment) else [];
      var before := Log(decode, Before(h));
      assert Log(decode, h) == before + Tagged(id, completed);
      MessagesOnAppend(before, Tagged(id, completed), ALL);
      MessagesOnTagged(id, completed, ALL);
      LearnAppend(decode, map[], MessagesOn(before, ALL), completed);
      hide Run;
      hide Log;
      hide Touched;
      hide NewMessages;
    }
  }

  /** The device says which service is at the port. */
  predicate Names(decode: Decoder, message: Message, port: uint16) {
    var reply := decode(message.binary, message.payload);
    !message.outbound && reply.service != "" && reply.port == port && port > 0
  }

  lemma NamedIsNames(decode: Decoder, message: Message, port: uint16)
    ensures var named := Named(decode, message);
            if Names(decode, message, port)
            then named == Some((port, decode(message.binary, message.payload).service))
            else named.Some? ==> named.value.0 != port
  {
  }

  predicate NamesLast(decode: Decoder, messages: seq<Message>, port: uint16, k: int) {
    && 0 <= k < |messages| && Names(decode, messages[k], port)
    && forall j | k < j < |messages| :: !Names(decode, messages[j], port)
  }

  /** What a stream to the port must be called, after these messages. */
  ghost predicate IsServiceName(decode: Decoder, messages: seq<Message>, port: uint16, service: string) {
    if port == 62078 then service == "lockdownd"
    else
      && (forall k | NamesLast(decode, messages, port, k) ::
            service == decode(messages[k].binary, messages[k].payload).service)
      && ((forall k | 0 <= k < |messages| :: !Names(decode, messages[k], port)) ==> service == "")
  }

  /** Some message names the port. */
  ghost predicate SomeNames(decode: Decoder, messages: seq<Message>, port: uint16) {
    exists k :: 0 <= k < |messages| && Names(decode, messages[k], port)
  }

  lemma LearnStep(decode: Decoder, messages: seq<Message>, port: uint16)
    requires messages != []
    ensures var last, names := messages[|messages| - 1], Learn(decode, map[], messages);
            var before := Learn(decode, map[], messages[..|messages| - 1]);
            if Names(decode, last, port)
            then port in names && names[port] == decode(last.binary, last.payload).service
            else (port in names <==> port in before) && (port in names ==> names[port] == before[port])
  {
    hide Names;
    NamedIsNames(decode, messages[|messages| - 1], port);
    hide Named;
  }

  lemma NamesLastStep(decode: Decoder, messages: seq<Message>, port: uint16, k: int)
    requires messages != []
    ensures NamesLast(decode, messages, port, k)
       <==> if Names(decode, messages[|messages| - 1], port) then k == |messages| - 1
            else NamesLast(decode, messages[..|messages| - 1], port, k)
  {
    hide Names;
    var init := messages[..|messages| - 1];
    assert forall j | 0 <= j < |init| :: init[j] == messages[j];
  }

  /** A port is named exactly by the last message of the device that names it. */
  lemma {:induction false} LearnIsLast(decode: Decoder, messages: seq<Message>, port: uint16)
    ensures var names := Learn(decode, map[], messages);
            && (port in names <==> SomeNames(decode, messages, port))
            && (forall k | NamesLast(decode, messages, port, k) ::
                  port in names && names[port] == decode(messages[k].binary, messages[k].payload).service)
    decreases |messages|
  {
    if messages == [] {
    } else {
      hide Names;
      hide SomeNames;
      hide Learn;
      var init, last := messages[..|messages| - 1], messages[|messages| - 1];
      LearnIsLast(decode, init, port);
      LearnStep(decode, messages, port);
      NamesMore(decode, messages, port);
      forall k | NamesLast(decode, messages, port, k)
        ensures
          var names := Learn(decode, map[], messages);
          port in names && names[port] == decode(messages[k].binary, messages[k].payload).service
      {
        NamesLastStep(decode, messages, port, k);
      }
    }
  }

  lemma NamesMore(decode: Decoder, messages: seq<Message>, port: uint16)
    requires messages != []
    ensures var init, last := messages[..|messages| - 1], messages[|messages| - 1];
            SomeNames(decode, messages, port) <==> SomeNames(decode, init, port) || Names(decode, last, port)
  {
    hide Names;
    var init := messages[..|messages| - 1];
    if SomeNames(decode, init, port) {
      var k :| 0 <= k < |init| && Names(decode, init[k], port);
      assert Names(decode, messages[k], port);
    }
  }

  lemma {:induction false} LoggedStreamsExist(decode: Decoder, h: History, id: uint64)
    requires id !in Run(decode, h).streams
    ensures MessagesOn(Log(decode, h), iset{id}) == []
    decreases |h|
  {
    if h == [] {
    } else {
      var t, a := Run(decode, Before(h)), Latest(h);
      var (touched, stream) := Touched(decode, h);
      OpenedIsLinked(t, a.outbound, a.segment);
      assert touched in Run(decode, h).streams && t.streams.Keys <= Run(decode, h).streams.Keys;
      LoggedStreamsExist(decode, Before(h), id);
      var completed := if a.Device() == LOCKDOWN_PORT then NewMessages(stream, a.outbound, a.segment) else [];
      MessagesOnAppend(Log(decode, Before(h)), Tagged(touched, completed), iset{id});
      MessagesOnTagged(touched, completed, iset{id});
      assert Log(decode, h) == Log(decode, Before(h)) + Tagged(touched, completed);
    }
  }

  /** Every message of a lockdown stream is in the log once, in the order it was decoded. */
  lemma {:induction false} LogIsComplete(decode: Decoder, h: History, host: uint16, g: uint32)
    requires Countable(h) && 1 <= g <= Generations(h, host, LOCKDOWN_PORT)
    ensures var id := StreamId(host, LOCKDOWN_PORT, g);
            && id in Run(decode, h).streams
            && MessagesOn(Log(decode, h), iset{id}) == Run(decode, h).streams[id].messages
    decreases |h|
  {
    var id := StreamId(host, LOCKDOWN_PORT, g);
    CountableBefore(h);
    TableIsHistory(decode, h, host, LOCKDOWN_PORT, g);
    TableIsHistory(decode, Before(h), host, LOCKDOWN_PORT, g);
    if g <= Generations(Before(h), host, LOCKDOWN_PORT) {
      LogIsComplete(decode, Before(h), host, g);
    } else {
      LoggedStreamsExist(decode, Before(h), id);
    }
    LogStep(decode, h, host, g);
  }

  lemma LogStep(decode: Decoder, h: History, host: uint16, g: uint32)
    requires h != [] && Countable(h)
    requires var id, before := StreamId(host, LOCKDOWN_PORT, g), Run(decode, Before(h)).streams;
             && id in Run(decode, h).streams
             && MessagesOn(Log(decode, Before(h)), iset{id}) == if id in before then before[id].messages else []
    ensures var id := StreamId(host, LOCKDOWN_PORT, g);
            MessagesOn(Log(decode, h), iset{id}) == Run(decode, h).streams[id].messages
  {
    var a := Latest(h);
    var id := StreamId(host, LOCKDOWN_PORT, g);
    var (touched, stream) := Touched(decode, h);
    var completed := if a.Device() == LOCKDOWN_PORT then NewMessages(stream, a.outbound, a.segment) else [];
    assert Log(decode, h) == Log(decode, Before(h)) + Tagged(touched, completed);
    MessagesOnAppend(Log(decode, Before(h)), Tagged(touched, completed), iset{id});
    MessagesOnTagged(touched, completed, iset{id});
    TouchedStep(decode, h);
    if id == touched { TouchedPorts(decode, h, host, LOCKDOWN_PORT, g); }
    ReceivedMessages(stream, a);
    hide Log;
    hide MessagesOn;
    hide Run;
    hide Touched;
    hide NewMessages;
    hide Received;
    hide StreamId;
    var soFar := MessagesOn(Log(decode, Before(h)), iset{id});
    assert soFar + [] == soFar && [] + completed == completed;
  }

  lemma TouchedPorts(decode: Decoder, h: History, host: uint16, device: uint16, g: uint32)
    requires h != [] && Touched(decode, h).0 == StreamId(host, device, g)
    ensures Latest(h).Of(host, device)
  {
    var a := Latest(h);
    var ready := Opened(Run(decode, Before(h)), a.outbound, a.segment);
    StreamIdInjective(host, device, g, a.Host(), a.Device(), ready.IndexOf(a.Host(), a.Device()));
    hide StreamId;
    hide Run;
    hide Opened;
  }

  lemma ReceivedMessages(s: Stream, a: Arrival)
    ensures Received(s, a.outbound, a.segment).messages == s.messages + NewMessages(s, a.outbound, a.segment)
  {
  }

  lemma {:induction false} ReplayKeepsService(stream: Stream, arrivals: History)
    ensures Replay(stream, arrivals).service == stream.service
    decreases |arrivals|
  {
    if arrivals == [] {
    } else {
      ReplayKeepsService(stream, Before(arrivals));
      ReceivedEvolves(Replay(stream, Before(arrivals)), Latest(arrivals));
    }
  }

  /** A stream is named, for good: lockdownd on its port, and any other after the last message before its birth that
      names its port, if there is one. */
  lemma ServiceNamesFollowHistory(decode: Decoder, h: History, host: uint16, device: uint16, g: uint32)
    requires Countable(h) && 1 <= g <= Generations(h, host, device)
    ensures var id := StreamId(host, device, g);
            var known := MessagesOn(Log(decode, Ancestry(h, host, device, g)), ALL);
            && id in Run(decode, h).streams
            && IsServiceName(decode, known, device, Run(decode, h).streams[id].service)
  {
    var ancestry := Ancestry(h, host, device, g);
    TableIsHistory(decode, h, host, device, g);
    NamesFollowLog(decode, ancestry);
    LearnIsLast(decode, MessagesOn(Log(decode, ancestry), ALL), device);
    ReplayKeepsService(NewStream(Run(decode, ancestry).names, host, device), Lifetime(h, host, device, g));
    hide Run;
    hide Learn;
    hide Names;
    hide Replay;
    hide MessagesOn;
    hide Log;
  }

  // ---- Bytes ----

  /** The bytes counted by the streams whose keys are given. */
  ghost function BytesOn(keys: set<uint64>, streams: map<uint64, Stream>): nat
    requires keys <= streams.Keys
    decreases |keys|
  {
    if keys == {} then 0
    else
      var k :| k in keys;
      streams[k].inn.bytes + streams[k].out.bytes + BytesOn(keys - {k}, streams)
  }

  function DataBytes(h: History): nat
    decreases |h|
  {
    if h == [] then 0 else DataBytes(Before(h)) + |Latest(h).segment.data|
  }

  lemma {:induction false} BytesWithout(keys: set<uint64>, streams: map<uint64, Stream>, k: uint64)
    requires keys <= streams.Keys && k in keys
    ensures BytesOn(keys, streams) == streams[k].inn.bytes + streams[k].out.bytes + BytesOn(keys - {k}, streams)
    decreases |keys|
  {
    var first :| first in keys && BytesOn(keys, streams)
      == streams[first].inn.bytes + streams[first].out.bytes + BytesOn(keys - {first}, streams);
    if first == k {
    } else {
      BytesWithout(keys - {first}, streams, k);
      BytesWithout(keys - {k}, streams, first);
      assert keys - {first} - {k} == keys - {k} - {first};
    }
  }

  lemma {:induction false} SameBytes(keys: set<uint64>, a: map<uint64, Stream>, b: map<uint64, Stream>)
    requires keys <= a.Keys && keys <= b.Keys && forall k <- keys :: a[k] == b[k]
    ensures BytesOn(keys, a) == BytesOn(keys, b)
    decreases |keys|
  {
    if keys == {} {
    } else {
      var k :| k in keys;
      BytesWithout(keys, a, k);
      BytesWithout(keys, b, k);
      SameBytes(keys - {k}, a, b);
    }
  }

  lemma ReceivedBytes(s: Stream, a: Arrival)
    ensures var after := Received(s, a.outbound, a.segment);
            after.inn.bytes + after.out.bytes == s.inn.bytes + s.out.bytes + |a.segment.data|
  {
    hide Framing;
  }

  /** What all streams have counted is what all segments carried. */
  lemma {:induction false} BytesAreConserved(decode: Decoder, h: History)
    requires Countable(h)
    ensures var streams := Run(decode, h).streams; BytesOn(streams.Keys, streams) == DataBytes(h)
    decreases |h|
  {
    if h == [] {
    } else {
      CountableBefore(h);
      BytesAreConserved(decode, Before(h));
      var t, a := Run(decode, Before(h)), Latest(h);
      var (id, stream) := Touched(decode, h);
      TouchedStep(decode, h);
      var before, after := t.streams, Run(decode, h).streams;
      hide Run;
      hide Touched;
      ReceivedBytes(stream, a);
      hide Received;
      var others := after.Keys - {id};
      BytesWithout(after.Keys, after, id);
      SameBytes(others, before, after);
      if id in before {
        BytesWithout(before.Keys, before, id);
        assert before.Keys - {id} == others;
      } else {
        assert before.Keys == others;
      }
    }
  }

  /** The latest segment adds to one stream, which is new and empty or was there before. */
  lemma TouchedStep(decode: Decoder, h: History)
    requires h != [] && Countable(h)
    ensures var (id, stream) := Touched(decode, h);
            var before, after := Run(decode, Before(h)).streams, Run(decode, h).streams;
            && after == before[id := Received(stream, Latest(h).outbound, Latest(h).segment)]
            && (if id in before then stream == before[id]
                else stream.inn == stream.out == FRESH && stream.messages == [])
  {
    hide Received;
    hide Learned;
    hide ApplySegment;
    hide Opened;
    hide Generations;
    hide StreamId;
    hide StreamPort;
    var t, a := Run(decode, Before(h)), Latest(h);
    var ready := Opened(t, a.outbound, a.segment);
    OpenedIsNew(decode, h);
    ApplySegmentUpdates(decode, t, ready, Touched(decode, h).0, a.outbound, a.segment);
    RunStep(decode, h, a.Host(), a.Device());
    hide Run;
    hide Table.LatestId;
  }

  /** A stream that is opened takes a key of its own. */
  lemma OpenedIsNew(decode: Decoder, h: History)
    requires h != [] && Countable(h)
    ensures var t, a := Run(decode, Before(h)), Latest(h);
            var ready, id := Opened(t, a.outbound, a.segment), Touched(decode, h).0;
            if id in t.streams then ready == t
            else ready.streams == t.streams[id := NewStream(t.names, a.Host(), a.Device())]
  {
    hide Run;
    hide Generations;
    hide Opened;
    hide StreamId;
    hide StreamPort;
    hide NewStream;
    hide Expected;
    hide Table.Linked;
    hide Arrival.BareSyn;
    var t, a := Run(decode, Before(h)), Latest(h);
    var host, device := a.Host(), a.Device();
    OpenStreams(t, a);
    CountableBefore(h);
    RunStep(decode, h, host, device);
    var was, now := Generations(Before(h), host, device), Generations(h, host, device);
    assert now < GENERATIONS;
    TableIsHistory(decode, Before(h), host, device, now);
  }

  lemma OpenStreams(t: Table, a: Arrival)
    requires t.Linked()
    ensures var host, device := a.Host(), a.Device();
            var ready := Opened(t, a.outbound, a.segment);
            var index := (t.IndexOf(host, device) as int + 1) % GENERATIONS;
            if a.BareSyn() || StreamPort(host, device) !in t.index then
              && ready.LatestId(host, device) == StreamId(host, device, index)
              && ready.streams == t.streams[StreamId(host, device, index) := NewStream(t.names, host, device)]
            else ready == t && ready.LatestId(host, device) in t.streams
  {
    OpenedIsLinked(t, a.outbound, a.segment);
    hide NewStream;
    hide StreamId;
    hide StreamPort;
  }
}
