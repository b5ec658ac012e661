/** The demultiplexer as it runs: buffers, counters and maps updated in place, one stream object per generation. */
module UsbMuxExpert {
  import opened Wire
  import M = MuxStream
  import opened UsbMux
  import opened InterfaceExperts

  class USBMUXInterfaceExpert {
    const decode: Decoder
    var inn: Bytes
    var out: Bytes
    var version: uint32
    var resyncs: nat
    var streamIndex: map<uint32, uint32>
    var streams: map<uint64, M.MuxStream>
    var serviceNames: map<uint16, string>
    var traffic: Traffic

    /** The values of the streams, and which entry each stream object belongs to. */
    ghost var values: map<uint64, M.Stream>
    ghost var owner: map<M.MuxStream, uint64>

    ghost function Repr(): set<M.MuxStream>
      reads this`owner
    {
      owner.Keys
    }

    /** Every entry has an object of its own, which holds the entry's value. */
    ghost predicate Stored()
      reads this`streams, this`values, this`owner, Repr()
    {
      && streams.Keys == values.Keys
      && (forall id <- streams :: streams[id] in owner && owner[streams[id]] == id)
      && (forall id <- streams :: streams[id].Value() == values[id])
    }

    ghost predicate Valid()
      reads this, Repr()
    {
      Stored() && TableValue().Linked()
    }

    ghost function TableValue(): Table
      reads this
    {
      Table(version, streamIndex, values, serviceNames)
    }

    ghost function Value(): Demux
      reads this
    {
      Demux(TableValue(), resyncs, inn, out, traffic)
    }

    constructor (decode: Decoder)
      ensures Valid() && Repr() == {}
      ensures this.decode == decode && Value() == Demux(EMPTY, 0, [], [], QUIET)
    {
      this.decode := decode;
      inn, out := [], [];
      version, resyncs, streamIndex, streams, serviceNames := 0, 0, map[], map[], map[];
      traffic := QUIET;
      values, owner := map[], map[];
    }

    /** Control transfers are only counted. */
    method ProcessControl(data: Bytes)
      requires Valid()
      modifies this`traffic
      ensures Valid() && Value() == old(Value()).(traffic := old(traffic).Control(data))
    {
      traffic := traffic.Control(data);
    }

    method CountBulk(data: Bytes)
      requires Valid()
      modifies this`traffic
      ensures Valid() && Value() == old(Value()).(traffic := old(traffic).Bulk(data))
    {
      traffic := traffic.Bulk(data);
    }

    method ProcessBulkOut(data: Bytes)
      requires Valid()
      modifies this, Repr()
      ensures Valid() && fresh(Repr() - old(Repr()))
      ensures Value() == FeedDemux(decode, old(Value()), true, data)
    {
      CountBulk(data);
      out := FeedDirection(true, out, data);
    }

    method ProcessBulkIn(data: Bytes)
      requires Valid()
      modifies this, Repr()
      ensures Valid() && fresh(Repr() - old(Repr()))
      ensures Value() == FeedDemux(decode, old(Value()), false, data)
    {
      CountBulk(data);
      inn := FeedDirection(false, inn, data);
    }

    /** Takes the data into a direction's buffer, which is handed back updated. */
    method FeedDirection(outbound: bool, buffered: Bytes, data: Bytes) returns (buffer: Bytes)
      requires Valid()
      modifies this, Repr()
      ensures Valid() && fresh(Repr() - old(Repr()))
      ensures inn == old(inn) && out == old(out) && traffic == old(traffic)
      ensures var fed := Feed(buffered, data);
              && buffer == fed.buffer && resyncs == old(resyncs) + fed.resyncs
              && TableValue() == ApplyPackets(decode, old(TableValue()), outbound, fed.packets)
    {
      hide Table.Linked;
      hide HeaderLength;
      hide Be32;
      buffer := buffered;
      if |data| == 0 { return; }
      buffer := buffer + data;
      ghost var whole := Reassemble(buffer);
      while |buffer| >= MUX_HEADER_V1
        invariant Valid() && fresh(Repr() - old(Repr()))
        invariant inn == old(inn) && out == old(out) && resyncs == old(resyncs) && traffic == old(traffic)
        invariant var left := Reassemble(buffer);
                  && whole.rest == left.rest && whole.discarded == left.discarded
                  && ApplyPackets(decode, old(TableValue()), outbound, whole.packets)
                     == ApplyPackets(decode, TableValue(), outbound, left.packets)
        decreases |buffer|
      {
        var protocol, length := Be32(buffer), Be32(buffer[4..]);
        if length < MUX_HEADER_V1 || length > MAX_MUX_PACKET || protocol > MUX_PROTO_TCP {
          resyncs := resyncs + 1;
          buffer := [];
          return;
        }

        if |buffer| < Min(length, MUX_HEADER_V2) { return; }
        var header := HeaderLength(buffer, length);
        if |buffer| < length { return; }

        ghost var left := Reassemble(buffer);
        ProcessPacket(outbound, Packet(protocol, buffer[header..length]));
        assert left.packets[1..] == Reassemble(buffer[length..]).packets;
        buffer := buffer[length..];
      }
    }

    method ProcessPacket(outbound: bool, packet: Packet)
      requires Valid()
      modifies this, Repr()
      ensures Valid() && fresh(Repr() - old(Repr()))
      ensures resyncs == old(resyncs) && inn == old(inn) && out == old(out) && traffic == old(traffic)
      ensures TableValue() == ApplyPacket(decode, old(TableValue()), outbound, packet)
    {
      if packet.protocol == MUX_PROTO_VERSION {
        ApplyPacketIsLinked(decode, TableValue(), outbound, packet);
        if |packet.payload| >= 4 { version := Be32(packet.payload); }
      } else if packet.protocol == MUX_PROTO_TCP {
        match ParseSegment(packet.payload) {
          case None =>
          case Some(segment) => ProcessTCP(outbound, segment);
        }
      }
    }

    /** A fresh stream object, named after the service known to listen on its device port. */
    method NewStreamObject(host: uint16, device: uint16) returns (stream: M.MuxStream)
      ensures fresh(stream) && stream.Value() == NewStream(serviceNames, host, device)
    {
      stream := new M.MuxStream(host, device);
      if device == M.LOCKDOWN_PORT {
        stream.SetServiceName("lockdownd");
      } else if device in serviceNames {
        stream.SetServiceName(serviceNames[device]);
      }
    }

    method Install(id: uint64, stream: M.MuxStream)
      requires Stored() && stream !in Repr()
      modifies this`streams, this`values, this`owner
      ensures Stored() && Repr() == old(Repr()) + {stream}
      ensures streams == old(streams)[id := stream]
      ensures values == old(values)[id := stream.Value()]
    {
      streams := streams[id := stream];
      values := values[id := stream.Value()];
      owner := owner[stream := id];
    }

    method BeginStream(host: uint16, device: uint16) returns (id: uint64)
      requires Valid()
      modifies this`streamIndex, this`streams, this`values, this`owner
      ensures Valid() && fresh(Repr() - old(Repr()))
      ensures TableValue() == UsbMux.BeginStream(old(TableValue()), host, device)
      ensures id == TableValue().LatestId(host, device) && id in streams
    {
      hide Table.Linked;
      hide StreamId;
      hide StreamPort;
      hide NewStream;
      hide M.MuxStream.Value;
      BeginIsLinked(TableValue(), host, device);
      ghost var next := UsbMux.BeginStream(TableValue(), host, device);
      var stream := NewStreamObject(host, device);
      var port := StreamPort(host, device);
      var index: uint32 := ((if port in streamIndex then streamIndex[port] else 0) as int + 1) % GENERATIONS;
      streamIndex := streamIndex[port := index];
      id := StreamId(host, device, index);
      Install(id, stream);
      assert TableValue() == next;
    }

    /** The identifier of the latest stream of a connection, which is begun when there is none yet. */
    method GetStreamId(host: uint16, device: uint16) returns (id: uint64)
      requires Valid()
      modifies this`streamIndex, this`streams, this`values, this`owner
      ensures Valid() && fresh(Repr() - old(Repr()))
      ensures TableValue() == if StreamPort(host, device) in old(streamIndex) then old(TableValue())
                       else UsbMux.BeginStream(old(TableValue()), host, device)
      ensures id == TableValue().LatestId(host, device) && id in streams
    {
      var port := StreamPort(host, device);
      if port !in streamIndex {
        id := BeginStream(host, device);
        return;
      }
      id := StreamId(host, device, streamIndex[port]);
      assert id == TableValue().LatestId(host, device);
    }

    /** The stream of a segment, begun first when the host asks for it. */
    method StreamFor(outbound: bool, segment: Segment) returns (id: uint64)
      requires Valid()
      modifies this`streamIndex, this`streams, this`values, this`owner
      ensures Valid() && fresh(Repr() - old(Repr()))
      ensures TableValue() == Opened(old(TableValue()), outbound, segment)
      ensures id == TableValue().LatestId(HostPort(outbound, segment), DevicePort(outbound, segment)) && id in streams
    {
      hide Table.Linked;
      hide UsbMux.BeginStream;
      var host, device := HostPort(outbound, segment), DevicePort(outbound, segment);
      if outbound && segment.Syn() && !segment.Ack() {
        id := BeginStream(host, device);
      } else {
        id := GetStreamId(host, device);
      }
    }

    method ProcessTCP(outbound: bool, segment: Segment)
      requires Valid()
      modifies this`streamIndex, this`streams, this`serviceNames, this`values, this`owner, Repr()
      ensures Valid() && fresh(Repr() - old(Repr()))
      ensures TableValue() == ApplySegment(decode, old(TableValue()), outbound, segment)
    {
      hide Table.Linked;
      hide Opened;
      ghost var before := TableValue();
      ApplySegmentIsLinked(decode, before, outbound, segment);
      var id := StreamFor(outbound, segment);
      ApplySegmentUpdates(decode, before, TableValue(), id, outbound, segment);
      hide ApplySegment;
      UpdateStream(id, outbound, segment);
    }

    method UpdateStream(id: uint64, outbound: bool, segment: Segment)
      requires Stored() && id in streams
      modifies this`serviceNames, this`values, streams[id]
      ensures Stored()
      ensures values == old(values)[id := Received(old(values[id]), outbound, segment)]
      ensures serviceNames == Learned(decode, old(serviceNames), old(values[id]), outbound, segment)
    {
      hide Received;
      hide Learned;
      Exchange(streams[id], outbound, segment);
      values := values[id := streams[id].Value()];
    }

    /** Hands a segment to its stream, and reads what it completed for service names. */
    method Exchange(stream: M.MuxStream, outbound: bool, segment: Segment)
      modifies this`serviceNames, stream
      ensures stream.Value() == Received(old(stream.Value()), outbound, segment)
      ensures serviceNames == Learned(decode, old(serviceNames), old(stream.Value()), outbound, segment)
    {
      if |segment.data| > 0 {
        var firstNew := |stream.messages|;
        if outbound {
          stream.SendBytes(segment.data);
        } else {
          stream.ReceiveBytes(segment.data);
        }
        assert stream.messages[firstNew..] == NewMessages(old(stream.Value()), outbound, segment);
        LearnServices(stream, firstNew);
      }
      if segment.Closes() { stream.Close(); }
    }

    method LearnServices(stream: M.MuxStream, firstNewMessage: nat)
      requires firstNewMessage <= |stream.messages|
      modifies this`serviceNames
      ensures serviceNames == if stream.device == M.LOCKDOWN_PORT
                              then Learn(decode, old(serviceNames), stream.messages[firstNewMessage..])
                              else old(serviceNames)
    {
      if stream.device != M.LOCKDOWN_PORT { return; }

      var messages := stream.messages;
      var i := firstNewMessage;
      while i < |messages|
        invariant firstNewMessage <= i <= |messages|
        invariant serviceNames == Learn(decode, old(serviceNames), messages[firstNewMessage..i])
      {
        var message := messages[i];
        assert messages[firstNewMessage..i + 1][..i - firstNewMessage] == messages[firstNewMessage..i];
        i := i + 1;
        if message.outbound { continue; }
        var reply := decode(message.binary, message.payload);
        if reply.service != "" && 0 < reply.port < 0x1_0000 {
          serviceNames := serviceNames[reply.port := reply.service];
        }
      }
      assert messages[firstNewMessage..i] == messages[firstNewMessage..];
    }
  }
}
