/** One TCP connection tunnelled over usbmux, and the property list framing of each of its directions. */
module MuxStream {
  import opened Wire

  const MAX_PLIST_MESSAGE: nat := 64 * 1024 * 1024
  const LOCKDOWN_PORT: uint16 := 62078

  /** "<?xml" */
  const XML_PREFIX: Bytes := [0x3C, 0x3F, 0x78, 0x6D, 0x6C]
  /** "bplist00" */
  const BINARY_PREFIX: Bytes := [0x62, 0x70, 0x6C, 0x69, 0x73, 0x74, 0x30, 0x30]

  datatype Encoding = Unknown | Plist | Raw | TLS {
    predicate Opaque() { Raw? || TLS? }
  }

  /** A framed message: its undecoded payload, and whether the binary or the XML decoder is given it. */
  datatype Message = Message(outbound: bool, payload: Bytes, binary: bool)

  /** The value of one direction of a stream. */
  datatype Flow = Flow(encoding: Encoding, bytes: nat, buffer: Bytes)

  const FRESH: Flow := Flow(Unknown, 0, [])

  /** The value of a stream. */
  datatype Stream = Stream(
    host: uint16, device: uint16, closed: bool, service: string, inn: Flow, out: Flow, messages: seq<Message>)
  {
    function FlowOf(outbound: bool): Flow { if outbound then out else inn }
  }

  predicate HasSignature(payload: Bytes) {
    XML_PREFIX <= payload || BINARY_PREFIX <= payload
  }

  /** A TLS record header: handshake or application data, version 3.x. */
  predicate LooksLikeTLS(buffer: Bytes) {
    |buffer| >= 3 && (buffer[0] == 0x16 || buffer[0] == 0x17) && buffer[1] == 0x03 && buffer[2] <= 0x04
  }

  /** What a sequence of received bytes turns into: the framing decided on, the bytes left over, the messages. */
  datatype Framed = Framed(encoding: Encoding, buffer: Bytes, messages: seq<Message>)

  function Decoded(outbound: bool, payload: Bytes): Message {
    Message(outbound, payload, BINARY_PREFIX <= payload)
  }

  /** One turn of the drain loop: it stops with a verdict, or takes a message off the front. */
  datatype Turn = Stop(encoding: Encoding, buffer: Bytes) | Take(message: Message, rest: Bytes)

  function TurnOf(outbound: bool, encoding: Encoding, buffer: Bytes): (turn: Turn)
    ensures turn.Take? ==> |turn.rest| < |buffer|
  {
    if |buffer| < 4 then Stop(encoding, buffer)
    else if LooksLikeTLS(buffer) then Stop(TLS, [])
    else
      var size := Be32(buffer);
      var rest := buffer[4..];
      if size == 0 || size > MAX_PLIST_MESSAGE then Stop(Raw, [])
      else if encoding.Unknown? && |rest| < Min(size, |BINARY_PREFIX|) then Stop(encoding, buffer)
      else if encoding.Unknown? && !HasSignature(rest) then Stop(Raw, [])
      else if |rest| < size then Stop(Plist, buffer)
      else Take(Decoded(outbound, rest[..size]), buffer[4 + size..])
  }

  /** The functional counterpart of the drain loop. */
  function Framing(outbound: bool, encoding: Encoding, buffer: Bytes): Framed
    decreases |buffer|
  {
    match TurnOf(outbound, encoding, buffer)
    case Stop(verdict, left) => Framed(verdict, left, [])
    case Take(message, rest) =>
      var more := Framing(outbound, Plist, rest);
      more.(messages := [message] + more.messages)
  }

  datatype Absorbed = Absorbed(flow: Flow, messages: seq<Message>)

  /** The functional counterpart of one call to consume. */
  function Absorb(outbound: bool, flow: Flow, data: Bytes): Absorbed {
    var counted := flow.(bytes := flow.bytes + |data|);
    if data == [] || flow.encoding.Opaque() then Absorbed(counted, [])
    else
      var framed := Framing(outbound, flow.encoding, flow.buffer + data);
      Absorbed(counted.(encoding := framed.encoding, buffer := framed.buffer), framed.messages)
  }

  /** The bytes of a direction arriving in pieces. */
  function AbsorbAll(outbound: bool, flow: Flow, chunks: seq<Bytes>): Absorbed
    decreases |chunks|
  {
    if chunks == [] then Absorbed(flow, [])
    else
      var first := Absorb(outbound, flow, chunks[0]);
      var rest := AbsorbAll(outbound, first.flow, chunks[1..]);
      Absorbed(rest.flow, first.messages + rest.messages)
  }

  /** Data arriving on one direction of a stream. */
  function Deliver(stream: Stream, outbound: bool, data: Bytes): Stream {
    var absorbed := Absorb(outbound, stream.FlowOf(outbound), data);
    var s := stream.(messages := stream.messages + absorbed.messages);
    if outbound then s.(out := absorbed.flow) else s.(inn := absorbed.flow)
  }

  class MuxStream {
    const host: uint16
    const device: uint16
    var closed: bool
    var serviceName: string
    var inn: Flow
    var out: Flow
    var messages: seq<Message>

    function Value(): Stream
      reads this
    {
      Stream(host, device, closed, serviceName, inn, out, messages)
    }

    constructor (host: uint16, device: uint16)
      ensures Value() == Stream(host, device, false, "", FRESH, FRESH, [])
    {
      this.host, this.device := host, device;
      closed, serviceName, inn, out, messages := false, "", FRESH, FRESH, [];
    }

    method SetServiceName(name: string)
      modifies this
      ensures Value() == old(Value()).(service := name)
    {
      serviceName := name;
    }

    method Close()
      modifies this
      ensures Value() == old(Value()).(closed := true)
    {
      closed := true;
    }

    method ReceiveBytes(data: Bytes)
      modifies this
      ensures Value() == Deliver(old(Value()), false, data)
    {
      inn := Consume(false, inn, data);
    }

    method SendBytes(data: Bytes)
      modifies this
      ensures Value() == Deliver(old(Value()), true, data)
    {
      out := Consume(true, out, data);
    }

    /** Takes the data into a direction, which is handed back updated. */
    method Consume(outbound: bool, flow: Flow, data: Bytes) returns (direction: Flow)
      modifies this`messages
      ensures var absorbed := Absorb(outbound, flow, data);
              direction == absorbed.flow && messages == old(messages) + absorbed.messages
    {
      direction := flow.(bytes := flow.bytes + |data|);
      if |data| == 0 { return; }
      if direction.encoding == Raw || direction.encoding == TLS { return; }
      direction := direction.(buffer := direction.buffer + data);
      direction := Drain(outbound, direction);
    }

    method Drain(outbound: bool, flow: Flow) returns (direction: Flow)
      requires !flow.encoding.Opaque()
      modifies this`messages
      ensures var framed := Framing(outbound, flow.encoding, flow.buffer);
              && direction == flow.(encoding := framed.encoding, buffer := framed.buffer)
              && messages == old(messages) + framed.messages
    {
      hide LooksLikeTLS;
      hide HasSignature;
      hide Be32;
      direction := flow;
      ghost var total := Framing(outbound, flow.encoding, flow.buffer);
      while |direction.buffer| >= 4
        invariant !direction.encoding.Opaque() && direction.bytes == flow.bytes
        invariant var left := Framing(outbound, direction.encoding, direction.buffer);
                  && total.encoding == left.encoding
                  && total.buffer == left.buffer
                  && old(messages) + total.messages == messages + left.messages
        decreases |direction.buffer|
      {
        if LooksLikeTLS(direction.buffer) {
          direction := direction.(encoding := TLS, buffer := []);
          return;
        }

        var size := Be32(direction.buffer);
        if size == 0 || size > MAX_PLIST_MESSAGE {
          direction := direction.(encoding := Raw, buffer := []);
          return;
        }

        var payload := direction.buffer[4..];
        if direction.encoding == Unknown {
          if |payload| < Min(size, |BINARY_PREFIX|) { return; }
          if HasSignature(payload) {
            direction := direction.(encoding := Plist);
          } else {
            direction := direction.(encoding := Raw, buffer := []);
            return;
          }
        }

        if |payload| < size { return; }

        var message := Decoded(outbound, payload[..size]);
        assert TurnOf(outbound, direction.encoding, direction.buffer) == Take(message, direction.buffer[4 + size..]);
        ghost var more := Framing(outbound, Plist, direction.buffer[4 + size..]).messages;
        hide TurnOf;
        hide Decoded;
        Associates(messages, [message], more);
        messages := messages + [message];
        direction := direction.(buffer := direction.buffer[4 + size..]);
      }
    }
  }
}
