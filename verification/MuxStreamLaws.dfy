/** What the property list framing guarantees, whatever way the bytes were cut on their way in. */
module MuxStreamLaws {
  import opened Wire
  import opened MuxStream

  // ---- Cutting the input ----

  /** The first message is shorter than a signature, and bytes past its end complete one: the classifier, which
      looks at everything received so far, then decides by how much happened to have arrived. */
  predicate SignatureOverrun(w: Bytes) {
    && |w| >= 4
    && 0 < Be32(w) < |BINARY_PREFIX|
    && (BINARY_PREFIX <= w[4..] || (Be32(w) < |XML_PREFIX| && XML_PREFIX <= w[4..]))
  }

  lemma SignatureExtends(b: Bytes, c: Bytes)
    ensures HasSignature(b) ==> HasSignature(b + c)
    ensures HasSignature(b + c) && |b| >= |BINARY_PREFIX| ==> HasSignature(b)
    ensures XML_PREFIX <= b + c && |b| >= |XML_PREFIX| ==> XML_PREFIX <= b
  {
    if |b| >= |XML_PREFIX| {
      assert (b + c)[..|XML_PREFIX|] == b[..|XML_PREFIX|];
    }
    if |b| >= |BINARY_PREFIX| {
      assert (b + c)[..|BINARY_PREFIX|] == b[..|BINARY_PREFIX|];
    }
  }

  /** Framing b and then c picks up exactly where framing b stopped. */
  ghost predicate Resumes(outbound: bool, encoding: Encoding, b: Bytes, c: Bytes) {
    var first, whole := Framing(outbound, encoding, b), Framing(outbound, encoding, b + c);
    if first.encoding.Opaque() then whole == first
    else
      var rest := Framing(outbound, first.encoding, first.buffer + c);
      whole == rest.(messages := first.messages + rest.messages)
  }

  lemma HeaderExtends(b: Bytes, c: Bytes)
    requires |b| >= 4
    ensures Be32(b + c) == Be32(b) && (b + c)[4..] == b[4..] + c && LooksLikeTLS(b + c) == LooksLikeTLS(b)
  {
    assert (b + c)[0] == b[0] && (b + c)[1] == b[1] && (b + c)[2] == b[2] && (b + c)[3] == b[3];
    assert (b + c)[4..] == b[4..] + c;
  }

  /** Once as many bytes are present as the classifier waits for, more of them do not change its answer. */
  lemma ClassifierExtends(b: Bytes, c: Bytes)
    requires |b| >= 4 && 0 < Be32(b) && |b[4..]| >= Min(Be32(b), |BINARY_PREFIX|)
    requires !SignatureOverrun(b + c)
    ensures HasSignature(b[4..]) == HasSignature(b[4..] + c)
  {
    HeaderExtends(b, c);
    hide Be32;
    SignatureExtends(b[4..], c);
  }

  /** More input does not change a verdict or a message already taken; it is only added to what is left. */
  lemma TurnExtends(outbound: bool, encoding: Encoding, b: Bytes, c: Bytes)
    requires !encoding.Opaque()
    requires encoding.Unknown? ==> !SignatureOverrun(b + c)
    ensures match TurnOf(outbound, encoding, b)
            case Take(message, rest) => TurnOf(outbound, encoding, b + c) == Take(message, rest + c)
            case Stop(verdict, left) =>
              if verdict.Opaque() then left == [] && TurnOf(outbound, encoding, b + c) == Stop(verdict, [])
              else left == b && TurnOf(outbound, encoding, b + c) == TurnOf(outbound, verdict, b + c)
  {
    hide Be32;
    hide LooksLikeTLS;
    hide HasSignature;
    hide SignatureOverrun;
    hide Decoded;
    if |b| >= 4 {
      HeaderExtends(b, c);
      var size, rest := Be32(b), b[4..];
      if encoding.Unknown? && 0 < size && |rest| >= Min(size, |BINARY_PREFIX|) {
        ClassifierExtends(b, c);
      }
      if size <= |rest| {
        assert (b + c)[4 + size..] == b[4 + size..] + c;
        assert (rest + c)[..size] == rest[..size];
      }
    }
  }

  lemma {:induction false} FramingResumes(outbound: bool, encoding: Encoding, b: Bytes, c: Bytes)
    requires !encoding.Opaque()
    requires encoding.Unknown? ==> !SignatureOverrun(b + c)
    ensures Resumes(outbound, encoding, b, c)
    decreases |b|
  {
    hide TurnOf;
    hide SignatureOverrun;
    TurnExtends(outbound, encoding, b, c);
    match TurnOf(outbound, encoding, b)
    case Stop(verdict, left) =>
      if !verdict.Opaque() {
        var rest := Framing(outbound, verdict, b + c);
        assert [] + rest.messages == rest.messages;
      }
    case Take(message, rest) =>
      FramingResumes(outbound, Plist, rest, c);
      var more := Framing(outbound, Plist, rest);
      if !more.encoding.Opaque() {
        var last := Framing(outbound, more.encoding, more.buffer + c);
        Associates([message], more.messages, last.messages);
      }
  }

  function Then(first: Absorbed, rest: Absorbed): Absorbed {
    Absorbed(rest.flow, first.messages + rest.messages)
  }

  /** More input cannot make the classifier overrun the first message of this flow. */
  predicate Settled(flow: Flow, more: Bytes) {
    flow.encoding.Unknown? ==> !SignatureOverrun(flow.buffer + more)
  }

  /** Receiving a and b in one piece or in two is the same. */
  lemma AbsorbResumes(outbound: bool, flow: Flow, a: Bytes, b: Bytes)
    requires Settled(flow, a + b)
    ensures var first := Absorb(outbound, flow, a);
            Absorb(outbound, flow, a + b) == Then(first, Absorb(outbound, first.flow, b))
  {
    var first := Absorb(outbound, flow, a);
    var second := Absorb(outbound, first.flow, b);
    assert [] + second.messages == second.messages && first.messages + [] == first.messages;
    if a == [] {
      assert a + b == b;
    } else if b == [] {
      assert a + b == a;
    } else if !flow.encoding.Opaque() {
      Associates(flow.buffer, a, b);
      FramingResumes(outbound, flow.encoding, flow.buffer + a, b);
    }
  }

  lemma {:induction false} OnlyUnknownStaysUnknown(outbound: bool, encoding: Encoding, buffer: Bytes)
    requires Framing(outbound, encoding, buffer).encoding.Unknown?
    ensures encoding.Unknown? && Framing(outbound, encoding, buffer) == Framed(Unknown, buffer, [])
    decreases |buffer|
  {
    var turn := TurnOf(outbound, encoding, buffer);
    if !turn.Take? {
    } else {
      OnlyUnknownStaysUnknown(outbound, Plist, turn.rest);
    }
  }

  lemma StaysSettled(outbound: bool, flow: Flow, a: Bytes, b: Bytes)
    requires Settled(flow, a + b)
    ensures Settled(Absorb(outbound, flow, a).flow, b)
  {
    var next := Absorb(outbound, flow, a).flow;
    Associates(flow.buffer, a, b);
    assert a == [] ==> flow.buffer + a == flow.buffer;
    if a != [] && next.encoding.Unknown? {
      OnlyUnknownStaysUnknown(outbound, flow.encoding, flow.buffer + a);
    }
  }

  lemma {:induction false} AbsorbAllIsAbsorb(outbound: bool, flow: Flow, chunks: seq<Bytes>)
    requires Settled(flow, Flat(chunks))
    ensures AbsorbAll(outbound, flow, chunks) == Absorb(outbound, flow, Flat(chunks))
    decreases |chunks|
  {
    if chunks == [] {
    } else {
      var a, rest := chunks[0], Flat(chunks[1..]);
      AbsorbResumes(outbound, flow, a, rest);
      StaysSettled(outbound, flow, a, rest);
      AbsorbAllIsAbsorb(outbound, Absorb(outbound, flow, a).flow, chunks[1..]);
    }
  }

  lemma AbsorbPair(outbound: bool, flow: Flow, a: Bytes, b: Bytes)
    ensures var first := Absorb(outbound, flow, a);
            AbsorbAll(outbound, flow, [a, b]) == Then(first, Absorb(outbound, first.flow, b))
  {
    assert [a, b][1..] == [b] && [b][1..] == [];
    var first := Absorb(outbound, flow, a);
    var second := Absorb(outbound, first.flow, b);
    assert AbsorbAll(outbound, first.flow, [b]) == Absorbed(second.flow, second.messages + []);
    assert second.messages + [] == second.messages;
  }

  /** Every way of cutting w into pieces leads to the same messages, encoding, leftover and byte count. */
  ghost predicate ChunkInvariant(outbound: bool, w: Bytes) {
    forall chunks: seq<Bytes> | Flat(chunks) == w ::
      AbsorbAll(outbound, FRESH, chunks) == Absorb(outbound, FRESH, w)
  }

  /** The exact condition under which the way a stream was cut does not matter. */
  lemma ChunkInvariance(outbound: bool, w: Bytes)
    ensures ChunkInvariant(outbound, w) <==> !SignatureOverrun(w)
  {
    if SignatureOverrun(w) {
      OverrunIsCutDependent(outbound, w);
    } else {
      forall chunks: seq<Bytes> | Flat(chunks) == w
        ensures AbsorbAll(outbound, FRESH, chunks) == Absorb(outbound, FRESH, w)
      {
        assert [] + w == w;
        AbsorbAllIsAbsorb(outbound, FRESH, chunks);
      }
    }
  }

  /** Cut right after its first message, an overrunning stream is raw; in one piece it has a message. */
  lemma OverrunIsCutDependent(outbound: bool, w: Bytes)
    requires SignatureOverrun(w)
    ensures !ChunkInvariant(outbound, w)
  {
    var size := Be32(w);
    var a, b := w[..4 + size], w[4 + size..];
    assert a + b == w;
    OverrunTurns(outbound, w);
    hide TurnOf;
    hide SignatureOverrun;
    FlatPair(a, b);
    AbsorbPair(outbound, FRESH, a, b);
    assert [] + a == a && [] + w == w;
    assert Absorb(outbound, FRESH, a) == Absorbed(Flow(Raw, |a|, []), []);
    assert AbsorbAll(outbound, FRESH, [a, b]).messages == [];
    assert |Absorb(outbound, FRESH, w).messages| > 0;
  }

  /** Three bytes of message, and a signature that starts in them. */
  lemma OverrunIsPossible(outbound: bool)
    ensures !ChunkInvariant(outbound, [0, 0, 0, 3] + BINARY_PREFIX)
  {
    var w := [0, 0, 0, 3] + BINARY_PREFIX;
    assert w[4..] == BINARY_PREFIX && w[..4] == [0, 0, 0, 3];
    Be32Prefix(w);
    Be32OfDigits(0, 0, 0, 3);
    hide Be32;
    hide ChunkInvariant;
    OverrunIsCutDependent(outbound, w);
  }

  lemma OverrunTurns(outbound: bool, w: Bytes)
    requires SignatureOverrun(w)
    ensures TurnOf(outbound, Unknown, w[..4 + Be32(w)]) == Stop(Raw, [])
    ensures TurnOf(outbound, Unknown, w).Take?
  {
    var size := Be32(w);
    var a, b := w[..4 + size], w[4 + size..];
    assert a + b == w;
    HeaderExtends(a, b);
    SmallLengthIsNotTLS(w);
    assert |a[4..]| == size;
    OneSignature(w[4..]);
    var message, whole := a[4..], w[4..];
    assert XML_PREFIX <= message ==> XML_PREFIX <= whole;
    hide Be32;
    hide LooksLikeTLS;
  }

  lemma OneSignature(payload: Bytes)
    ensures !(XML_PREFIX <= payload && BINARY_PREFIX <= payload)
  {
    assert XML_PREFIX <= payload ==> payload[0] == XML_PREFIX[0];
  }

  lemma SmallLengthIsNotTLS(w: Bytes)
    requires |w| >= 4 && Be32(w) < 0x100_0000
    ensures !LooksLikeTLS(w)
  {
    Be32Is(w);
    hide Be32;
  }

  /** A fresh direction that receives w in pieces ends up with the framing of w. */
  lemma AbsorbAllIsFraming(outbound: bool, w: Bytes, chunks: seq<Bytes>)
    requires Flat(chunks) == w && !SignatureOverrun(w)
    ensures var framed := Framing(outbound, Unknown, w);
            AbsorbAll(outbound, FRESH, chunks) == Absorbed(Flow(framed.encoding, |w|, framed.buffer), framed.messages)
  {
    hide SignatureOverrun;
    ChunkInvariance(outbound, w);
    assert [] + w == w;
  }

  // ---- Printing and reading back ----

  predicate Plausible(payload: Bytes) {
    0 < |payload| <= MAX_PLIST_MESSAGE
  }

  function LengthPrefixed(payload: Bytes): Bytes
    requires Plausible(payload)
  {
    PutBe32(|payload|) + payload
  }

  predicate AllPlausible(payloads: seq<Bytes>) {
    forall i | 0 <= i < |payloads| :: Plausible(payloads[i])
  }

  function Frames(payloads: seq<Bytes>): Bytes
    requires AllPlausible(payloads)
  {
    if payloads == [] then [] else LengthPrefixed(payloads[0]) + Frames(payloads[1..])
  }

  /** A binary property list starts with "bplist00". */
  predicate IsBinary(payload: Bytes) {
    var prefix: Bytes := [0x62, 0x70, 0x6C, 0x69, 0x73, 0x74, 0x30, 0x30];
    prefix <= payload
  }

  /** A property list is binary, or starts with "<?xml". */
  predicate IsPlist(payload: Bytes) {
    var prefix: Bytes := [0x3C, 0x3F, 0x78, 0x6D, 0x6C];
    prefix <= payload || IsBinary(payload)
  }

  lemma PlistIsSigned(payload: Bytes)
    ensures HasSignature(payload) == IsPlist(payload)
    ensures forall outbound :: Decoded(outbound, payload) == Message(outbound, payload, IsBinary(payload))
  {
  }

  function Messages(outbound: bool, payloads: seq<Bytes>): seq<Message> {
    if payloads == [] then []
    else [Message(outbound, payloads[0], IsBinary(payloads[0]))] + Messages(outbound, payloads[1..])
  }

  /** No plausible big endian length reads as a TLS record header. */
  lemma LengthIsNotTLS(buffer: Bytes)
    requires |buffer| >= 4 && LooksLikeTLS(buffer)
    ensures Be32(buffer) > MAX_PLIST_MESSAGE
  {
    Be32Is(buffer);
    hide Be32;
  }

  lemma HeaderOfFrame(payload: Bytes, tail: Bytes)
    requires Plausible(payload)
    ensures var w := LengthPrefixed(payload) + tail;
            && |w| == 4 + |payload| + |tail|
            && Be32(w) == |payload| && !LooksLikeTLS(w)
            && w[4..] == payload + tail && w[4 + |payload|..] == tail
  {
    var w := LengthPrefixed(payload) + tail;
    var header := PutBe32(|payload|);
    assert w == header + (payload + tail);
    HeaderExtends(header, payload + tail);
    Be32OfPut(|payload|);
    if LooksLikeTLS(w) { LengthIsNotTLS(w); }
  }

  lemma TurnOfFrame(outbound: bool, encoding: Encoding, payload: Bytes, tail: Bytes)
    requires Plausible(payload)
    requires encoding.Plist? || (encoding.Unknown? && HasSignature(payload))
    ensures TurnOf(outbound, encoding, LengthPrefixed(payload) + tail)
         == Take(Message(outbound, payload, IsBinary(payload)), tail)
  {
    HeaderOfFrame(payload, tail);
    PlistIsSigned(payload);
    SignatureExtends(payload, tail);
    assert (payload + tail)[..|payload|] == payload;
    hide Be32;
    hide LooksLikeTLS;
    hide HasSignature;
    hide LengthPrefixed;
  }

  lemma SignedDoesNotOverrun(payload: Bytes, tail: Bytes)
    requires Plausible(payload) && HasSignature(payload)
    ensures !SignatureOverrun(LengthPrefixed(payload) + tail)
  {
    HeaderOfFrame(payload, tail);
    hide Be32;
    hide LengthPrefixed;
    assert (payload + tail)[0] == payload[0];
  }

  /** Framed payloads are read back whole, whatever follows them. */
  lemma {:induction false} FramingOfFrames(outbound: bool, encoding: Encoding, payloads: seq<Bytes>, tail: Bytes)
    requires AllPlausible(payloads)
    requires encoding.Plist? || (encoding.Unknown? && payloads != [] && HasSignature(payloads[0]))
    ensures var more := Framing(outbound, Plist, tail);
            Framing(outbound, encoding, Frames(payloads) + tail)
            == more.(messages := Messages(outbound, payloads) + more.messages)
    decreases |payloads|
  {
    hide TurnOf;
    hide LengthPrefixed;
    hide HasSignature;
    var more := Framing(outbound, Plist, tail);
    if payloads == [] {
      assert [] + tail == tail && [] + more.messages == more.messages;
    } else {
      var rest := Frames(payloads[1..]) + tail;
      assert Frames(payloads) + tail == LengthPrefixed(payloads[0]) + rest;
      TurnOfFrame(outbound, encoding, payloads[0], rest);
      FramingOfFrames(outbound, Plist, payloads[1..], tail);
      var first := Message(outbound, payloads[0], IsBinary(payloads[0]));
      Associates([first], Messages(outbound, payloads[1..]), more.messages);
    }
  }

  /** Exactly these payloads were received, whatever the cuts, with nothing left over. */
  ghost predicate Recovered(outbound: bool, payloads: seq<Bytes>)
    requires AllPlausible(payloads)
  {
    forall chunks: seq<Bytes> | Flat(chunks) == Frames(payloads) ::
      AbsorbAll(outbound, FRESH, chunks)
      == Absorbed(Flow(Plist, |Frames(payloads)|, []), Messages(outbound, payloads))
  }

  /** A list of plausible payloads survives framing, under every cut, exactly when the first is a property list. */
  lemma RoundTrip(outbound: bool, payloads: seq<Bytes>)
    requires payloads != [] && AllPlausible(payloads)
    ensures Recovered(outbound, payloads) <==> IsPlist(payloads[0])
  {
    PlistIsSigned(payloads[0]);
    hide IsPlist;
    assert Framing(outbound, Plist, []) == Framed(Plist, [], []);
    hide TurnOf;
    hide SignatureOverrun;
    hide HasSignature;
    hide LengthPrefixed;
    if HasSignature(payloads[0]) {
      SignedIsRecovered(outbound, payloads);
    } else {
      var head, tail := LengthPrefixed(payloads[0]), Frames(payloads[1..]);
      UnsignedIsRaw(outbound, head, payloads[0]);
      FlatPair(head, tail);
      AbsorbPair(outbound, FRESH, head, tail);
      assert AbsorbAll(outbound, FRESH, [head, tail]).flow.encoding.Raw?;
    }
  }

  lemma SignedIsRecovered(outbound: bool, payloads: seq<Bytes>)
    requires payloads != [] && AllPlausible(payloads) && HasSignature(payloads[0])
    ensures Recovered(outbound, payloads)
  {
    assert Framing(outbound, Plist, []) == Framed(Plist, [], []);
    hide HasSignature;
    hide LengthPrefixed;
    var w := Frames(payloads);
    SignedDoesNotOverrun(payloads[0], Frames(payloads[1..]));
    FramingOfFrames(outbound, Unknown, payloads, []);
    hide Framing;
    hide AbsorbAll;
    hide Frames;
    assert w + [] == w && Messages(outbound, payloads) + [] == Messages(outbound, payloads);
    forall chunks: seq<Bytes> | Flat(chunks) == w
      ensures AbsorbAll(outbound, FRESH, chunks) == Absorbed(Flow(Plist, |w|, []), Messages(outbound, payloads))
    {
      AbsorbAllIsFraming(outbound, w, chunks);
    }
  }

  lemma UnsignedIsRaw(outbound: bool, head: Bytes, payload: Bytes)
    requires Plausible(payload) && head == LengthPrefixed(payload) && !HasSignature(payload)
    ensures Absorb(outbound, FRESH, head).flow.encoding.Raw?
  {
    assert [] + head == head && head + [] == head && payload + [] == payload;
    HeaderOfFrame(payload, []);
    hide Be32;
    hide LooksLikeTLS;
    hide HasSignature;
    hide LengthPrefixed;
  }

  /** The header of a TLS record (section 6.2.1 of RFC 5246): handshake or application data, version 3.x. */
  predicate IsRecord(w: Bytes)
    requires |w| >= 4
  {
    (w[0] == 0x16 || w[0] == 0x17) && w[1] == 3 && w[2] <= 4
  }

  /** The length in front of a message. */
  function LengthOf(w: Bytes): nat
    requires |w| >= 4
  {
    w[0] as nat * 0x100_0000 + w[1] as nat * 0x1_0000 + w[2] as nat * 0x100 + w[3] as nat
  }

  /** What comes behind some messages decides what becomes of the direction: a TLS record, a length that is none, the
      front of a message, or another message. */
  predicate Follows(outbound: bool, payloads: seq<Bytes>, more: Bytes, r: Absorbed)
    requires AllPlausible(payloads) && |more| >= 4
  {
    var total, before, length := |Frames(payloads)| + |more|, Messages(outbound, payloads), LengthOf(more);
    if IsRecord(more) then r == Absorbed(Flow(TLS, total, []), before)
    else if length == 0 || length > 0x400_0000 then r == Absorbed(Flow(Raw, total, []), before)
    else if |more| < 4 + length then r == Absorbed(Flow(Plist, total, more), before)
    else
      var payload := more[4..4 + length];
      before + [Message(outbound, payload, IsBinary(payload))] <= r.messages
  }

  lemma TurnFollows(outbound: bool, more: Bytes)
    requires |more| >= 4
    ensures var turn, length := TurnOf(outbound, Plist, more), LengthOf(more);
            if IsRecord(more) then turn == Stop(TLS, [])
            else if length == 0 || length > 0x400_0000 then turn == Stop(Raw, [])
            else if |more| < 4 + length then turn == Stop(Plist, more)
            else
              var payload := more[4..4 + length];
              turn == Take(Message(outbound, payload, IsBinary(payload)), more[4 + length..])
  {
    Be32Is(more);
    hide Be32;
    if 4 + LengthOf(more) <= |more| {
      var payload := more[4..][..LengthOf(more)];
      assert payload == more[4..4 + LengthOf(more)];
      PlistIsSigned(payload);
    }
  }

  /** Behind messages, TLS is told exactly by a record header, and the direction is given up exactly on a length that is
      none; otherwise the next message is waited for or taken. */
  lemma AfterMessages(outbound: bool, payloads: seq<Bytes>, more: Bytes, chunks: seq<Bytes>)
    requires payloads != [] && AllPlausible(payloads) && IsPlist(payloads[0])
    requires |more| >= 4 && Flat(chunks) == Frames(payloads) + more
    ensures Follows(outbound, payloads, more, AbsorbAll(outbound, FRESH, chunks))
  {
    TurnFollows(outbound, more);
    PlistIsSigned(payloads[0]);
    hide HasSignature;
    hide IsPlist;
    hide IsBinary;
    hide LengthPrefixed;
    hide LengthOf;
    hide TurnOf;
    hide IsRecord;
    Associates(LengthPrefixed(payloads[0]), Frames(payloads[1..]), more);
    SignedDoesNotOverrun(payloads[0], Frames(payloads[1..]) + more);
    AbsorbAllIsFraming(outbound, Frames(payloads) + more, chunks);
    FramingOfFrames(outbound, Unknown, payloads, more);
    hide AbsorbAll;
    hide Frames;
    var before := Messages(outbound, payloads);
    assert before + [] == before;
    if TurnOf(outbound, Plist, more).Take? {
      var turn := TurnOf(outbound, Plist, more);
      var rest := Framing(outbound, Plist, turn.rest).messages;
      Associates(before, [turn.message], rest);
    }
  }

  /** What a direction starts with, and arrives at once, decides what becomes of it: too little to tell, a TLS record, a
      length that is none, the front of what may be a property list, something else, the front of a property list, or a
      whole one. */
  predicate Starts(outbound: bool, w: Bytes, r: Absorbed) {
    if |w| < 4 then r == Absorbed(Flow(Unknown, |w|, w), [])
    else
      var length, rest := LengthOf(w), w[4..];
      if IsRecord(w) then r == Absorbed(Flow(TLS, |w|, []), [])
      else if length == 0 || length > 0x400_0000 then r == Absorbed(Flow(Raw, |w|, []), [])
      else if |rest| < length && |rest| < 8 then r == Absorbed(Flow(Unknown, |w|, w), [])
      else if !IsPlist(rest) then r == Absorbed(Flow(Raw, |w|, []), [])
      else if |rest| < length then r == Absorbed(Flow(Plist, |w|, w), [])
      else [Message(outbound, rest[..length], IsBinary(rest[..length]))] <= r.messages
  }

  lemma FirstVerdict(outbound: bool, w: Bytes)
    ensures Starts(outbound, w, Absorb(outbound, FRESH, w))
  {
    hide HasSignature;
    hide IsPlist;
    hide IsBinary;
    hide Be32;
    assert [] + w == w;
    if |w| >= 4 {
      Be32Is(w);
      PlistIsSigned(w[4..]);
      if LengthOf(w) <= |w| - 4 { PlistIsSigned(w[4..][..LengthOf(w)]); }
    }
  }

  /** A session upgraded to TLS, after some messages or from its first byte on, keeps those messages and reports TLS
      from there on. */
  lemma UpgradeToTLS(outbound: bool, payloads: seq<Bytes>, record: Bytes, chunks: seq<Bytes>)
    requires AllPlausible(payloads) && (payloads != [] ==> IsPlist(payloads[0]))
    requires |record| >= 4 && IsRecord(record)
    requires Flat(chunks) == Frames(payloads) + record
    ensures AbsorbAll(outbound, FRESH, chunks)
         == Absorbed(Flow(TLS, |Frames(payloads)| + |record|, []), Messages(outbound, payloads))
  {
    if payloads == [] {
      RecordAtOnce(outbound, record, chunks);
    } else {
      AfterMessages(outbound, payloads, record, chunks);
    }
    hide AbsorbAll;
    hide IsRecord;
    hide IsPlist;
    hide LengthPrefixed;
  }

  lemma RecordAtOnce(outbound: bool, record: Bytes, chunks: seq<Bytes>)
    requires |record| >= 4 && IsRecord(record) && Flat(chunks) == [] + record
    ensures AbsorbAll(outbound, FRESH, chunks) == Absorbed(Flow(TLS, |record|, []), [])
  {
    assert [] + record == record && LooksLikeTLS(record);
    LengthIsNotTLS(record);
    hide Be32;
    AbsorbAllIsFraming(outbound, record, chunks);
    hide LooksLikeTLS;
    hide AbsorbAll;
  }

  function Payloads(messages: seq<Message>): seq<Bytes> {
    if messages == [] then [] else [messages[0].payload] + Payloads(messages[1..])
  }

  /** Messages and leftover re-print to the bytes that arrived; only a raw or TLS verdict discards some. */
  predicate Conserves(outbound: bool, framed: Framed, buffer: Bytes) {
    var payloads := Payloads(framed.messages);
    && AllPlausible(payloads)
    && framed.messages == Messages(outbound, payloads)
    && (!framed.encoding.Opaque() ==> Frames(payloads) + framed.buffer == buffer)
  }

  /** Nothing is invented or lost while a direction is framed. */
  lemma {:induction false} FramingConserves(outbound: bool, encoding: Encoding, buffer: Bytes)
    requires !encoding.Opaque()
    ensures Conserves(outbound, Framing(outbound, encoding, buffer), buffer)
    decreases |buffer|
  {
    TurnConserves(outbound, encoding, buffer);
    hide TurnOf;
    hide LengthPrefixed;
    match TurnOf(outbound, encoding, buffer)
    case Stop(verdict, left) =>
      assert [] + buffer == buffer;
    case Take(message, rest) =>
      FramingConserves(outbound, Plist, rest);
      hide Conserves;
      ConservesFirst(outbound, message, Framing(outbound, Plist, rest), rest);
  }

  lemma ConservesFirst(outbound: bool, message: Message, more: Framed, rest: Bytes)
    requires Plausible(message.payload)
    requires message == Message(outbound, message.payload, IsBinary(message.payload))
    requires Conserves(outbound, more, rest)
    ensures Conserves(outbound, more.(messages := [message] + more.messages), LengthPrefixed(message.payload) + rest)
  {
    hide LengthPrefixed;
    PrintedFirst(outbound, message, more.messages);
    var others := Frames(Payloads(more.messages));
    assert LengthPrefixed(message.payload) + (others + more.buffer)
        == (LengthPrefixed(message.payload) + others) + more.buffer;
  }

  lemma PrintedFirst(outbound: bool, message: Message, messages: seq<Message>)
    requires Plausible(message.payload) && AllPlausible(Payloads(messages))
    requires message == Message(outbound, message.payload, IsBinary(message.payload))
    requires messages == Messages(outbound, Payloads(messages))
    ensures var payloads := Payloads([message] + messages);
            && AllPlausible(payloads)
            && [message] + messages == Messages(outbound, payloads)
            && Frames(payloads) == LengthPrefixed(message.payload) + Frames(Payloads(messages))
  {
    assert ([message] + messages)[1..] == messages;
    assert Payloads([message] + messages)[1..] == Payloads(messages);
  }

  lemma TurnConserves(outbound: bool, encoding: Encoding, buffer: Bytes)
    requires !encoding.Opaque()
    ensures match TurnOf(outbound, encoding, buffer)
            case Stop(verdict, left) => verdict.Opaque() || left == buffer
            case Take(message, rest) =>
              && Plausible(message.payload)
              && message == Message(outbound, message.payload, IsBinary(message.payload))
              && buffer == LengthPrefixed(message.payload) + rest
  {
    hide Be32;
    hide PutBe32;
    hide LooksLikeTLS;
    hide HasSignature;
    if |buffer| >= 4 {
      PutBe32OfBe32(buffer[..4]);
      HeaderExtends(buffer[..4], buffer[4..]);
      assert buffer[..4] + buffer[4..] == buffer;
      var size := Be32(buffer);
      if size <= |buffer[4..]| {
        assert buffer[..4] + buffer[4..][..size] + buffer[4 + size..] == buffer;
      }
    }
  }
}
