/** What usbmux reassembly guarantees, whatever way the transfers cut the packets. */
module UsbMuxFraming {
  import opened Wire
  import opened UsbMux

  // ---- Cutting the input ----

  lemma HeaderExtends(b: Bytes, c: Bytes, at: nat)
    requires at + 4 <= |b|
    ensures Be32((b + c)[at..]) == Be32(b[at..])
  {
    assert (b + c)[at..][..4] == b[at..][..4];
    Be32Prefix((b + c)[at..]);
    Be32Prefix(b[at..]);
    hide Be32;
  }

  lemma HeaderLengthExtends(b: Bytes, c: Bytes, length: nat)
    requires length <= |b|
    ensures HeaderLength(b + c, length) == HeaderLength(b, length)
  {
    if |b| >= MUX_HEADER_V2 { HeaderExtends(b, c, 8); }
    hide Be32;
    hide IsMagic;
  }

  /** More input does not change a packet already whole, nor bring lost framing back. */
  lemma ReadingExtends(b: Bytes, c: Bytes)
    ensures match ReadPacket(b)
            case Wait => true
            case Lost => ReadPacket(b + c) == Lost
            case Whole(packet, rest) => ReadPacket(b + c) == Whole(packet, rest + c)
  {
    hide Be32;
    hide HeaderLength;
    if |b| >= MUX_HEADER_V1 {
      HeaderExtends(b, c, 0);
      HeaderExtends(b, c, 4);
      assert (b + c)[0..] == b + c && b[0..] == b;
      var length := Be32(b[4..]);
      if MUX_HEADER_V1 <= length <= |b| {
        HeaderLengthExtends(b, c, length);
        var header := HeaderLength(b, length);
        assert (b + c)[header..length] == b[header..length];
        assert (b + c)[length..] == b[length..] + c;
      }
    }
  }

  /** Parsing b and then c picks up where parsing b stopped; once framing is lost, everything is thrown away. */
  lemma {:induction false} ReassemblyResumes(b: Bytes, c: Bytes)
    ensures var first, whole := Reassemble(b), Reassemble(b + c);
            if first.discarded != [] then
              first.rest == [] && whole == first.(discarded := first.discarded + c)
            else
              var more := Reassemble(first.rest + c);
              whole == more.(packets := first.packets + more.packets)
    decreases |b|
  {
    ReadingExtends(b, c);
    hide ReadPacket;
    match ReadPacket(b)
    case Wait =>
      var more := Reassemble(b + c);
      assert [] + more.packets == more.packets;
    case Lost =>
      LostIsNotEmpty(b);
    case Whole(packet, rest) =>
      ReassemblyResumes(rest, c);
      var first := Reassemble(rest);
      if first.discarded == [] {
        var more := Reassemble(first.rest + c);
        Associates([packet], first.packets, more.packets);
      }
  }

  lemma LostIsNotEmpty(b: Bytes)
    requires ReadPacket(b) == Lost
    ensures |b| >= MUX_HEADER_V1
  {
  }

  lemma {:induction false} DiscardsAHeader(b: Bytes)
    ensures var r := Reassemble(b);
            && (r.discarded != [] ==> |r.discarded| >= MUX_HEADER_V1 && r.rest == [])
            && (r.discarded == [] ==> Reassemble(r.rest) == Reassembled([], r.rest, []))
    decreases |b|
  {
    match ReadPacket(b)
    case Wait =>
    case Lost =>
    case Whole(packet, rest) => DiscardsAHeader(rest);
  }

  function Join(first: Fed, rest: Fed): Fed {
    Fed(first.packets + rest.packets, rest.buffer, first.resyncs + rest.resyncs)
  }

  /** The transfers of one direction, in order. */
  function FeedAll(buffer: Bytes, chunks: seq<Bytes>): Fed
    decreases |chunks|
  {
    if chunks == [] then Fed([], buffer, 0)
    else
      var first := Feed(buffer, chunks[0]);
      Join(first, FeedAll(first.buffer, chunks[1..]))
  }

  /** A buffer that holds no whole packet and no bad header, as every call leaves it. */
  predicate Drained(buffer: Bytes) {
    Reassemble(buffer) == Reassembled([], buffer, [])
  }

  lemma FeedResumes(buffer: Bytes, a: Bytes, b: Bytes)
    requires Drained(buffer) && Reassemble(buffer + a).discarded == []
    ensures var first := Feed(buffer, a);
            Drained(first.buffer) && Feed(buffer, a + b) == Join(first, Feed(first.buffer, b))
  {
    hide ReadPacket;
    hide Reassemble;
    var first := Feed(buffer, a);
    var second := Feed(first.buffer, b);
    DiscardsAHeader(buffer + a);
    if a == [] {
      assert a + b == b && [] + second.packets == second.packets;
    } else if b == [] {
      assert a + b == a && first.packets + [] == first.packets;
    } else {
      FeedBoth(buffer, a, b);
    }
  }

  lemma FeedBoth(buffer: Bytes, a: Bytes, b: Bytes)
    requires a != [] && b != [] && Reassemble(buffer + a).discarded == []
    ensures var first := Feed(buffer, a);
            Feed(buffer, a + b) == Join(first, Feed(first.buffer, b))
  {
    ReassemblyResumes(buffer + a, b);
    hide Reassemble;
    Associates(buffer, a, b);
    assert |a + b| > 0;
  }

  lemma {:induction false} FeedAllEmpty(buffer: Bytes, chunks: seq<Bytes>)
    requires Flat(chunks) == []
    ensures FeedAll(buffer, chunks) == Fed([], buffer, 0)
    decreases |chunks|
  {
    hide ReadPacket;
    if chunks == [] {
    } else {
      assert chunks[0] == [] && Flat(chunks[1..]) == [];
      FeedAllEmpty(buffer, chunks[1..]);
    }
  }

  lemma {:induction false} FeedAllIsFeed(buffer: Bytes, chunks: seq<Bytes>)
    requires Drained(buffer) && |Reassemble(buffer + Flat(chunks)).discarded| <= MUX_HEADER_V1
    ensures FeedAll(buffer, chunks) == Feed(buffer, Flat(chunks))
    decreases |chunks|
  {
    hide ReadPacket;
    if chunks == [] {
    } else {
      var a, b := chunks[0], Flat(chunks[1..]);
      var first := Feed(buffer, a);
      Associates(buffer, a, b);
      ReassemblyResumes(buffer + a, b);
      DiscardsAHeader(buffer + a);
      if Reassemble(buffer + a).discarded == [] {
        FeedResumes(buffer, a, b);
        assert a == [] ==> buffer + a == buffer;
        FeedAllIsFeed(first.buffer, chunks[1..]);
      } else {
        assert b == [];
        FeedAllEmpty(first.buffer, chunks[1..]);
        assert a + b == a && first.packets + [] == first.packets;
        assert a == [] ==> buffer + a == buffer;
      }
    }
  }

  /** Every way of cutting w into transfers yields the same packets, leftover and resync count. */
  ghost predicate ChunkInvariant(w: Bytes) {
    forall chunks: seq<Bytes> | Flat(chunks) == w :: FeedAll([], chunks) == Feed([], w)
  }

  /** The exact condition: framing is kept, or it is lost on a header that ends the stream. */
  lemma ChunkInvariance(w: Bytes)
    ensures ChunkInvariant(w) <==> |Reassemble(w).discarded| <= MUX_HEADER_V1
  {
    hide ReadPacket;
    assert [] + w == w;
    if |Reassemble(w).discarded| <= MUX_HEADER_V1 {
      assert Drained([]);
      forall chunks: seq<Bytes> | Flat(chunks) == w
        ensures FeedAll([], chunks) == Feed([], w)
      {
        FeedAllIsFeed([], chunks);
      }
    } else {
      LossIsCutDependent(w);
    }
  }

  /** Cut right after the bad header, what follows it is parsed afresh instead of thrown away. */
  lemma LossIsCutDependent(w: Bytes)
    requires |Reassemble(w).discarded| > MUX_HEADER_V1
    ensures !ChunkInvariant(w)
  {
    hide ReadPacket;
    var whole := Reassemble(w);
    DiscardedIsTheEnd(w);
    DiscardsAHeader(w);
    var k := |w| - |whole.discarded| + MUX_HEADER_V1;
    var a, b := w[..k], w[k..];
    assert a + b == w && [] + w == w && [] + a == a && [] + b == b;
    CutAtLoss(w);
    FlatPair(a, b);
    var first := Feed([], a);
    var second := Feed(first.buffer, b);
    assert first == Fed(whole.packets, [], 1);
    NothingVanishes(b);
    assert second != Fed([], [], 0);
    FeedPair([], a, b);
    assert Feed([], w) == Fed(whole.packets, [], 1);
    assert second.packets != [] ==> |first.packets + second.packets| > |whole.packets|;
    assert FeedAll([], [a, b]) != Feed([], w);
  }

  // ---- The same by the bytes alone ----

  /** The lengths and protocols that framing is kept for. */
  predicate PlausibleHeader(w: Bytes)
    requires |w| >= 8
  {
    8 <= Be32(w[4..]) <= 0x10_0000 && Be32(w) <= 6
  }

  /** A packet, as long as its header says. */
  predicate IsFrame(p: Bytes) {
    |p| >= 8 && PlausibleHeader(p) && Be32(p[4..]) == |p|
  }

  /** Too little for a header, the front of a packet, or a bad header and nothing behind it. */
  predicate IsTail(t: Bytes) {
    || |t| < 8
    || (if PlausibleHeader(t) then |t| < Be32(t[4..]) else |t| == 8)
  }

  predicate IsCut(w: Bytes, frames: seq<Bytes>, tail: Bytes) {
    w == Flat(frames) + tail && (forall i | 0 <= i < |frames| :: IsFrame(frames[i])) && IsTail(tail)
  }

  /** Packets one after the other, and a tail. */
  ghost predicate Grammatical(w: Bytes) {
    exists frames: seq<Bytes>, tail: Bytes :: IsCut(w, frames, tail)
  }

  /** The outcome does not depend on how the bytes were cut if and only if they are grammatical. */
  lemma CutsDoNotMatter(w: Bytes)
    ensures ChunkInvariant(w) <==> Grammatical(w)
  {
    ChunkInvariance(w);
    hide ChunkInvariant;
    hide Reassemble;
    hide IsCut;
    if frames: seq<Bytes>, tail: Bytes :| IsCut(w, frames, tail) { CutIsKept(w, frames, tail); }
    if |Reassemble(w).discarded| <= MUX_HEADER_V1 {
      var frames, tail := KeptIsCut(w);
    }
  }

  lemma FrameIsTaken(frame: Bytes, rest: Bytes)
    requires IsFrame(frame)
    ensures ReadPacket(frame + rest).Whole? && ReadPacket(frame + rest).rest == rest
  {
    HeaderExtends(frame, rest, 0);
    HeaderExtends(frame, rest, 4);
    assert frame[0..] == frame && (frame + rest)[0..] == frame + rest;
    hide Be32;
    hide IsMagic;
    assert (frame + rest)[|frame|..] == rest;
  }

  lemma {:induction false} CutIsKept(w: Bytes, frames: seq<Bytes>, tail: Bytes)
    requires IsCut(w, frames, tail)
    ensures |Reassemble(w).discarded| <= MUX_HEADER_V1
    decreases |frames|
  {
    if frames == [] {
      assert w == tail;
      hide Be32;
    } else {
      hide ReadPacket;
      hide IsFrame;
      hide IsTail;
      Associates(frames[0], Flat(frames[1..]), tail);
      assert IsFrame(frames[0]);
      FrameIsTaken(frames[0], Flat(frames[1..]) + tail);
      CutIsKept(Flat(frames[1..]) + tail, frames[1..], tail);
    }
  }

  lemma WholeIsFrame(w: Bytes)
    requires ReadPacket(w).Whole?
    ensures var rest := ReadPacket(w).rest;
            |rest| < |w| && w == w[..|w| - |rest|] + rest && IsFrame(w[..|w| - |rest|])
  {
    WholeIsFront(w);
    var rest := ReadPacket(w).rest;
    var frame := w[..|w| - |rest|];
    assert w == frame + rest;
    FrameLength(w);
    HeaderExtends(frame, rest, 0);
    HeaderExtends(frame, rest, 4);
    assert frame[0..] == frame && w[0..] == w;
    hide Be32;
    hide IsMagic;
  }

  lemma FrameLength(w: Bytes)
    requires ReadPacket(w).Whole?
    ensures |w| >= MUX_HEADER_V1 && PlausibleHeader(w) && |w| - |ReadPacket(w).rest| == Be32(w[4..])
  {
    hide Be32;
    hide IsMagic;
  }

  lemma NotTakenIsTail(w: Bytes)
    requires !ReadPacket(w).Whole? && (ReadPacket(w).Lost? ==> |w| <= MUX_HEADER_V1)
    ensures IsTail(w)
  {
    hide Be32;
    hide IsMagic;
  }

  lemma {:induction false} KeptIsCut(w: Bytes) returns (frames: seq<Bytes>, tail: Bytes)
    requires |Reassemble(w).discarded| <= MUX_HEADER_V1
    ensures IsCut(w, frames, tail)
    decreases |w|
  {
    hide ReadPacket;
    hide IsFrame;
    hide IsTail;
    match ReadPacket(w)
    case Wait =>
      NotTakenIsTail(w);
      frames, tail := [], w;
      assert [] + w == w;
    case Lost =>
      NotTakenIsTail(w);
      frames, tail := [], w;
      assert [] + w == w;
    case Whole(packet, rest) =>
      WholeIsFrame(w);
      var frame := w[..|w| - |rest|];
      var more, end := KeptIsCut(rest);
      frames, tail := [frame] + more, end;
      Associates(frame, Flat(more), end);
      assert frames[0] == frame && frames[1..] == more;
  }

  lemma {:induction false} FramesAreTaken(frames: seq<Bytes>, tail: Bytes)
    requires forall i | 0 <= i < |frames| :: IsFrame(frames[i])
    ensures var r, last := Reassemble(Flat(frames) + tail), Reassemble(tail);
            |r.packets| == |frames| + |last.packets| && r.rest == last.rest && r.discarded == last.discarded
    decreases |frames|
  {
    hide ReadPacket;
    hide IsFrame;
    if frames == [] {
      assert [] + tail == tail;
    } else {
      Associates(frames[0], Flat(frames[1..]), tail);
      FrameIsTaken(frames[0], Flat(frames[1..]) + tail);
      FramesAreTaken(frames[1..], tail);
    }
  }

  /** Behind any number of packets, a bad header costs one resync and all that came with it; anything else that is no
      whole packet is waited on. */
  lemma LossIsCounted(frames: seq<Bytes>, tail: Bytes)
    requires forall i | 0 <= i < |frames| :: IsFrame(frames[i])
    ensures var fed, bad := Feed([], Flat(frames) + tail), |tail| >= MUX_HEADER_V1 && !PlausibleHeader(tail);
            bad || IsTail(tail) ==>
              |fed.packets| == |frames| && fed.resyncs == (if bad then 1 else 0)
              && fed.buffer == if bad then [] else tail
  {
    FramesAreTaken(frames, tail);
    assert [] + (Flat(frames) + tail) == Flat(frames) + tail;
    hide IsFrame;
    hide Be32;
    hide IsMagic;
    hide Flat;
  }

  /** A bad header with something behind it. */
  lemma LossIsPossible()
    ensures !ChunkInvariant([0, 0, 0, 7, 0, 0, 0, 8, 0])
  {
    hide Be32;
    var w: Bytes := [0, 0, 0, 7, 0, 0, 0, 8, 0];
    Be32Is(w);
    assert ReadPacket(w) == Lost;
    assert Reassemble(w) == Reassembled([], [], w);
    hide ReadPacket;
    hide Reassemble;
    LossIsCutDependent(w);
  }

  lemma FeedPair(buffer: Bytes, a: Bytes, b: Bytes)
    ensures var first := Feed(buffer, a);
            FeedAll(buffer, [a, b]) == Join(first, Feed(first.buffer, b))
  {
    hide ReadPacket;
    assert [a, b][1..] == [b] && [b][1..] == [];
    var first := Feed(buffer, a);
    var second := Feed(first.buffer, b);
    assert FeedAll(first.buffer, [b]) == Join(second, Fed([], second.buffer, 0));
    assert second.packets + [] == second.packets;
  }

  lemma {:induction false} DiscardedIsTheEnd(b: Bytes)
    ensures |Reassemble(b).discarded| <= |b|
    decreases |b|
  {
    var reading := ReadPacket(b);
    if !reading.Whole? {
    } else {
      DiscardedIsTheEnd(reading.rest);
    }
  }

  lemma {:induction false} CutAtLoss(w: Bytes)
    requires |Reassemble(w).discarded| > MUX_HEADER_V1
    ensures var r := Reassemble(w);
            var k := |w| - |r.discarded| + MUX_HEADER_V1;
            && 0 <= k <= |w|
            && Reassemble(w[..k]) == Reassembled(r.packets, [], r.discarded[..MUX_HEADER_V1])
    decreases |w|
  {
    hide ReadPacket;
    var r := Reassemble(w);
    DiscardedIsTheEnd(w);
    var k := |w| - |r.discarded| + MUX_HEADER_V1;
    match ReadPacket(w)
    case Wait =>
    case Lost =>
      LostOnHeader(w);
    case Whole(packet, rest) =>
      WholeIsFront(w);
      CutAtLoss(rest);
      DiscardedIsTheEnd(rest);
      var size := |w| - |rest|;
      WholeBeforeCut(w, k);
      TakeDrop(w, size, k);
  }

  lemma WholeIsFront(w: Bytes)
    requires ReadPacket(w).Whole?
    ensures var rest := ReadPacket(w).rest; |rest| < |w| && rest == w[|w| - |rest|..]
  {
    hide Be32;
  }

  lemma LostOnHeader(w: Bytes)
    requires ReadPacket(w) == Lost
    ensures ReadPacket(w[..MUX_HEADER_V1]) == Lost
  {
    var header := w[..MUX_HEADER_V1];
    assert header + w[MUX_HEADER_V1..] == w;
    HeaderExtends(header, w[MUX_HEADER_V1..], 0);
    HeaderExtends(header, w[MUX_HEADER_V1..], 4);
    assert w[0..] == w && header[0..] == header;
    hide Be32;
  }

  lemma CutWithin(w: Bytes, k: nat, from: nat, to: nat)
    requires from <= to <= k <= |w|
    ensures w[..k][from..to] == w[from..to]
  {
  }

  lemma WholeBeforeCut(w: Bytes, k: nat)
    requires k <= |w| && ReadPacket(w).Whole? && |w| - |ReadPacket(w).rest| <= k
    ensures var reading := ReadPacket(w);
            ReadPacket(w[..k]) == Whole(reading.packet, w[..k][|w| - |reading.rest|..])
  {
    hide Be32;
    hide IsMagic;
    var a, b := w[..k], w[k..];
    assert a + b == w;
    HeaderExtends(a, b, 0);
    HeaderExtends(a, b, 4);
    assert w[0..] == w && a[0..] == a;
    if k >= MUX_HEADER_V2 { HeaderExtends(a, b, 8); }
    var length := Be32(w[4..]);
    assert |w| - |w[length..]| == length;
    CutWithin(w, k, HeaderLength(w, length), length);
  }

  /** Bytes fed to an empty buffer always leave a trace: a packet, a leftover or a resync. */
  lemma NothingVanishes(b: Bytes)
    requires b != []
    ensures Feed([], b) != Fed([], [], 0)
  {
    assert [] + b == b;
  }

  // ---- Printing and reading back ----

  predicate Printable(header: nat, protocol: uint32, payload: Bytes) {
    protocol <= 6 && header + |payload| <= 0x10_0000
  }

  function V2Packet(protocol: uint32, payload: Bytes, outbound: bool, txSeq: uint16, rxSeq: uint16): (w: Bytes)
    requires Printable(16, protocol, payload)
    ensures |w| == 16 + |payload|
  {
    PutBe32(protocol) + PutBe32(16 + |payload|)
    + PutBe32(if outbound then 0xFEED_FACE else 0xFACE_FACE) + PutBe16(txSeq) + PutBe16(rxSeq) + payload
  }

  function V1Packet(protocol: uint32, payload: Bytes): (w: Bytes)
    requires Printable(8, protocol, payload)
    ensures |w| == 8 + |payload|
  {
    PutBe32(protocol) + PutBe32(8 + |payload|) + payload
  }

  lemma Be32At(before: Bytes, v: uint32, after: Bytes)
    ensures Be32((before + PutBe32(v) + after)[|before|..]) == v
  {
    hide Be32;
    hide PutBe32;
    assert (before + PutBe32(v) + after)[|before|..] == PutBe32(v) + after;
    Be32Of(v, after);
  }

  lemma V2Fields(protocol: uint32, payload: Bytes, outbound: bool, txSeq: uint16, rxSeq: uint16, tail: Bytes)
    requires Printable(16, protocol, payload)
    ensures var w, length := V2Packet(protocol, payload, outbound, txSeq, rxSeq) + tail, MUX_HEADER_V2 + |payload|;
            && |w| >= length && Be32(w) == protocol && Be32(w[4..]) == length && IsMagic(Be32(w[8..]))
            && w[MUX_HEADER_V2..length] == payload && w[length..] == tail
  {
    hide Be32;
    hide PutBe32;
    hide PutBe16;
    var w, length := V2Packet(protocol, payload, outbound, txSeq, rxSeq) + tail, MUX_HEADER_V2 + |payload|;
    var magic := if outbound then 0xFEED_FACE else 0xFACE_FACE;
    var sequences, r16 := PutBe16(txSeq) + PutBe16(rxSeq), payload + tail;
    var r8 := PutBe32(magic) + (sequences + r16);
    var r4 := PutBe32(length) + r8;
    assert w == PutBe32(protocol) + r4;
    hide V2Packet;
    assert w[0..] == w;
    Next(w, 0, PutBe32(protocol), r4);
    Next(w, 4, PutBe32(length), r8);
    Next(w, 8, PutBe32(magic), sequences + r16);
    Next(w, 12, sequences, r16);
    Next(w, 16, payload, tail);
    Be32Of(protocol, r4);
    Be32Of(length, r8);
    Be32Of(magic, sequences + r16);
    assert w[MUX_HEADER_V2..length] == payload;
  }

  /** A v2 packet is read back whole, whatever follows it. */
  lemma ReadV2Packet(protocol: uint32, payload: Bytes, outbound: bool, txSeq: uint16, rxSeq: uint16, tail: Bytes)
    requires Printable(16, protocol, payload)
    ensures ReadPacket(V2Packet(protocol, payload, outbound, txSeq, rxSeq) + tail)
         == Whole(Packet(protocol, payload), tail)
  {
    hide Be32;
    hide V2Packet;
    V2Fields(protocol, payload, outbound, txSeq, rxSeq, tail);
  }

  /** The word a v1 packet's reader takes for a magic. */
  predicate PosesAsV2(payload: Bytes) {
    |payload| >= 8 && (Be32(payload) == 0xFACE_FACE || Be32(payload) == 0xFEED_FACE)
  }

  /** A v1 packet is read back exactly when its payload does not pose as the rest of a v2 header. */
  lemma ReadV1Packet(protocol: uint32, payload: Bytes, tail: Bytes)
    requires Printable(8, protocol, payload)
    ensures ReadPacket(V1Packet(protocol, payload) + tail) == Whole(Packet(protocol, payload), tail)
       <==> !PosesAsV2(payload)
  {
    hide Be32;
    hide PutBe32;
    hide PutBe16;
    var length := MUX_HEADER_V1 + |payload|;
    var a, b := PutBe32(protocol), PutBe32(length);
    var w := V1Packet(protocol, payload) + tail;
    assert w == [] + a + (b + payload + tail);
    assert w == a + b + (payload + tail);
    Be32At([], protocol, b + payload + tail);
    Be32At(a, length, payload + tail);
    assert w[0..] == w && w[8..] == payload + tail;
    if |payload| >= 8 {
      HeaderExtends(payload, tail, 0);
      assert payload[0..] == payload && (payload + tail)[0..] == payload + tail;
      assert w[MUX_HEADER_V2..length] == payload[8..];
    }
    assert w[MUX_HEADER_V1..length] == payload && w[length..] == tail;
  }

  /** A v1 packet that is not read back: its payload starts with a magic. */
  lemma SomePacketIsMisread(protocol: uint32, tail: Bytes)
    requires protocol <= 6
    ensures ReadPacket(V1Packet(protocol, [0xFA, 0xCE, 0xFA, 0xCE, 0, 0, 0, 0]) + tail)
         != Whole(Packet(protocol, [0xFA, 0xCE, 0xFA, 0xCE, 0, 0, 0, 0]), tail)
  {
    var payload: Bytes := [0xFA, 0xCE, 0xFA, 0xCE, 0, 0, 0, 0];
    Be32OfDigits(0xFA, 0xCE, 0xFA, 0xCE);
    Be32Prefix(payload);
    hide Be32;
    hide ReadPacket;
    hide V1Packet;
    assert payload[..4] == [0xFA, 0xCE, 0xFA, 0xCE];
    ReadV1Packet(protocol, payload, tail);
  }
}
