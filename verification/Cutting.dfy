/** A stream of data with marks in it, cut at the marks. */
module Cutting {
  import opened Wire

  /** What each item contributes, in order. */
  function PartsOf<T>(part: T -> Option<Bytes>, items: seq<T>): seq<Option<Bytes>> {
    if items == [] then [] else [part(items[0])] + PartsOf(part, items[1..])
  }

  lemma {:induction false} PartsAppend<T>(part: T -> Option<Bytes>, items: seq<T>, last: T)
    ensures PartsOf(part, items + [last]) == PartsOf(part, items) + [part(last)]
  {
    if items == [] {
      assert ([] + [last])[1..] == [];
      assert [part(last)] + [] == [] + [part(last)];
    } else {
      assert (items + [last])[1..] == items[1..] + [last];
      PartsAppend(part, items[1..], last);
    }
  }

  /** The data between the marks; a mark is an absent part. */
  function Cut(parts: seq<Option<Bytes>>): (s: seq<Bytes>)
    ensures s != []
  {
    if parts == [] then [[]]
    else
      var rest := Cut(parts[1..]);
      if parts[0].None? then [[]] + rest else [parts[0].value + rest[0]] + rest[1..]
  }

  /** All the data, marks aside. */
  function Gather(parts: seq<Option<Bytes>>): Bytes {
    if parts == [] then [] else (if parts[0].None? then [] else parts[0].value) + Gather(parts[1..])
  }

  /** The pieces with the last one extended. */
  function Extended(pieces: seq<Bytes>, data: Bytes): seq<Bytes>
    requires pieces != []
  {
    pieces[..|pieces| - 1] + [pieces[|pieces| - 1] + data]
  }

  lemma ExtendedBehind(piece: Bytes, pieces: seq<Bytes>, data: Bytes)
    requires pieces != []
    ensures Extended([piece] + pieces, data) == [piece] + Extended(pieces, data)
  {
  }

  lemma ExtendedJoined(more: Bytes, pieces: seq<Bytes>, data: Bytes)
    requires pieces != []
    ensures Extended(pieces, data) != []
    ensures [more + Extended(pieces, data)[0]] + Extended(pieces, data)[1..]
        == Extended([more + pieces[0]] + pieces[1..], data)
  {
    Associates(more, pieces[0], data);
  }

  lemma CutFirst(parts: seq<Option<Bytes>>, last: Option<Bytes>)
    requires parts != []
    ensures (parts + [last])[0] == parts[0] && (parts + [last])[1..] == parts[1..] + [last]
  {
  }

  lemma CutOne(last: Option<Bytes>)
    ensures Cut([] + [last]) == if last.None? then [[], []] else [last.value]
  {
    assert ([] + [last])[1..] == [];
    if last.Some? { assert last.value + [] == last.value; }
  }

  /** One more part starts a new piece or extends the last one. */
  lemma {:induction false} CutStep(parts: seq<Option<Bytes>>, last: Option<Bytes>)
    ensures Cut(parts + [last]) == if last.None? then Cut(parts) + [[]] else Extended(Cut(parts), last.value)
  {
    if parts == [] {
      CutOne(last);
      if last.Some? { assert [] + last.value == last.value; }
    } else {
      CutFirst(parts, last);
      CutStep(parts[1..], last);
      var before := Cut(parts[1..]);
      hide Extended;
      if last.Some? {
        ExtendedBehind([], before, last.value);
        if parts[0].Some? { ExtendedJoined(parts[0].value, before, last.value); }
      }
    }
  }

  lemma FlatOne(piece: Bytes)
    ensures Flat([piece]) == piece
  {
    assert [piece][1..] == [];
    assert piece + [] == piece;
  }

  /** Cutting loses nothing. */
  lemma {:induction false} FlatCut(parts: seq<Option<Bytes>>)
    ensures Flat(Cut(parts)) == Gather(parts)
  {
    if parts == [] {
      FlatOne([]);
    } else {
      FlatCut(parts[1..]);
      var rest := Cut(parts[1..]);
      if parts[0].None? {
        assert ([[]] + rest)[1..] == rest;
        assert [] + Flat(rest) == Flat(rest);
      } else {
        var joined := [parts[0].value + rest[0]] + rest[1..];
        assert joined[1..] == rest[1..];
        Associates(parts[0].value, rest[0], Flat(rest[1..]));
      }
    }
  }
}
