/** What a container delivers to its devices, and what a whole capture makes of each of them. */
module Records {
  import opened Wire
  import opened Transfers
  import opened LinkTypes
  import TL = TransferLaws

  /** A captured packet with its link type, or a complaint of the container about itself. */
  datatype Item = Deliver(linktype: uint32, data: Bytes) | Complain

  function Take(c: Capture, item: Item): (r: Capture)
    requires Coherent(c)
    ensures Coherent(r)
  {
    if item.Deliver? then Packet(c, item.linktype, item.data) else c.(warnings := c.warnings + 1)
  }

  function TakeAll(c: Capture, items: seq<Item>): (r: Capture)
    requires Coherent(c)
    ensures Coherent(r)
    decreases |items|
  {
    if items == [] then c else Take(TakeAll(c, items[..|items| - 1]), items[|items| - 1])
  }

  lemma TakeOne(c: Capture, items: seq<Item>, item: Item)
    requires Coherent(c)
    ensures TakeAll(c, items + [item]) == Take(TakeAll(c, items), item)
  {
    assert (items + [item])[..|items|] == items;
  }

  lemma TakeNone(c: Capture)
    requires Coherent(c)
    ensures TakeAll(c, []) == c
  {
  }

  /** What a container's reader makes of a file: what it delivers, and whether it ends in a parse error. */
  datatype Walked = Walked(items: seq<Item>, failed: bool)

  /** The packets among the items. */
  function Delivered(items: seq<Item>): seq<Item> {
    if items == [] then []
    else (if items[0].Deliver? then [items[0]] else []) + Delivered(items[1..])
  }

  lemma {:induction false} DeliveredAppend(a: seq<Item>, b: seq<Item>)
    ensures Delivered(a + b) == Delivered(a) + Delivered(b)
  {
    if a == [] {
      assert a + b == b;
    } else {
      assert (a + b)[1..] == a[1..] + b;
      DeliveredAppend(a[1..], b);
    }
  }

  // ---- Devices do not disturb each other ----

  function Read(item: Item): Reading {
    if item.Deliver? && Supported(item.linktype) then ReadPacket(item.linktype, item.data) else Refused
  }

  /** The item is about the device. */
  predicate Names(item: Item, device: uint64) {
    !Read(item).Refused? && Read(item).device == device
  }

  predicate Bears(item: Item, device: uint64) {
    Read(item).Occurs? && Read(item).device == device
  }

  /** The events on one device, in order. */
  function OpsFor(items: seq<Item>, device: uint64): seq<Op>
    decreases |items|
  {
    if items == [] then []
    else
      var before, last := OpsFor(items[..|items| - 1], device), items[|items| - 1];
      if Bears(last, device) then before + [Read(last).op] else before
  }

  function HandleOf(c: Capture, device: uint64): (h: Handle)
    requires Coherent(c)
    ensures h.sessions != []
  {
    if device in c.devices then c.devices[device] else FIRST
  }

  lemma DriveTouches(c: Capture, reading: Reading, device: uint64)
    requires Coherent(c)
    ensures device in Drive(c, reading).devices
       <==> device in c.devices || (!reading.Refused? && reading.device == device)
    ensures HandleOf(Drive(c, reading), device)
         == if reading.Occurs? && reading.device == device then Step(HandleOf(c, device), reading.op)
             else HandleOf(c, device)
    ensures Drive(c, reading).order
         == c.order + if !reading.Refused? && reading.device !in c.devices then [reading.device] else []
    ensures Drive(c, reading).packets == c.packets
  {
    hide Step;
    hide Listed;
    assert c.order + [] == c.order;
  }

  /** What one item does: to the device it names, and to no other. */
  lemma TakeTouches(c: Capture, item: Item, device: uint64)
    requires Coherent(c)
    ensures device in Take(c, item).devices <==> device in c.devices || Names(item, device)
    ensures HandleOf(Take(c, item), device)
         == if Bears(item, device) then Step(HandleOf(c, device), Read(item).op) else HandleOf(c, device)
    ensures Take(c, item).order
         == c.order + if !Read(item).Refused? && Read(item).device !in c.devices then [Read(item).device] else []
    ensures Take(c, item).packets == c.packets + if item.Deliver? then 1 else 0
  {
    hide Step;
    hide ReadPacket;
    hide Supported;
    hide Listed;
    assert c.order + [] == c.order;
    if item.Deliver? && Supported(item.linktype) {
      DriveTouches(c.(packets := c.packets + 1), Read(item), device);
    }
    hide Drive;
  }

  /** A device's handle is the run of its own events, whatever else the capture holds. */
  lemma {:induction false} DevicesAreIsolated(items: seq<Item>, device: uint64)
    ensures HandleOf(TakeAll(BLANK, items), device) == TL.RunOps(OpsFor(items, device))
    decreases |items|
  {
    if items == [] {
    } else {
      var init, last := items[..|items| - 1], items[|items| - 1];
      DevicesAreIsolated(init, device);
      TakeTouches(TakeAll(BLANK, init), last, device);
      var ops := OpsFor(init, device);
      if Bears(last, device) {
        assert TL.Init(ops + [Read(last).op]) == ops;
      }
      hide Step;
      hide Take;
      hide Bears;
    }
  }

  /** The first item naming a device, if there is one. */
  ghost predicate FirstNaming(items: seq<Item>, device: uint64, k: nat) {
    k < |items| && Names(items[k], device) && forall j | 0 <= j < k :: !Names(items[j], device)
  }

  /** The devices listed are those named, each once, in order of first appearance. */
  ghost predicate InOrder(items: seq<Item>, c: Capture) {
    && (forall device: uint64 :: device in c.devices <==> exists k: nat :: FirstNaming(items, device, k))
    && (forall i, j, k: nat, l: nat | 0 <= i < j < |c.order|
          && FirstNaming(items, c.order[i], k) && FirstNaming(items, c.order[j], l) :: k < l)
  }

  lemma FirstNamingStep(items: seq<Item>, last: Item, device: uint64, k: nat)
    ensures FirstNaming(items + [last], device, k) <==>
              FirstNaming(items, device, k)
              || (k == |items| && Names(last, device) && forall j: nat :: !FirstNaming(items, device, j))
  {
    hide Names;
    var whole := items + [last];
    assert forall j | 0 <= j < |items| :: whole[j] == items[j];
    if FirstNaming(whole, device, k) && k == |items| {
      forall j: nat
        ensures !FirstNaming(items, device, j)
      {
        if j < |items| { assert !Names(whole[j], device); }
      }
    }
    if k == |items| && Names(last, device) && !FirstNaming(whole, device, k) {
      var j :| 0 <= j < k && Names(whole[j], device);
      var m := FirstOf(items, device, j);
      assert FirstNaming(items, device, m);
    }
  }

  lemma {:induction false} FirstOf(items: seq<Item>, device: uint64, j: nat) returns (m: nat)
    requires j < |items| && Names(items[j], device)
    ensures FirstNaming(items, device, m)
    decreases j
  {
    hide Names;
    if i :| 0 <= i < j && Names(items[i], device) {
      m := FirstOf(items, device, i);
    } else {
      m := j;
    }
  }

  lemma {:induction false} OrderIsAppearance(items: seq<Item>)
    ensures InOrder(items, TakeAll(BLANK, items))
    decreases |items|
  {
    if items == [] {
    } else {
      var init, last := items[..|items| - 1], items[|items| - 1];
      assert init + [last] == items;
      OrderIsAppearance(init);
      OrderStep(init, last, TakeAll(BLANK, init));
    }
  }

  /** The new last item can only name a device for the first time behind every earlier first mention. */
  lemma FirstNamingLast(items: seq<Item>, last: Item, device: uint64, k: nat)
    requires FirstNaming(items + [last], device, k)
    ensures (exists m: nat :: FirstNaming(items, device, m)) ==> k < |items| && FirstNaming(items, device, k)
    ensures (forall m: nat :: !FirstNaming(items, device, m)) ==> k == |items|
  {
    FirstNamingStep(items, last, device, k);
    FirstNamingBounds(items, device, k);
    hide FirstNaming;
  }

  lemma NamedStep(items: seq<Item>, last: Item, c: Capture, device: uint64)
    requires Coherent(c) && InOrder(items, c)
    ensures device in Take(c, last).devices <==> exists k: nat :: FirstNaming(items + [last], device, k)
  {
    hide FirstNaming;
    TakeTouches(c, last, device);
    hide Take;
    hide HandleOf;
    if k: nat :| FirstNaming(items, device, k) {
      FirstNamingStep(items, last, device, k);
    } else {
      FirstNamingStep(items, last, device, |items|);
      if k: nat :| FirstNaming(items + [last], device, k) { FirstNamingStep(items, last, device, k); }
    }
  }

  lemma OrderStep(items: seq<Item>, last: Item, c: Capture)
    requires Coherent(c) && InOrder(items, c)
    ensures InOrder(items + [last], Take(c, last))
  {
    hide FirstNaming;
    hide Take;
    hide HandleOf;
    hide Read;
    hide Bears;
    var whole, after := items + [last], Take(c, last);
    forall device: uint64
      ensures device in after.devices <==> exists k: nat :: FirstNaming(whole, device, k)
    {
      NamedStep(items, last, c, device);
    }
    TakeTouches(c, last, 0);
    forall i, j, k: nat, l: nat | 0 <= i < j < |after.order|
      && FirstNaming(whole, after.order[i], k) && FirstNaming(whole, after.order[j], l)
      ensures k < l
    {
      assert after.order[i] == c.order[i] && c.order[i] in c.devices;
      FirstNamingLast(items, last, after.order[i], k);
      FirstNamingLast(items, last, after.order[j], l);
    }
  }

  lemma FirstNamingBounds(items: seq<Item>, device: uint64, k: nat)
    ensures FirstNaming(items, device, k) ==> k < |items|
  {
  }

  // ---- What is counted ----

  /** Darwin, USBPcap, and usbmon in its two layouts (the tcpdump registry of link types). */
  const USB_LINKTYPES: set<uint32> := {266, 249, 189, 220}

  /** A link type was delivered. */
  predicate Seen(items: seq<Item>, linktype: uint32) {
    exists i | 0 <= i < |items| :: items[i].Deliver? && items[i].linktype == linktype
  }

  /** Complaints, packets that cannot be read or whose setup packet is missing, and the first packet of each other link
      type are warned of. */
  predicate Warned(before: seq<Item>, item: Item) {
    if item.Complain? then true
    else if item.linktype in USB_LINKTYPES then
      Read(item).Refused? || (Read(item).Mention? && Read(item).warned)
    else !Seen(before, item.linktype)
  }

  function Warnings(items: seq<Item>): nat
    decreases |items|
  {
    if items == [] then 0
    else
      var init, last := items[..|items| - 1], items[|items| - 1];
      Warnings(init) + if Warned(init, last) then 1 else 0
  }

  lemma SeenMore(items: seq<Item>, last: Item, linktype: uint32)
    ensures Seen(items + [last], linktype)
       <==> Seen(items, linktype) || (last.Deliver? && last.linktype == linktype)
  {
    var whole := items + [last];
    assert whole[|items|] == last;
    if Seen(items, linktype) {
      var i :| 0 <= i < |items| && items[i].Deliver? && items[i].linktype == linktype;
      assert whole[i] == items[i];
    }
  }

  lemma TakeCounts(c: Capture, item: Item)
    requires Coherent(c)
    ensures var after, known := Take(c, item), item.Deliver? && item.linktype in USB_LINKTYPES;
            && after.packets == c.packets + (if item.Deliver? then 1 else 0)
            && after.unsupported == c.unsupported + (if item.Deliver? && !known then {item.linktype} else {})
            && after.warnings == c.warnings
                 + (if item.Complain? || (known && (Read(item).Refused? || (Read(item).Mention? && Read(item).warned)))
                       || (item.Deliver? && !known && item.linktype !in c.unsupported) then 1 else 0)
            && (known ==> (Decodes(Read(item)) <==> after.warnings == c.warnings))
  {
    hide Step;
    hide ReadDarwin;
    hide ReadUsbPcap;
    hide ReadUsbmon;
    hide Listed;
    assert item.Deliver? ==> (Supported(item.linktype) <==> item.linktype in USB_LINKTYPES);
  }

  /** Packets, warnings and unknown link types are counted as they come. */
  lemma {:induction false} ItemsAreCounted(items: seq<Item>)
    ensures var c := TakeAll(BLANK, items);
            && c.packets == |Delivered(items)| && c.warnings == Warnings(items)
            && forall linktype :: linktype in c.unsupported <==> linktype !in USB_LINKTYPES && Seen(items, linktype)
    decreases |items|
  {
    hide Take;
    hide Decodes;
    hide Seen;
    if items == [] {
      assert forall linktype :: !Seen(items, linktype) by { NothingSeen(); }
    } else {
      var init, last := items[..|items| - 1], items[|items| - 1];
      assert init + [last] == items;
      ItemsAreCounted(init);
      TakeCounts(TakeAll(BLANK, init), last);
      DeliveredAppend(init, [last]);
      assert [last][1..] == [];
      forall linktype
        ensures Seen(items, linktype) <==> Seen(init, linktype) || (last.Deliver? && last.linktype == linktype)
      {
        SeenMore(init, last, linktype);
      }
    }
  }

  lemma NothingSeen()
    ensures forall linktype :: !Seen([], linktype)
  {
  }
}
