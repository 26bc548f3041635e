/** What the device gets to read: the bytes of every packet sent, in order, whatever way the driver put
    the packet on the ring. */
module TxDelivery {
  import opened MachineInts
  import opened Packet
  import opened TxMap
  import opened TxChop
  import opened Segmentation
  import opened TxRing
  import opened TxDriver
  import opened TxSafety
  import opened TxRuns

  predicate Readable(es: seq<Filled>) {
    forall k | 0 <= k < |es| :: es[k].buf.skb.Some? && AllInPacket(es[k].buf.skb.value, es[k].data)
  }

  /** The packet bytes in a list of entries, header copies not counted. */
  function Delivered(es: seq<Filled>): seq<byte>
    requires Readable(es)
  {
    if es == [] then []
    else Delivered(es[..|es| - 1]) + Gather(es[|es| - 1].buf.skb.value, es[|es| - 1].data)
  }

  /** How many leading bytes of a packet go into the header buffer instead. */
  function HeaderBytes(cfg: Config, p: Skb): nat
    requires ValidConfig(cfg)
  {
    OneEntryOffset(HeaderSize(p.headers), cfg.copyHeaders)
  }

  lemma DeliveredOne(f: Filled)
    requires f.buf.skb.Some? && AllInPacket(f.buf.skb.value, f.data)
    ensures Readable([f]) && Delivered([f]) == Gather(f.buf.skb.value, f.data)
  {
    assert [f][..0] == [];
  }

  lemma {:induction false} DeliveredConcat(a: seq<Filled>, b: seq<Filled>)
    requires Readable(a) && Readable(b)
    ensures Readable(a + b) && Delivered(a + b) == Delivered(a) + Delivered(b)
  {
    hide Gather, AllInPacket;
    if b == [] {
      assert a + b == a;
    } else {
      assert (a + b)[..|a + b| - 1] == a + b[..|b| - 1];
      DeliveredConcat(a, b[..|b| - 1]);
    }
  }

  lemma {:induction false} ChoppedDelivers(cfg: Config, p: Skb, es: seq<Filled>, low: bool, k: nat)
    requires Choppable(p) && k <= |es| == |Pieces(p)|
    requires forall i | 0 <= i < |es| :: es[i] == PieceEntry(cfg, p, i, low)
    ensures Before(Pieces(p), k) <= |Bytes(p)| - HeaderSize(p.headers)
    ensures Readable(es[..k])
    ensures Delivered(es[..k]) == Bytes(p)[HeaderSize(p.headers)..][..Before(Pieces(p), k)]
  {
    hide Chop, Gather, Remaining, HeaderAt, Flat;
    var all := Bytes(p)[HeaderSize(p.headers)..];
    if k > 0 {
      var pos := StartPos(p, HeaderSize(p.headers));
      ChoppedDelivers(cfg, p, es, low, k - 1);
      RemainingAtStart(p, HeaderSize(p.headers));
      ChopTiles(p, pos, k - 1);
      assert es[..k][..k - 1] == es[..k - 1] && es[..k][k - 1] == PieceEntry(cfg, p, k - 1, low);
      SplitAt(all, Before(Pieces(p), k - 1), Before(Pieces(p), k));
    }
  }

  lemma SplitAt(all: seq<byte>, i: nat, j: nat)
    requires i <= j <= |all|
    ensures all[..j] == all[..i] + all[i..j]
  {
  }

  /** The entries of a packet deliver, in order, exactly the bytes after the copied headers. */
  lemma EntriesDeliver(cfg: Config, p: Skb, ringLength: nat, low: bool)
    requires ValidConfig(cfg) && Transmittable(cfg, ringLength, p)
    ensures var es := Entries(cfg, p, PlanFor(cfg, p, true), low);
            HeaderBytes(cfg, p) <= |Bytes(p)| && Readable(es) && Delivered(es) == Bytes(p)[HeaderBytes(cfg, p)..]
  {
    hide Chop, MapEntry, HeaderAt, Gather, Flat;
    var size := HeaderSize(p.headers);
    var es := Entries(cfg, p, PlanFor(cfg, p, true), low);
    match PlanFor(cfg, p, true)
    case Copied =>
      CopiedDelivers(p, low);
    case OneEntry(q) =>
      SingleDelivers(cfg, p, q, ringLength, low);
    case Chopped =>
      ChoppedDelivers(cfg, p, es, low, |es|);
      ChopTotal(p, StartPos(p, size));
      RemainingAtStart(p, size);
      assert es[..|es|] == es;
  }

  lemma CopiedDelivers(p: Skb, low: bool)
    requires p.frags == [] && |p.linear| <= 0xFFFF
    ensures Readable([CopiedEntry(p, low)]) && Delivered([CopiedEntry(p, low)]) == Bytes(p)
  {
    DeliveredOne(CopiedEntry(p, low));
    GatherOne(p, SgElem(Linear(0), |p.linear|));
  }

  lemma SingleDelivers(cfg: Config, p: Skb, q: Skb, ringLength: nat, low: bool)
    requires ValidConfig(cfg) && Transmittable(cfg, ringLength, p) && PlanFor(cfg, p, true) == OneEntry(q)
    ensures var f := SingleEntry(cfg, q, StartPos(p, HeaderSize(p.headers)).giantLinear, low);
            Readable([f]) && Delivered([f]) == Bytes(p)[HeaderBytes(cfg, p)..]
  {
    hide Gather, MapEntry, Flat;
    var size := HeaderSize(p.headers);
    var giant, used := StartPos(p, size).giantLinear, if cfg.copyHeaders then 1 else 0;
    if Reserved(cfg, p) == 1 {
      DirectPathExactly(p, size, cfg.copyHeaders);
    } else {
      LinearizedPathExactly(p, used, giant, HeaderBytes(cfg, p));
    }
    DeliveredOne(SingleEntry(cfg, q, giant, low));
  }

  /** Every entry starts with a copy of the headers exactly if headers are copied, and then with the bytes of
      the packet that are not gathered; on the one-entry paths no other fields are stored over them. */
  lemma EntriesCarryHeaders(cfg: Config, p: Skb, ringLength: nat, low: bool, k: nat)
    requires ValidConfig(cfg) && Transmittable(cfg, ringLength, p)
    requires k < |Entries(cfg, p, PlanFor(cfg, p, true), low)|
    ensures HeaderBytes(cfg, p) <= |Bytes(p)|
    ensures var f := Entries(cfg, p, PlanFor(cfg, p, true), low)[k];
            && (f.header.Some? <==> cfg.copyHeaders)
            && (f.header.Some? ==> f.header.value.raw == Bytes(p)[..HeaderBytes(cfg, p)])
            && (f.header.Some? && PlanFor(cfg, p, true).OneEntry? ==>
                  f.header.value == HeaderSlot(Bytes(p)[..HeaderBytes(cfg, p)], p.headers.ip, p.headers.tcp))
  {
    hide Chop, MapEntry, StartPos, Bytes, Rewritten, Seed, SeqAt, IdAt;
    HeaderPrefix(p, OneEntryOffset(HeaderSize(p.headers), cfg.copyHeaders));
    PrefixOfLinearized(p, OneEntryOffset(HeaderSize(p.headers), cfg.copyHeaders));
  }

  lemma PrefixOfLinearized(p: Skb, n: nat)
    requires n <= |p.linear|
    ensures n <= |Bytes(p)| && Linearized(p).linear[..n] == Bytes(p)[..n]
  {
  }

  /** A piece asks the device for the checksum, and for segmentation exactly when it gathers more bytes than
      one segment of the packet may have. */
  lemma PiecesAskForOffload(cfg: Config, p: Skb, k: nat, low: bool)
    requires Choppable(p) && k < |Pieces(p)|
    ensures AllInPacket(p, Pieces(p)[k].sg)
    ensures var f := PieceEntry(cfg, p, k, low);
            && f.data == Pieces(p)[k].sg && HwXsum in f.flags && CanKeep in f.flags
            && f.tsoMss == (if Tso in f.flags then Some(p.tsoSize) else None)
            && (Tso in f.flags <==> p.tsoSize > 0 && |Gather(p, f.data)| > p.tsoSize)
  {
    hide Chop, Gather, HeaderAt;
    PieceBounds(p, k);
  }

  /** What every entry of a packet that is not chopped asks of the device: it may keep the entry, must complete
      the checksum exactly of a packet the kernel left it to, and must segment exactly a packet with a segment
      size, on a zero-copy adapter. */
  lemma EntriesAskForOffload(cfg: Config, p: Skb, ringLength: nat, low: bool, k: nat)
    requires ValidConfig(cfg) && Transmittable(cfg, ringLength, p) && !PlanFor(cfg, p, true).Chopped?
    requires k < |Entries(cfg, p, PlanFor(cfg, p, true), low)|
    ensures var f := Entries(cfg, p, PlanFor(cfg, p, true), low)[k];
            && CanKeep in f.flags
            && (HwXsum in f.flags <==> p.partialChecksum)
            && (Tso in f.flags <==> cfg.zeroCopy && p.tsoSize > 0)
            && f.tsoMss == (if cfg.zeroCopy && p.tsoSize > 0 then Some(p.tsoSize) else None)
            && (RingLow in f.flags <==> low)
  {
    hide MapEntry, StartPos, Bytes;
  }

  // ----- runs -----

  /** The bytes a packet contributes if an event sends it. */
  function PayloadIn(cfg: Config, s: TxState, e: Event): seq<byte>
    requires ValidConfig(cfg) && ValidRing(s)
  {
    if e.Xmit? && FateIn(cfg, s, e).Sent? && HeaderBytes(cfg, e.p) <= |Bytes(e.p)|
    then Bytes(e.p)[HeaderBytes(cfg, e.p)..] else []
  }

  function PayloadOf(cfg: Config, s: TxState, events: seq<Event>): seq<byte>
    requires ValidConfig(cfg) && ValidRing(s)
  {
    if events == [] then []
    else
      PayloadOf(cfg, s, events[..|events| - 1]) +
        PayloadIn(cfg, Run(cfg, s, events[..|events| - 1]), events[|events| - 1])
  }

  lemma EventDelivers(cfg: Config, s: TxState, e: Event)
    requires ValidConfig(cfg) && ValidRing(s)
    ensures Readable(EntriesIn(cfg, s, e)) && Delivered(EntriesIn(cfg, s, e)) == PayloadIn(cfg, s, e)
  {
    hide Entries, PlanFor, Available;
    if e.Xmit? && FateIn(cfg, s, e).Sent? {
      EntriesDeliver(cfg, e.p, |s.ring|, RingIsLow(s, EntryCount(cfg, e.p)));
    }
  }

  /** Over a whole run the ring entries carry the bytes of the packets sent, each without its copied headers,
      one packet after the other. */
  lemma {:induction false} RunEntries(cfg: Config, s: TxState, events: seq<Event>)
    requires ValidConfig(cfg) && ValidRing(s)
    ensures Readable(EntriesOf(cfg, s, events))
    ensures Delivered(EntriesOf(cfg, s, events)) == PayloadOf(cfg, s, events)
  {
    if events != [] {
      hide Readable, Delivered, EntriesIn, PayloadIn, Step;
      var before, e := events[..|events| - 1], events[|events| - 1];
      RunEntries(cfg, s, before);
      EventDelivers(cfg, Run(cfg, s, before), e);
      DeliveredConcat(EntriesOf(cfg, s, before), EntriesIn(cfg, Run(cfg, s, before), e));
    } else {
      assert EntriesOf(cfg, s, events) == [];
    }
  }

  // ----- what the device has read -----

  /** The packet bytes behind the gather lists the device found at its fetches. */
  ghost function ReadBytes(looks: seq<Look>, es: seq<Filled>): seq<byte>
    requires SameOrder(looks, es) && Readable(es)
  {
    if looks == [] then []
    else
      var n := |looks| - 1;
      LookIsReadable(looks[n], es[n]);
      ReadBytes(looks[..n], es) + Gather(es[n].buf.skb.value, Used(looks[n].entry))
  }

  lemma LookIsReadable(look: Look, f: Filled)
    requires ReadsFilled(look, f) && f.buf.skb.Some? && AllInPacket(f.buf.skb.value, f.data)
    ensures AllInPacket(f.buf.skb.value, Used(look.entry))
    ensures Gather(f.buf.skb.value, Used(look.entry)) == Gather(f.buf.skb.value, f.data)
  {
    var p, head := f.buf.skb.value, SgAt(f, look.slot)[..|SgAt(f, look.slot)| - |f.data|];
    assert SgAt(f, look.slot) == head + f.data;
    if head != [] {
      GatherOne(p, head[0]);
    }
    GatherConcat(p, head, f.data);
  }

  lemma {:induction false} ReadIsDelivered(looks: seq<Look>, es: seq<Filled>)
    requires SameOrder(looks, es) && Readable(es)
    ensures ReadBytes(looks, es) == Delivered(es[..|looks|])
    decreases |looks|
  {
    if looks != [] {
      hide Gather, ReadsFilled, AllInPacket;
      var n := |looks| - 1;
      ReadIsDelivered(looks[..n], es);
      LookIsReadable(looks[n], es[n]);
      assert es[..|looks|][..n] == es[..n];
    }
  }

  /** What the device has read in a run is the beginning of the bytes of the packets sent, each without its
      copied headers; once it has fetched all entries, it has read all of them. */
  lemma RunDelivers(cfg: Config, s: TxState, events: seq<Event>)
    requires ValidConfig(cfg) && Opened(s)
    ensures var looks, es := ReadIn(cfg, s, events), EntriesOf(cfg, s, events);
            && SameOrder(looks, es) && Readable(es)
            && ReadBytes(looks, es) <= PayloadOf(cfg, s, events)
            && (|looks| == |es| ==> ReadBytes(looks, es) == PayloadOf(cfg, s, events))
  {
    hide DriverInv, Readable, Delivered, PayloadOf, Run, ReadBytes, SameOrder;
    var looks, es := ReadIn(cfg, s, events), EntriesOf(cfg, s, events);
    var h := EveryRun(cfg, s, events);
    RunEntries(cfg, s, events);
    ReadIsDelivered(looks, es);
    assert |looks| <= |es| by { OrderBounds(looks, es); }
    assert es == es[..|looks|] + es[|looks|..];
    ReadableParts(es, |looks|);
    DeliveredConcat(es[..|looks|], es[|looks|..]);
    assert |looks| == |es| ==> es[..|looks|] == es;
  }

  lemma OrderBounds(looks: seq<Look>, es: seq<Filled>)
    requires SameOrder(looks, es)
    ensures |looks| <= |es|
  {
  }

  lemma ReadableParts(es: seq<Filled>, n: nat)
    requires Readable(es) && n <= |es|
    ensures Readable(es[..n]) && Readable(es[n..])
  {
  }
}
