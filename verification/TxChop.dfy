/** How many ring entries vmxnet_tx reserves for a packet, how it chops the packet over them, and
    that the two agree. */
module TxChop {
  import opened MachineInts
  import opened Packet
  import opened TxMap

  const TX_PKT_HEADER_SIZE := 128

  function IphOffset(h: Headers): nat {
    if h.kind.vlan then 18 else 14
  }

  function TcphOffset(h: Headers): nat {
    IphOffset(h) + 2 * |h.ip|
  }

  /** The headers to copy: all of them for TCP, MAC and IP otherwise, only MAC for non-IP frames. */
  function HeaderSize(h: Headers): nat {
    match h.kind
    case Tcp(_) => TcphOffset(h) + 4 * h.tcpWords
    case OtherIp(_) => TcphOffset(h)
    case NonIp(_) => IphOffset(h)
  }

  function CeilDiv(a: nat, b: nat): nat
    requires b > 0
  {
    (a + b - 1) / b
  }

  /** The entries reserved for a packet, before anything is mapped. */
  function TxEntries(p: Skb, headerSize: nat, copyHeaders: bool): nat
    requires headerSize <= |p.linear|
  {
    var linearPayload := |p.linear| - headerSize;
    if linearPayload > MAX_LINEAR then
      CeilDiv(linearPayload, MAX_LINEAR) + (|p.frags| + SG_LENGTH - 2) / (SG_LENGTH - 1)
    else
      var sgEntries := |p.frags| + 1 + if copyHeaders && linearPayload > 0 then 1 else 0;
      if sgEntries <= SG_LENGTH then 1 else (sgEntries - SG_LENGTH + SG_LENGTH - 2) / (SG_LENGTH - 1) + 1
  }

  /** One entry is reserved exactly if the linear part after the headers is at most the mapping limit and the
      fragments fit beside it: into six gather slots, less one for copied headers if there are any, less one
      for the linear part. Without copied headers the linear part, headers included, always takes a slot. */
  lemma OneReservedExactly(p: Skb, headerSize: nat, copyHeaders: bool)
    requires headerSize <= |p.linear|
    ensures TxEntries(p, headerSize, copyHeaders) == 1
        <==> |p.linear| - headerSize <= 53248
             && |p.frags| <= if copyHeaders && headerSize < |p.linear| then 4 else 5
  {
  }

  /** How many entries are reserved beyond one: as many as five slots each are needed for the fragments, and for
      the linear part after copied headers or, if that is over the limit, apart from those. */
  lemma ReservedExactly(p: Skb, headerSize: nat, copyHeaders: bool)
    requires headerSize <= |p.linear| && TxEntries(p, headerSize, copyHeaders) > 1
    ensures var n, rest, frags := TxEntries(p, headerSize, copyHeaders), |p.linear| - headerSize, |p.frags|;
            if rest > MAX_LINEAR then
              exists forLinear, forFrags ::
                && n == forLinear + forFrags
                && MAX_LINEAR * (forLinear - 1) < rest <= MAX_LINEAR * forLinear
                && 5 * (forFrags - 1) < frags <= 5 * forFrags
            else 5 * (n - 1) < frags + (if copyHeaders && rest > 0 then 1 else 0) <= 5 * n
  {
    var rest := |p.linear| - headerSize;
    if rest > MAX_LINEAR {
      var forLinear, forFrags := CeilDiv(rest, MAX_LINEAR), (|p.frags| + 4) / 5;
      assert TxEntries(p, headerSize, copyHeaders) == forLinear + forFrags;
      assert MAX_LINEAR * (forLinear - 1) < rest <= MAX_LINEAR * forLinear;
      assert 5 * (forFrags - 1) < |p.frags| <= 5 * forFrags;
    }
  }

  /** The successive entries of a chopped packet, one gather slot of each taken by its headers. */
  function Chop(p: Skb, pos: MapPos): (ms: seq<Mapped>)
    requires ValidSkb(p) && Resumable(p, pos)
    ensures |ms| >= 1
    decreases WorkLeft(p, pos)
  {
    var m := MapEntry(p, 1, pos);
    MapEntryProgress(p, 1, pos);
    if m.eop then [m] else [m] + Chop(p, m.pos)
  }

  function StartPos(p: Skb, headerSize: nat): MapPos
    requires headerSize <= |p.linear|
  {
    MapPos(FRAG_LINEAR, |p.linear| - headerSize > MAX_LINEAR, headerSize, 0)
  }

  /** Bytes mapped by the entries before the k-th. */
  function Before(ms: seq<Mapped>, k: nat): nat
    requires k <= |ms|
  {
    if k == 0 then 0 else Before(ms, k - 1) + ms[k - 1].pos.mappedLen
  }

  lemma {:induction false} BeforeTail(ms: seq<Mapped>, k: nat)
    requires 1 <= k <= |ms|
    ensures Before(ms, k) == ms[0].pos.mappedLen + Before(ms[1..], k - 1)
  {
    if k > 1 {
      BeforeTail(ms, k - 1);
    }
  }

  // ----- mapping does not look at the header fields -----

  lemma {:induction false} SameFrags(p: Skb, h: Headers, i: nat, j: nat)
    requires ValidSkb(p) && i <= j <= |p.frags|
    ensures FragElems(p.(headers := h), i, j) == FragElems(p, i, j) && FragLen(p.(headers := h), i, j) == FragLen(p, i, j)
    decreases j - i
  {
    if i < j {
      SameFrags(p, h, i, j - 1);
    }
  }

  lemma SameLead(p: Skb, h: Headers, used: nat, pos: MapPos)
    requires ValidSkb(p) && Resumable(p, pos)
    ensures Resumable(p.(headers := h), pos) && LeadOf(p.(headers := h), used, pos) == LeadOf(p, used, pos)
  {
    hide SkipCopied;
  }

  lemma SameMapping(p: Skb, h: Headers, used: nat, pos: MapPos)
    requires ValidSkb(p) && Resumable(p, pos) && used < SG_LENGTH
    ensures Resumable(p.(headers := h), pos)
    ensures MapEntry(p.(headers := h), used, pos) == MapEntry(p, used, pos)
  {
    hide LeadOf, FragElems, FragLen, Min;
    var l := LeadOf(p, used, pos);
    SameLead(p, h, used, pos);
    SameFrags(p, h, l.nextFrag, FragEnd(p, l.nextFrag, used + |l.sg|));
  }

  lemma {:induction false} SameChop(p: Skb, h: Headers, pos: MapPos)
    requires ValidSkb(p) && Resumable(p, pos)
    ensures Resumable(p.(headers := h), pos) && Chop(p.(headers := h), pos) == Chop(p, pos)
    decreases WorkLeft(p, pos)
  {
    hide MapEntry;
    SameMapping(p, h, 1, pos);
    MapEntryProgress(p, 1, pos);
    var m := MapEntry(p, 1, pos);
    if !m.eop {
      SameChop(p, h, m.pos);
    }
  }

  lemma {:induction false} SameGather(p: Skb, h: Headers, sg: seq<SgElem>)
    requires AllInPacket(p, sg)
    ensures AllInPacket(p.(headers := h), sg) && Gather(p.(headers := h), sg) == Gather(p, sg)
  {
    if sg != [] {
      SameGather(p, h, sg[1..]);
    }
  }

  // ----- the byte stream -----

  lemma SliceAfter(a: seq<byte>, b: seq<byte>, i: nat, j: nat)
    requires i <= j <= |b|
    ensures (a + b)[|a| + i..|a| + j] == b[i..j]
  {
  }

  /** Entry k gathers its own slice of all bytes. */
  predicate Tiles(p: Skb, ms: seq<Mapped>, all: seq<byte>, k: nat)
    requires k < |ms|
  {
    && Before(ms, k) + ms[k].pos.mappedLen == Before(ms, k + 1) <= |all|
    && AllInPacket(p, ms[k].sg)
    && Gather(p, ms[k].sg) == all[Before(ms, k)..Before(ms, k + 1)]
  }

  /** A tile of the rest is a tile of the whole, one place later. */
  lemma TileLater(p: Skb, ms: seq<Mapped>, first: seq<byte>, rest: seq<byte>, k: nat)
    requires 0 < k < |ms| && Tiles(p, ms[1..], rest, k - 1) && ms[0].pos.mappedLen == |first|
    ensures Tiles(p, ms, first + rest, k)
  {
    hide Gather, AllInPacket, Before;
    BeforeTail(ms, k);
    BeforeTail(ms, k + 1);
    SliceAfter(first, rest, Before(ms[1..], k - 1), Before(ms[1..], k));
  }

  lemma {:induction false} ChopTilesAt(p: Skb, pos: MapPos, k: nat)
    requires ValidSkb(p) && Resumable(p, pos) && !CapsLinear(p, pos) && k < |Chop(p, pos)|
    ensures Tiles(p, Chop(p, pos), Remaining(p, pos), k)
    decreases k
  {
    hide MapEntry, Gather, Remaining;
    var ms, m := Chop(p, pos), MapEntry(p, 1, pos);
    MapEntryStreamExactly(p, 1, pos);
    MapEntryProgress(p, 1, pos);
    if k == 0 {
      assert Before(ms, 1) == m.pos.mappedLen;
    } else {
      hide Tiles;
      assert ms[1..] == Chop(p, m.pos);
      ChopTilesAt(p, m.pos, k - 1);
      TileLater(p, ms, Gather(p, m.sg), Remaining(p, m.pos), k);
    }
  }

  /** Entry k delivers exactly the bytes that follow those of the entries before it. */
  lemma ChopTiles(p: Skb, pos: MapPos, k: nat)
    requires ValidSkb(p) && Resumable(p, pos) && !CapsLinear(p, pos) && k < |Chop(p, pos)|
    ensures var ms, all := Chop(p, pos), Remaining(p, pos);
            && Before(ms, k) + ms[k].pos.mappedLen == Before(ms, k + 1) <= |all|
            && AllInPacket(p, ms[k].sg)
            && Gather(p, ms[k].sg) == all[Before(ms, k)..Before(ms, k + 1)]
  {
    hide Chop, Gather, Remaining, Before;
    ChopTilesAt(p, pos, k);
  }

  lemma {:induction false} ChopTotal(p: Skb, pos: MapPos)
    requires ValidSkb(p) && Resumable(p, pos) && !CapsLinear(p, pos)
    ensures Before(Chop(p, pos), |Chop(p, pos)|) == |Remaining(p, pos)|
    decreases WorkLeft(p, pos)
  {
    hide MapEntry, Gather;
    var ms, m := Chop(p, pos), MapEntry(p, 1, pos);
    MapEntryStreamExactly(p, 1, pos);
    MapEntryProgress(p, 1, pos);
    if !m.eop {
      hide Remaining, Before;
      assert ms[1..] == Chop(p, m.pos);
      ChopTotal(p, m.pos);
      BeforeTail(ms, |ms|);
    } else {
      assert Before(ms, 1) == m.pos.mappedLen;
    }
  }

  /** The end-of-packet mark is set on the last entry and on no other. */
  lemma {:induction false} ChopEop(p: Skb, pos: MapPos, k: nat)
    requires ValidSkb(p) && Resumable(p, pos) && k < |Chop(p, pos)|
    ensures Chop(p, pos)[k].eop <==> k == |Chop(p, pos)| - 1
    decreases k
  {
    var m := MapEntry(p, 1, pos);
    MapEntryProgress(p, 1, pos);
    if k > 0 {
      ChopEop(p, m.pos, k - 1);
    }
  }

  // ----- the count -----

  /** Entries of five free slots each for d elements; an entry is used even for none. */
  function Need(d: nat): nat {
    if d == 0 then 1 else (d + SG_LENGTH - 2) / (SG_LENGTH - 1)
  }

  function LeadingEmpty(frags: seq<seq<byte>>): (n: nat)
    ensures n <= |frags|
    ensures frags != [] && frags[0] != [] ==> n == 0
  {
    SkipCopiedStops(frags, 0);
    SkipCopied(frags, 0).0
  }

  lemma {:induction false} CountFrags(p: Skb, pos: MapPos)
    requires ValidSkb(p) && 0 <= pos.nextFrag < |p.frags|
    ensures |Chop(p, pos)| == Need(|p.frags| - pos.nextFrag)
    decreases |p.frags| - pos.nextFrag
  {
    var m := MapEntry(p, 1, pos);
    if !m.eop {
      CountFrags(p, m.pos);
    }
  }

  lemma CountMixed(p: Skb, pos: MapPos)
    requires ValidSkb(p) && pos.nextFrag == FRAG_LINEAR && !pos.giantLinear && pos.offset <= |p.linear|
    ensures |Chop(p, pos)| == Need(if pos.offset < |p.linear| then |p.frags| + 1 else |p.frags| - LeadingEmpty(p.frags))
  {
    hide SkipCopied;
    SkipCopiedStops(p.frags, 0);
    var m := MapEntry(p, 1, pos);
    if !m.eop {
      CountFrags(p, m.pos);
    }
  }

  lemma {:induction false} CountGiant(p: Skb, pos: MapPos)
    requires ValidSkb(p) && pos.nextFrag == FRAG_LINEAR && pos.giantLinear && pos.offset < |p.linear|
    ensures |Chop(p, pos)| == CeilDiv(|p.linear| - pos.offset, MAX_LINEAR) + (|p.frags| + SG_LENGTH - 2) / (SG_LENGTH - 1)
    decreases |p.linear| - pos.offset
  {
    var m := MapEntry(p, 1, pos);
    if m.pos.nextFrag == FRAG_LINEAR {
      CountGiant(p, m.pos);
    } else if !m.eop {
      CountFrags(p, m.pos);
    }
  }

  /** The chop loop never uses more entries than were reserved, and exactly that many unless the
      headers fill the linear part and leading empty fragments save an entry. */
  lemma ReservationExactly(p: Skb, headerSize: nat)
    requires ValidSkb(p) && headerSize <= |p.linear|
    ensures var used, reserved := |Chop(p, StartPos(p, headerSize))|, TxEntries(p, headerSize, true);
            && used <= reserved
            && (used == reserved <==>
                  headerSize < |p.linear| || Need(|p.frags| - LeadingEmpty(p.frags)) == Need(|p.frags|))
            && ((forall i | 0 <= i < |p.frags| :: p.frags[i] != []) ==> used == reserved)
  {
    hide Chop, SkipCopied, LeadingEmpty;
    var pos := StartPos(p, headerSize);
    if pos.giantLinear {
      CountGiant(p, pos);
    } else {
      CountMixed(p, pos);
    }
  }

  // ----- packets that go into one entry -----

  /** One entry, after `used` slots, holds everything from `offset` on and is marked as the last. */
  predicate OneEntrySuffices(p: Skb, used: nat, giant: bool, offset: nat)
    requires ValidSkb(p) && offset <= |p.linear| && used < SG_LENGTH
  {
    var m := MapEntry(p, used, MapPos(FRAG_LINEAR, giant, offset, 0));
    m.eop && AllInPacket(p, m.sg) && Gather(p, m.sg) == Bytes(p)[offset..]
  }

  lemma OneEntryExactly(p: Skb, used: nat, giant: bool, offset: nat)
    requires ValidSkb(p) && offset <= |p.linear| && used < SG_LENGTH
    ensures OneEntrySuffices(p, used, giant, offset)
        <==> if offset == |p.linear| then |p.frags| - LeadingEmpty(p.frags) <= SG_LENGTH - used
             else |p.linear| - offset <= MAX_LINEAR && |p.frags| <= if giant then 0 else SG_LENGTH - used - 1
  {
    hide SkipCopied, Gather, Flat;
    var pos := MapPos(FRAG_LINEAR, giant, offset, 0);
    var m := MapEntry(p, used, pos);
    SkipCopiedStops(p.frags, 0);
    MapEntryStreamExactly(p, used, pos);
    MapEntryProgress(p, used, pos);
  }

  /** The offset where mapping starts on the one-entry path; the copied headers are capped. */
  function OneEntryOffset(headerSize: nat, copyHeaders: bool): nat {
    if copyHeaders then Min(headerSize, TX_PKT_HEADER_SIZE) else 0
  }

  /** Packets predicted to need one entry do fit into one, except when the mapped part of the linear
      area is too long, or when capped headers leave a linear rest next to five fragments. */
  lemma DirectPathExactly(p: Skb, headerSize: nat, copyHeaders: bool)
    requires ValidSkb(p) && headerSize <= |p.linear| && TxEntries(p, headerSize, copyHeaders) == 1
    ensures OneEntrySuffices(p, if copyHeaders then 1 else 0, StartPos(p, headerSize).giantLinear,
                             OneEntryOffset(headerSize, copyHeaders))
        <==> |p.linear| - OneEntryOffset(headerSize, copyHeaders) <= MAX_LINEAR
             && !(copyHeaders && headerSize > TX_PKT_HEADER_SIZE && headerSize == |p.linear| && |p.frags| == SG_LENGTH - 1)
  {
    hide OneEntrySuffices, LeadingEmpty;
    var offset := OneEntryOffset(headerSize, copyHeaders);
    OneEntryExactly(p, if copyHeaders then 1 else 0, StartPos(p, headerSize).giantLinear, offset);
  }

  /** The packet after the kernel has copied all its fragments into the linear part. */
  function Linearized(p: Skb): (q: Skb)
    ensures ValidSkb(q) && Bytes(q) == Bytes(p)
  {
    assert Bytes(p) + [] == Bytes(p);
    p.(linear := Bytes(p), frags := [])
  }

  /** A linearized packet is transmitted completely exactly when what is left after the copied headers
      is at most MAX_LINEAR bytes, whatever was decided about the linear part before. */
  lemma LinearizedPathExactly(p: Skb, used: nat, giant: bool, offset: nat)
    requires offset <= |p.linear| && used < SG_LENGTH
    ensures OneEntrySuffices(Linearized(p), used, giant, offset) <==> |Bytes(p)| - offset <= MAX_LINEAR
  {
    hide OneEntrySuffices, LeadingEmpty;
    OneEntryExactly(Linearized(p), used, giant, offset);
  }

  /** A packet predicted to need one entry that does not fit: 134 bytes of headers and five fragments. */
  lemma CappedHeadersFail(p: Skb)
    requires HeaderSize(p.headers) == 134 == |p.linear| && p.frags == [[1], [1], [1], [1], [1]]
    ensures ValidSkb(p) && TxEntries(p, HeaderSize(p.headers), true) == 1
    ensures !OneEntrySuffices(p, 1, StartPos(p, 134).giantLinear, OneEntryOffset(HeaderSize(p.headers), true))
  {
    hide OneEntrySuffices;
    DirectPathExactly(p, 134, true);
  }

  /** A TCP packet whose linear part ends after the MAC header, the other headers being in a fragment: what is
      released is not what was mapped. */
  lemma SplitFragmentFails(p: Skb, slot: nat, b: TxBuf)
    requires p.headers.kind == Tcp(false) && |p.headers.ip| == 10 && p.headers.tcpWords == 5
    requires |p.linear| == 14 && |p.frags| == 1 && |p.frags[0]| == 100
    requires RecordedBy(b, MapEntry(p, 1, MapPos(FRAG_LINEAR, false, HeaderSize(p.headers), 0)))
    ensures HeaderSize(p.headers) == 54
    ensures var m := MapEntry(p, 1, MapPos(FRAG_LINEAR, false, HeaderSize(p.headers), 0));
            multiset(Releases([SgElem(HeaderCopy(slot), HeaderSize(p.headers))] + m.sg, b)) != multiset(m.pins)
  {
    assert p.frags == [p.frags[0]];
    FlatOne(p.frags[0]);
    assert SkipCopied(p.frags, 40) == (0, 40);
    UnmapMirrorsMapExactly(p, [SgElem(HeaderCopy(slot), 54)], MapPos(FRAG_LINEAR, false, 54, 0), b);
  }
}
