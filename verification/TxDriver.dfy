/** The driver's transmit operations on the ring state: transmitting a packet, taking completed
    entries back, handling an interrupt and closing the device, with what each of them keeps. */
module TxDriver {
  import opened MachineInts
  import opened Packet
  import opened TxMap
  import opened TxChop
  import opened Segmentation
  import opened TxRing

  datatype TxStatus = CallTransmit | DeferTransmit | StopTransmit

  // ----- taking entries back -----

  /** Takes back up to n completed entries; also returns how many. */
  function Reap(cfg: Config, s: TxState, n: nat): (r: (TxState, nat))
    requires ValidRing(s)
    ensures ValidRing(r.0) && r.1 <= n && |r.0.ring| == |s.ring|
    decreases n
  {
    if n == 0 || !CanReap(s) || !ReleasesDefined(cfg, s) then (s, 0)
    else
      var (t, k) := Reap(cfg, ReapOne(cfg, s), n - 1);
      (t, k + 1)
  }

  /** check_tx_queue: everything completed is taken back, and if that was anything a stopped queue wakes. */
  function CheckTxQueue(cfg: Config, s: TxState): (t: TxState)
    requires ValidRing(s)
    ensures ValidRing(t) && |t.ring| == |s.ring|
  {
    var (t, completed) := Reap(cfg, s, |s.ring|);
    if completed == 0 then t
    else t.(pending := t.pending - completed, stopped := false, txStopped := t.txStopped && !t.stopped)
  }

  /** The transmit part of the interrupt handler. */
  function Interrupt(cfg: Config, s: TxState): (t: TxState)
    requires ValidRing(s)
    ensures ValidRing(t) && |t.ring| == |s.ring|
  {
    var t := if s.pending > 0 then CheckTxQueue(cfg, s) else s;
    t.(stopped := t.stopped && t.txStopped)
  }

  // ----- transmitting -----

  /** How a packet is put on the ring. */
  datatype Plan = Copied | OneEntry(q: Skb) | Chopped | Dropped

  predicate ValidConfig(cfg: Config) {
    cfg.copyHeaders ==> cfg.zeroCopy && cfg.pktMaxSize == TX_PKT_HEADER_SIZE
  }

  function Reserved(cfg: Config, p: Skb): nat
    requires HeaderSize(p.headers) <= |p.linear|
  {
    if cfg.zeroCopy then TxEntries(p, HeaderSize(p.headers), cfg.copyHeaders) else 1
  }

  /** Only a TCP packet whose headers can be copied is chopped; others are linearized first, and
      dropped if the kernel has no memory for that. */
  function PlanFor(cfg: Config, p: Skb, linearizeOk: bool): Plan
    requires HeaderSize(p.headers) <= |p.linear|
  {
    if !cfg.zeroCopy then Copied
    else if Reserved(cfg, p) == 1 then OneEntry(p)
    else if !p.headers.kind.Tcp? || !cfg.copyHeaders || HeaderSize(p.headers) > cfg.pktMaxSize then
      if linearizeOk then OneEntry(Linearized(p)) else Dropped
    else Chopped
  }

  function Flags(p: Skb, tso: bool, low: bool): set<TxFlag> {
    {CanKeep} + (if p.partialChecksum then {HwXsum} else {}) + (if tso then {Tso} else {})
    + (if low then {RingLow} else {})
  }

  function CopiedEntry(p: Skb, low: bool): Filled
    requires |p.linear| <= 0xFFFF
  {
    Filled(Flags(p, false, low), None, None, [SgElem(Linear(0), |p.linear|)], [], TxBuf(Some(p), 0, -1, true))
  }

  /** The packet's gather list in one entry; `giant` is what was decided about the original packet. */
  function SingleEntry(cfg: Config, q: Skb, giant: bool, low: bool): Filled
    requires ValidSkb(q) && HeaderSize(q.headers) <= |q.linear|
  {
    var size := Min(HeaderSize(q.headers), cfg.pktMaxSize);
    var m := MapEntry(q, if cfg.copyHeaders then 1 else 0,
                      MapPos(FRAG_LINEAR, giant, if cfg.copyHeaders then size else 0, 0));
    Filled(Flags(q, q.tsoSize > 0, low), if q.tsoSize > 0 then Some(q.tsoSize) else None,
           if cfg.copyHeaders then Some(HeaderSlot(q.linear[..size], q.headers.ip, q.headers.tcp)) else None,
           m.sg, m.pins, TxBuf(Some(q), m.sgForLinear, m.firstSgForFrag, m.eop))
  }

  /** The k-th piece of a chopped packet. The device is always asked for the checksum, and for
      segmentation when the piece is larger than the segment size. */
  function PieceEntry(cfg: Config, p: Skb, k: nat, low: bool): Filled
    requires Choppable(p) && k < |Pieces(p)|
  {
    var m := Pieces(p)[k];
    var tso := p.tsoSize > 0 && m.pos.mappedLen > p.tsoSize;
    Filled({HwXsum, CanKeep} + (if tso then {Tso} else {}) + (if m.eop && low then {RingLow} else {}),
           if tso then Some(p.tsoSize) else None,
           Some(HeaderAt(cfg.le, p, k)),
           m.sg, m.pins, TxBuf(Some(p), m.sgForLinear, m.firstSgForFrag, m.eop))
  }

  function PieceEntries(cfg: Config, p: Skb, low: bool): (es: seq<Filled>)
    requires Choppable(p)
    ensures |es| == |Pieces(p)|
  {
    seq(|Pieces(p)|, k requires 0 <= k < |Pieces(p)| => PieceEntry(cfg, p, k, low))
  }

  predicate Choppable(p: Skb) {
    && ValidSkb(p) && p.headers.kind.Tcp? && ValidHeaders(p.headers)
    && HeaderSize(p.headers) <= TX_PKT_HEADER_SIZE && HeaderSize(p.headers) <= |p.linear|
  }

  /** What the driver's callers and its environment guarantee about a packet: its headers lie in the
      linear part, the ring can hold its entries, and on the paths that use a single entry that
      entry can hold the packet. */
  predicate Transmittable(cfg: Config, ringLength: nat, p: Skb) {
    && ValidSkb(p) && HeaderSize(p.headers) <= |p.linear| && ValidHeaders(p.headers)
    && Reserved(cfg, p) <= ringLength
    && match PlanFor(cfg, p, true)
       case Copied => p.frags == [] && |p.linear| <= 0xFFFF
       case OneEntry(q) => |q.linear| - OneEntryOffset(HeaderSize(p.headers), cfg.copyHeaders) <= MAX_LINEAR
                           && !(cfg.copyHeaders && HeaderSize(p.headers) > TX_PKT_HEADER_SIZE
                                && HeaderSize(p.headers) == |p.linear| && |p.frags| == SG_LENGTH - 1 && q == p)
       case Chopped => |Bytes(p)| - IphOffset(p.headers) <= 0xFFFF
       case Dropped => true
  }

  /** The entries of a packet in ring order; `low` marks the last one. */
  function Entries(cfg: Config, p: Skb, plan: Plan, low: bool): (es: seq<Filled>)
    requires ValidConfig(cfg) && ValidSkb(p) && HeaderSize(p.headers) <= |p.linear| && ValidHeaders(p.headers)
    requires plan == PlanFor(cfg, p, true) && (plan.Copied? ==> |p.linear| <= 0xFFFF)
    ensures !plan.Dropped? ==> |es| >= 1
  {
    match plan
    case Copied => [CopiedEntry(p, low)]
    case OneEntry(q) => [SingleEntry(cfg, q, StartPos(p, HeaderSize(p.headers)).giantLinear, low)]
    case Chopped => PieceEntries(cfg, p, low)
    case Dropped => []
  }

  predicate AllFit(es: seq<Filled>) {
    forall k | 0 <= k < |es| :: Fits(es[k])
  }

  function SubmitAll(s: TxState, es: seq<Filled>): (t: TxState)
    requires ValidRing(s) && AllFit(es)
    ensures ValidRing(t) && |t.ring| == |s.ring|
  {
    if es == [] then s else Submit(SubmitAll(s, es[..|es| - 1]), es[|es| - 1])
  }

  /** The availability scan over the next n slots. */
  predicate Available(s: TxState, n: nat)
    requires ValidRing(s) && n <= |s.ring|
  {
    forall j | 0 <= j < n :: s.buf[Ahead(s.next, j, |s.ring|)].skb == None
  }

  /** The device is told to hurry when at most four slots would stay free; the unsigned subtraction
      wraps for rings shorter than five. */
  predicate RingIsLow(s: TxState, n: nat) {
    s.pending + n > (|s.ring| - 5) % 0x1_0000_0000
  }

  /** How much a packet adds to the count of packets the device has not been told about. */
  function Segments(cfg: Config, p: Skb, plan: Plan): nat {
    var size := if plan.OneEntry? then Min(HeaderSize(p.headers), cfg.pktMaxSize) else HeaderSize(p.headers);
    if cfg.zeroCopy && p.tsoSize > 0 && size <= |Bytes(p)| then CeilDiv(|Bytes(p)| - size, p.tsoSize) else 1
  }

  // ----- the entries of one packet -----

  lemma NotSplit(p: Skb, giant: bool, offset: nat)
    requires offset <= |p.linear|
    ensures !SplitsFragment(p, MapPos(FRAG_LINEAR, giant, offset, 0))
  {
    if offset == |p.linear| {
      SkipCopiedStops(p.frags, 0);
    }
  }

  lemma {:induction false} ChopNeverSplits(p: Skb, pos: MapPos, k: nat) returns (at: MapPos)
    requires ValidSkb(p) && Resumable(p, pos) && k < |Chop(p, pos)|
    requires pos.nextFrag == FRAG_LINEAR ==> pos.offset <= |p.linear|
    ensures Resumable(p, at) && !SplitsFragment(p, at) && Chop(p, pos)[k] == MapEntry(p, 1, at)
    decreases k
  {
    hide MapEntry;
    if k == 0 {
      at := pos;
      if pos.nextFrag == FRAG_LINEAR {
        SkipCopiedStops(p.frags, 0);
      }
    } else {
      MapEntryProgress(p, 1, pos);
      at := ChopNeverSplits(p, MapEntry(p, 1, pos).pos, k - 1);
    }
  }

  lemma PieceIsValid(cfg: Config, p: Skb, k: nat, low: bool)
    requires cfg.zeroCopy && Choppable(p) && k < |Pieces(p)|
    ensures ValidFilled(cfg, PieceEntry(cfg, p, k, low))
  {
    hide Chop, MapEntry, Releases, SplitsFragment, Rewritten, SeqAt, IdAt;
    var at := ChopNeverSplits(p, StartPos(p, HeaderSize(p.headers)), k);
    var f := PieceEntry(cfg, p, k, low);
    UnmapMirrorsMapExactly(p, [SgElem(HeaderCopy(0), |f.header.value.raw|)], at, f.buf);
    forall slot: nat ensures Releases(SgAt(f, slot), f.buf) == f.pins {
      UnmapMirrorsMapExactly(p, [SgElem(HeaderCopy(slot), |f.header.value.raw|)], at, f.buf);
    }
  }

  lemma SingleIsValid(cfg: Config, q: Skb, giant: bool, low: bool)
    requires ValidConfig(cfg) && cfg.zeroCopy && ValidSkb(q) && HeaderSize(q.headers) <= |q.linear|
    ensures ValidFilled(cfg, SingleEntry(cfg, q, giant, low))
  {
    hide MapEntry, Releases, SplitsFragment;
    var f := SingleEntry(cfg, q, giant, low);
    var offset := OneEntryOffset(HeaderSize(q.headers), cfg.copyHeaders);
    var at := MapPos(FRAG_LINEAR, giant, offset, 0);
    NotSplit(q, giant, offset);
    SingleReleases(f, q, at, 0);
    forall slot: nat ensures Releases(SgAt(f, slot), f.buf) == f.pins {
      SingleReleases(f, q, at, slot);
    }
  }

  lemma SingleReleases(f: Filled, q: Skb, at: MapPos, slot: nat)
    requires ValidSkb(q) && Resumable(q, at) && !SplitsFragment(q, at)
    requires f.header.Some? ==> |f.header.value.raw| <= 0xFFFF
    requires var m := MapEntry(q, if f.header.Some? then 1 else 0, at);
             f.data == m.sg && f.pins == m.pins && RecordedBy(f.buf, m) && f.buf.skb.Some?
    ensures Fits(f) && f.buf.sgForLinear < |SgAt(f, slot)| && 0 <= f.buf.firstSgForFrag <= |SgAt(f, slot)|
    ensures Releases(SgAt(f, slot), f.buf) == f.pins
  {
    hide MapEntry, Releases, SplitsFragment;
    if f.header.Some? {
      UnmapMirrorsMapExactly(q, [SgElem(HeaderCopy(slot), |f.header.value.raw|)], at, f.buf);
    } else {
      UnmapMirrorsMapExactly(q, [], at, f.buf);
      assert [] + f.data == f.data;
    }
  }

  /** Every entry of a packet is valid and belongs to it, exactly the last is marked as its end, and
      there are no more than were reserved. */
  ghost predicate PacketEntries(cfg: Config, id: nat, es: seq<Filled>) {
    && AllFit(es) && es != []
    && forall k {:trigger es[k]} | 0 <= k < |es| ::
         && ValidFilled(cfg, es[k]) && es[k].buf.skb.value.id == id
         && (es[k].buf.eop <==> k == |es| - 1)
  }

  lemma EntriesAreValid(cfg: Config, p: Skb, ringLength: nat, low: bool)
    requires ValidConfig(cfg) && Transmittable(cfg, ringLength, p)
    ensures var es := Entries(cfg, p, PlanFor(cfg, p, true), low);
            PacketEntries(cfg, p.id, es) && |es| == EntryCount(cfg, p) <= Reserved(cfg, p) <= ringLength
  {
    hide Chop, MapEntry, HeaderAt, OneEntrySuffices;
    var size := HeaderSize(p.headers);
    match PlanFor(cfg, p, true)
    case Copied =>
    case OneEntry(q) =>
      var giant := StartPos(p, size).giantLinear;
      SingleIsValid(cfg, q, giant, low);
      var used, offset := if cfg.copyHeaders then 1 else 0, OneEntryOffset(size, cfg.copyHeaders);
      if Reserved(cfg, p) == 1 {
        DirectPathExactly(p, size, cfg.copyHeaders);
      } else {
        LinearizedPathExactly(p, used, giant, offset);
      }
      SingleEop(cfg, q, giant, low);
      TxEntriesPositive(p, size, cfg.copyHeaders);
    case Chopped =>
      ReservationExactly(p, size);
      forall k | 0 <= k < |Pieces(p)|
        ensures ValidFilled(cfg, PieceEntry(cfg, p, k, low)) && (Pieces(p)[k].eop <==> k == |Pieces(p)| - 1)
      {
        PieceIsValid(cfg, p, k, low);
        ChopEop(p, StartPos(p, size), k);
      }
  }

  /** A frame without IP headers, one byte over the mapping limit: it is linearized and does not fit. */
  lemma LongLinearizedFails(cfg: Config, p: Skb)
    requires ValidConfig(cfg) && cfg.zeroCopy && p.headers.kind == NonIp(false)
    requires |p.linear| == 14 + MAX_LINEAR + 1 && p.frags == []
    ensures PlanFor(cfg, p, true) == OneEntry(Linearized(p))
    ensures !OneEntrySuffices(Linearized(p), if cfg.copyHeaders then 1 else 0, StartPos(p, 14).giantLinear,
                              OneEntryOffset(HeaderSize(p.headers), cfg.copyHeaders))
  {
    hide OneEntrySuffices;
    LinearizedPathExactly(p, if cfg.copyHeaders then 1 else 0, StartPos(p, 14).giantLinear,
                          OneEntryOffset(HeaderSize(p.headers), cfg.copyHeaders));
  }

  lemma TxEntriesPositive(p: Skb, size: nat, copyHeaders: bool)
    requires size <= |p.linear|
    ensures TxEntries(p, size, copyHeaders) >= 1
  {
  }

  lemma SingleEop(cfg: Config, q: Skb, giant: bool, low: bool)
    requires ValidConfig(cfg) && ValidSkb(q) && HeaderSize(q.headers) <= |q.linear|
    requires OneEntrySuffices(q, if cfg.copyHeaders then 1 else 0, giant,
                              OneEntryOffset(HeaderSize(q.headers), cfg.copyHeaders))
    ensures SingleEntry(cfg, q, giant, low).buf.eop
  {
  }

  // ----- vmxnet_tx -----

  /** Handing a packet's entries to the device and updating the counters. */
  function SubmitPacket(cfg: Config, s: TxState, p: Skb, plan: Plan, es: seq<Filled>): (r: (TxState, TxStatus))
    requires ValidRing(s) && AllFit(es)
    ensures !r.1.StopTransmit?
    ensures ValidRing(r.0) && |r.0.ring| == |s.ring|
  {
    var deferred := (s.deferred + Segments(cfg, p, plan)) % 0x1_0000_0000;
    var t := SubmitAll(s, es);
    var t := t.(pending := s.pending + |es|, deferred := if deferred >= cfg.clusterLength then 0 else deferred);
    (t, if deferred >= cfg.clusterLength || RingIsLow(s, |es|) then CallTransmit else DeferTransmit)
  }

  /** vmxnet_tx on a packet the driver is prepared to transmit. */
  function Transmit(cfg: Config, s: TxState, p: Skb, linearizeOk: bool): (r: (TxState, TxStatus))
    requires ValidConfig(cfg) && ValidRing(s) && Transmittable(cfg, |s.ring|, p)
    ensures ValidRing(r.0) && |r.0.ring| == |s.ring|
  {
    if !Available(s, Reserved(cfg, p)) then
      (CheckTxQueue(cfg, s.(txStopped := true, stopped := true)), StopTransmit)
    else
      var plan := PlanFor(cfg, p, true);
      if PlanFor(cfg, p, linearizeOk).Dropped? then (s.(dropped := s.dropped + [p.id]), DeferTransmit)
      else
        EntriesAreValid(cfg, p, |s.ring|, RingIsLow(s, EntryCount(cfg, p)));
        var es := Entries(cfg, p, plan, RingIsLow(s, EntryCount(cfg, p)));
        var (t, status) := SubmitPacket(cfg, s, p, plan, es);
        (CheckTxQueue(cfg, t), status)
  }

  /** The number of entries the packet really takes. */
  function EntryCount(cfg: Config, p: Skb): nat
    requires ValidSkb(p) && HeaderSize(p.headers) <= |p.linear|
  {
    if PlanFor(cfg, p, true).Chopped? then |Pieces(p)| else 1
  }
}

