/** The transmit ring shared by the driver and the device: its slots, the four atomic moves the two
    parties make on it, and what every interleaving of those moves keeps. */
module TxRing {
  import opened MachineInts
  import opened Packet
  import opened TxMap
  import opened Segmentation

  /** Adapter settings fixed before the device is opened. */
  datatype Config = Config(zeroCopy: bool, copyHeaders: bool, le: bool, pktMaxSize: nat, clusterLength: nat)

  /** A DMA mapping that has not been released: the packet it belongs to and the mapped area. */
  datatype Pin = Pin(id: nat, area: SgElem)

  /** What the driver writes for one ring entry. `data` are the gather elements after the header
      copy, `pins` the areas mapped for them. */
  datatype Filled = Filled(flags: set<TxFlag>, tsoMss: Option<nat>, header: Option<HeaderSlot>,
                           data: seq<SgElem>, pins: seq<SgElem>, buf: TxBuf)

  /** Shared memory and driver state of the transmit side. `freed` lists packets given back to the
      kernel in order, `dropped` those given back because they could not be linearized. */
  datatype TxState = TxState(ring: seq<TxRingEntry>, buf: seq<TxBuf>, headers: seq<HeaderSlot>,
                             cur: nat, next: nat, nic: nat, pending: int,
                             stopped: bool, txStopped: bool, open: bool, deferred: uint32,
                             freed: seq<nat>, dropped: seq<nat>, dma: multiset<Pin>)

  // ----- circular indices -----

  /** VMXNET_INC */
  function Inc(i: nat, len: nat): nat {
    if i + 1 == len then 0 else i + 1
  }

  /** The slot d places after i. */
  function Ahead(i: nat, d: nat, len: nat): nat {
    if i + d < len then i + d else i + d - len
  }

  /** How many places slot i is ahead of the oldest entry. */
  function Distance(s: TxState, i: nat): nat
    requires i < |s.ring| && s.cur < |s.ring|
  {
    if i >= s.cur then i - s.cur else i + |s.ring| - s.cur
  }

  // ----- entries -----

  /** An entry belongs to a packet and fits into a slot. */
  predicate Fits(f: Filled) {
    && f.buf.skb.Some?
    && (f.header.Some? ==> |f.header.value.raw| <= 0xFFFF)
    && |f.data| + (if f.header.Some? then 1 else 0) <= SG_LENGTH
  }

  /** The gather list of an entry put into a slot: the slot's header copy first, if there is one. */
  function SgAt(f: Filled, slot: nat): seq<SgElem>
    requires Fits(f)
  {
    (if f.header.Some? then [SgElem(HeaderCopy(slot), |f.header.value.raw|)] else []) + f.data
  }

  function PinsOf(id: nat, areas: seq<SgElem>): multiset<Pin> {
    if areas == [] then multiset{} else PinsOf(id, areas[..|areas| - 1]) + multiset{Pin(id, areas[|areas| - 1])}
  }

  /** On a zero-copy adapter, unmapping an entry releases exactly what was mapped for it. */
  ghost predicate ValidFilled(cfg: Config, f: Filled) {
    && Fits(f)
    && if cfg.zeroCopy then
         && f.buf.sgForLinear < |SgAt(f, 0)| && 0 <= f.buf.firstSgForFrag <= |SgAt(f, 0)|
         && forall slot :: Releases(SgAt(f, slot), f.buf) == f.pins
       else f.pins == []
  }

  predicate ValidRing(s: TxState) {
    && |s.ring| == |s.buf| == |s.headers| > 0
    && s.cur < |s.ring| && s.next < |s.ring| && s.nic < |s.ring|
    && forall i | 0 <= i < |s.ring| :: ValidEntry(s.ring[i])
  }

  // ----- the four moves -----

  function FilledEntry(e: TxRingEntry, f: Filled, slot: nat): (r: TxRingEntry)
    requires ValidEntry(e) && Fits(f)
    ensures ValidEntry(r) && Used(r) == SgAt(f, slot)
  {
    var sg := SgAt(f, slot);
    TxRingEntry(f.flags, Nic, if f.tsoMss.Some? then f.tsoMss.value else e.tsoMss, |sg|, Overwrite(e.sg, 0, sg))
  }

  /** The driver fills the slot at `next`, hands it to the device and moves on. */
  function Submit(s: TxState, f: Filled): TxState
    requires ValidRing(s) && Fits(f)
  {
    s.(ring := s.ring[s.next := FilledEntry(s.ring[s.next], f, s.next)],
       buf := s.buf[s.next := f.buf],
       headers := if f.header.Some? then s.headers[s.next := f.header.value] else s.headers,
       next := Inc(s.next, |s.ring|),
       dma := s.dma + PinsOf(f.buf.skb.value.id, f.pins))
  }

  predicate CanReap(s: TxState)
    requires ValidRing(s)
  {
    s.ring[s.cur].ownership == Driver && s.buf[s.cur].skb.Some?
  }

  predicate ReleasesDefined(cfg: Config, s: TxState)
    requires ValidRing(s)
  {
    cfg.zeroCopy ==>
      s.buf[s.cur].sgForLinear < s.ring[s.cur].sgLength && 0 <= s.buf[s.cur].firstSgForFrag <= s.ring[s.cur].sgLength
  }

  /** The driver takes back the oldest entry: unmap it, free its packet if it ends one, clear the slot. */
  function ReapOne(cfg: Config, s: TxState): TxState
    requires ValidRing(s) && CanReap(s) && ReleasesDefined(cfg, s)
  {
    var b := s.buf[s.cur];
    s.(dma := if cfg.zeroCopy then s.dma - PinsOf(b.skb.value.id, Releases(Used(s.ring[s.cur]), b)) else s.dma,
       freed := if b.eop then s.freed + [b.skb.value.id] else s.freed,
       buf := s.buf[s.cur := b.(skb := None)],
       cur := Inc(s.cur, |s.ring|))
  }

  /** Vmxnet2_GetNextTx followed by Vmxnet2_IncNextTx. */
  function Fetch(s: TxState): TxState
    requires ValidRing(s) && s.ring[s.nic].ownership == Nic
  {
    s.(ring := s.ring[s.nic := s.ring[s.nic].(ownership := NicPending)], nic := Inc(s.nic, |s.ring|))
  }

  /** The device hands a fetched entry back, in any order. */
  function Return(s: TxState, i: nat): TxState
    requires ValidRing(s) && i < |s.ring| && s.ring[i].ownership == NicPending
  {
    s.(ring := s.ring[i := s.ring[i].(ownership := Driver)])
  }

  // ----- the invariant -----

  /** All entries submitted since the device was opened, and how many of them the driver has taken
      back and the device has fetched. */
  datatype History = History(submitted: seq<Filled>, reaped: nat, fetched: nat)

  predicate ValidHistory(h: History) {
    h.reaped <= h.fetched <= |h.submitted|
  }

  function InFlight(h: History): nat
    requires ValidHistory(h)
  {
    |h.submitted| - h.reaped
  }

  predicate Holds(s: TxState, i: nat, f: Filled)
    requires ValidRing(s) && i < |s.ring|
  {
    && Fits(f) && s.buf[i] == f.buf
    && (f.header.Some? ==> s.headers[i] == f.header.value)
    && Used(s.ring[i]) == SgAt(f, i) && s.ring[i].flags == f.flags
    && (f.tsoMss.Some? ==> s.ring[i].tsoMss == f.tsoMss.value)
  }

  /** Slot i holds the entry of its distance from `cur`: already fetched, not yet fetched, or none. */
  predicate SlotOk(s: TxState, h: History, i: nat)
    requires ValidRing(s) && ValidHistory(h) && i < |s.ring|
  {
    var d := Distance(s, i);
    if d < InFlight(h) then
      && Holds(s, i, h.submitted[h.reaped + d])
      && if d < h.fetched - h.reaped then s.ring[i].ownership in {NicPending, Driver}
         else s.ring[i].ownership == Nic
    else
      s.buf[i].skb == None && s.ring[i].ownership == Driver
  }

  /** The occupied slots are the circular interval from `cur` to `next`, split at `nic` into entries
      the device has fetched and entries it has not, all in submission order. */
  ghost predicate RingInv(s: TxState, h: History) {
    && ValidRing(s) && ValidHistory(h) && InFlight(h) <= |s.ring|
    && s.next == Ahead(s.cur, InFlight(h), |s.ring|)
    && s.nic == Ahead(s.cur, h.fetched - h.reaped, |s.ring|)
    && forall i | 0 <= i < |s.ring| :: SlotOk(s, h, i)
  }

  /** A slot the driver finds free is free for the protocol too: the ring is not full. */
  lemma FreeSlotMeansRoom(s: TxState, h: History)
    requires RingInv(s, h)
    ensures s.buf[s.next].skb == None <==> InFlight(h) < |s.ring|
  {
    assert SlotOk(s, h, s.next);
  }

  lemma SubmitKeeps(s: TxState, h: History, f: Filled)
    requires RingInv(s, h) && s.buf[s.next].skb == None
    requires Fits(f)
    ensures RingInv(Submit(s, f), h.(submitted := h.submitted + [f]))
  {
    hide Overwrite, Used, SgAt, PinsOf;
    FreeSlotMeansRoom(s, h);
    var s', h' := Submit(s, f), h.(submitted := h.submitted + [f]);
    forall i | 0 <= i < |s.ring| ensures SlotOk(s', h', i) {
      assert SlotOk(s, h, i);
    }
  }

  lemma ReapKeeps(cfg: Config, s: TxState, h: History)
    requires RingInv(s, h) && CanReap(s) && ReleasesDefined(cfg, s)
    ensures h.reaped < h.fetched
    ensures RingInv(ReapOne(cfg, s), h.(reaped := h.reaped + 1))
  {
    hide Overwrite, SgAt, PinsOf, Releases;
    assert SlotOk(s, h, s.cur);
    var s', h' := ReapOne(cfg, s), h.(reaped := h.reaped + 1);
    forall i | 0 <= i < |s.ring| ensures SlotOk(s', h', i) {
      assert SlotOk(s, h, i);
    }
  }

  lemma FetchKeeps(s: TxState, h: History)
    requires RingInv(s, h) && s.ring[s.nic].ownership == Nic
    ensures h.fetched < |h.submitted| && RingInv(Fetch(s), h.(fetched := h.fetched + 1))
  {
    hide SgAt, Fits;
    assert SlotOk(s, h, s.nic);
    var s', h' := Fetch(s), h.(fetched := h.fetched + 1);
    forall i | 0 <= i < |s.ring| ensures SlotOk(s', h', i) {
      assert SlotOk(s, h, i);
    }
  }

  lemma ReturnKeeps(s: TxState, h: History, i: nat)
    requires RingInv(s, h) && i < |s.ring| && s.ring[i].ownership == NicPending
    ensures RingInv(Return(s, i), h)
  {
    var s' := Return(s, i);
    forall k | 0 <= k < |s.ring| ensures SlotOk(s', h, k) {
      assert SlotOk(s, h, k);
    }
  }

  /** The device finds an entry exactly when one is waiting, and it is the oldest it has not fetched,
      as the driver filled it. */
  lemma FetchSeesNext(s: TxState, h: History)
    requires RingInv(s, h)
    ensures s.ring[s.nic].ownership == Nic <==> h.fetched < |h.submitted|
    ensures h.fetched < |h.submitted| ==>
              Holds(s, s.nic, h.submitted[h.fetched]) && ReadsFilled(LookAt(s), h.submitted[h.fetched])
  {
    assert SlotOk(s, h, s.nic);
  }

  /** The driver can take back an entry exactly when the oldest one has been fetched and returned. */
  lemma ReapSeesOldest(s: TxState, h: History)
    requires RingInv(s, h)
    ensures CanReap(s) <==> h.reaped < |h.submitted| && s.ring[s.cur].ownership == Driver
    ensures CanReap(s) ==> h.reaped < h.fetched && Holds(s, s.cur, h.submitted[h.reaped])
  {
    assert SlotOk(s, h, s.cur);
  }

  // ----- every interleaving -----

  datatype Move = SubmitMove(f: Filled) | ReapMove | FetchMove | ReturnMove(slot: nat)

  /** A move happens if the party making it finds what it looks for; otherwise nothing changes. */
  ghost predicate Enabled(cfg: Config, s: TxState, m: Move)
    requires ValidRing(s)
  {
    match m
    case SubmitMove(f) => ValidFilled(cfg, f) && s.buf[s.next].skb == None
    case ReapMove => CanReap(s) && ReleasesDefined(cfg, s)
    case FetchMove => s.ring[s.nic].ownership == Nic
    case ReturnMove(i) => i < |s.ring| && s.ring[i].ownership == NicPending
  }

  ghost function Moved(cfg: Config, s: TxState, m: Move): (s': TxState)
    requires ValidRing(s)
    ensures ValidRing(s') && |s'.ring| == |s.ring|
  {
    if !Enabled(cfg, s, m) then s
    else match m
      case SubmitMove(f) => Submit(s, f)
      case ReapMove => ReapOne(cfg, s)
      case FetchMove => Fetch(s)
      case ReturnMove(i) => Return(s, i)
  }

  ghost function After(cfg: Config, s: TxState, moves: seq<Move>): (s': TxState)
    requires ValidRing(s)
    ensures ValidRing(s') && |s'.ring| == |s.ring|
  {
    if moves == [] then s else Moved(cfg, After(cfg, s, moves[..|moves| - 1]), moves[|moves| - 1])
  }

  /** The entries accepted into the ring during a run, in order. */
  ghost function SubmittedIn(cfg: Config, s: TxState, moves: seq<Move>): seq<Filled>
    requires ValidRing(s)
  {
    if moves == [] then []
    else
      var before, m := After(cfg, s, moves[..|moves| - 1]), moves[|moves| - 1];
      SubmittedIn(cfg, s, moves[..|moves| - 1]) +
        if m.SubmitMove? && Enabled(cfg, before, m) then [m.f] else []
  }

  /** What the device finds at a fetch: a slot, the entry in it, and the slot's copied headers. */
  datatype Look = Look(slot: nat, entry: TxRingEntry, header: HeaderSlot)

  function LookAt(s: TxState): Look
    requires ValidRing(s)
  {
    Look(s.nic, s.ring[s.nic], s.headers[s.nic])
  }

  /** What the device finds at each of its fetches during a run. */
  ghost function FetchedIn(cfg: Config, s: TxState, moves: seq<Move>): seq<Look>
    requires ValidRing(s)
  {
    if moves == [] then []
    else
      var before, m := After(cfg, s, moves[..|moves| - 1]), moves[|moves| - 1];
      FetchedIn(cfg, s, moves[..|moves| - 1]) +
        if m.FetchMove? && Enabled(cfg, before, m) then [LookAt(before)] else []
  }

  /** A ring as vmxnet_init_ring leaves it. */
  predicate Initial(s: TxState) {
    && ValidRing(s) && s.cur == s.next == s.nic == 0
    && forall i | 0 <= i < |s.ring| :: s.buf[i].skb == None && s.ring[i].ownership == Driver
  }

  /** The slots read go round the ring from slot 0. */
  ghost predicate RoundTheRing(len: nat, looks: seq<Look>) {
    && (looks != [] ==> looks[0].slot == 0)
    && forall k | 1 <= k < |looks| :: looks[k].slot == Inc(looks[k - 1].slot, len)
  }

  /** The k-th entry read by the device is the k-th one submitted. */
  ghost predicate SameOrder(looks: seq<Look>, submitted: seq<Filled>) {
    && |looks| <= |submitted|
    && forall k | 0 <= k < |looks| :: ReadsFilled(looks[k], submitted[k])
  }

  /** The device reads the entry as the driver filled it: gather list, copied headers, flags, segment size. */
  predicate ReadsFilled(look: Look, f: Filled) {
    && Fits(f) && ValidEntry(look.entry)
    && Used(look.entry) == SgAt(f, look.slot) && look.entry.flags == f.flags
    && (f.header.Some? ==> look.header == f.header.value)
    && (f.tsoMss.Some? ==> look.entry.tsoMss == f.tsoMss.value)
  }

  lemma MoveKeeps(cfg: Config, s: TxState, h: History, m: Move) returns (h': History)
    requires RingInv(s, h) && Enabled(cfg, s, m)
    ensures RingInv(Moved(cfg, s, m), h')
    ensures h'.submitted == h.submitted + if m.SubmitMove? then [m.f] else []
    ensures h'.fetched == h.fetched + if m.FetchMove? then 1 else 0
    ensures m.FetchMove? ==> h.fetched < |h.submitted| && ReadsFilled(LookAt(s), h.submitted[h.fetched])
  {
    hide RingInv;
    match m
    case SubmitMove(f) =>
      SubmitKeeps(s, h, f);
      h' := h.(submitted := h.submitted + [f]);
    case ReapMove =>
      ReapKeeps(cfg, s, h);
      h' := h.(reaped := h.reaped + 1);
    case FetchMove =>
      FetchSeesNext(s, h);
      FetchKeeps(s, h);
      h' := h.(fetched := h.fetched + 1);
    case ReturnMove(i) =>
      ReturnKeeps(s, h, i);
      h' := h;
  }

  /** What is recorded of a run. */
  ghost predicate Followed(cfg: Config, s: TxState, moves: seq<Move>, h: History)
    requires ValidRing(s)
  {
    && h.submitted == SubmittedIn(cfg, s, moves) && h.fetched == |FetchedIn(cfg, s, moves)|
    && SameOrder(FetchedIn(cfg, s, moves), SubmittedIn(cfg, s, moves))
  }

  lemma FollowedStep(cfg: Config, s: TxState, moves: seq<Move>, h: History, h': History)
    requires ValidRing(s) && moves != [] && Followed(cfg, s, moves[..|moves| - 1], h)
    requires var t, m := After(cfg, s, moves[..|moves| - 1]), moves[|moves| - 1];
             if !Enabled(cfg, t, m) then h' == h
             else
               && h'.submitted == h.submitted + (if m.SubmitMove? then [m.f] else [])
               && h'.fetched == h.fetched + (if m.FetchMove? then 1 else 0)
               && (m.FetchMove? ==> h.fetched < |h.submitted|
                                    && ReadsFilled(LookAt(t), h.submitted[h.fetched]))
    ensures Followed(cfg, s, moves, h')
  {
    hide ReadsFilled, Moved, Enabled, Used, SameOrder;
    var t, m := After(cfg, s, moves[..|moves| - 1]), moves[|moves| - 1];
    if Enabled(cfg, t, m) {
      SameOrderGrows(FetchedIn(cfg, s, moves[..|moves| - 1]), h.submitted,
                     if m.FetchMove? then [LookAt(t)] else [],
                     if m.SubmitMove? then [m.f] else []);
    } else {
      SameOrderGrows(FetchedIn(cfg, s, moves[..|moves| - 1]), h.submitted, [], []);
    }
  }

  lemma SameOrderGrows(looks: seq<Look>, submitted: seq<Filled>, more: seq<Look>, added: seq<Filled>)
    requires SameOrder(looks, submitted) && |more| <= 1
    requires more != [] ==> |looks| < |submitted| && ReadsFilled(more[0], submitted[|looks|])
    ensures SameOrder(looks + more, submitted + added)
  {
    hide ReadsFilled;
  }

  /** Over every interleaving of the two parties' moves the ring invariant holds, and the device
      reads entries in submission order, skipping and repeating none. */
  lemma {:induction false} EveryInterleaving(cfg: Config, s: TxState, moves: seq<Move>) returns (h: History)
    requires Initial(s)
    ensures RingInv(After(cfg, s, moves), h)
    ensures h.submitted == SubmittedIn(cfg, s, moves) && h.fetched == |FetchedIn(cfg, s, moves)|
    ensures SameOrder(FetchedIn(cfg, s, moves), SubmittedIn(cfg, s, moves))
  {
    if moves == [] {
      h := History([], 0, 0);
      InitialHolds(s);
    } else {
      hide RingInv, ReadsFilled, Moved, Enabled, SubmittedIn, FetchedIn, Used;
      var before, m := moves[..|moves| - 1], moves[|moves| - 1];
      var h0 := EveryInterleaving(cfg, s, before);
      var t := After(cfg, s, before);
      h := h0;
      if Enabled(cfg, t, m) {
        h := MoveKeeps(cfg, t, h0, m);
      } else {
        DisabledMove(cfg, t, m);
      }
      FollowedStep(cfg, s, moves, h0, h);
    }
  }

  lemma DisabledMove(cfg: Config, s: TxState, m: Move)
    requires ValidRing(s) && !Enabled(cfg, s, m)
    ensures Moved(cfg, s, m) == s
  {
  }

  lemma OnlyFetchesMoveNic(cfg: Config, s: TxState, m: Move)
    requires ValidRing(s)
    ensures Moved(cfg, s, m).nic == if m.FetchMove? && Enabled(cfg, s, m) then Inc(s.nic, |s.ring|) else s.nic
  {
  }

  lemma RoundGrows(len: nat, looks: seq<Look>, next: Look)
    requires RoundTheRing(len, looks) && next.slot == if looks == [] then 0 else Inc(looks[|looks| - 1].slot, len)
    ensures RoundTheRing(len, looks + [next])
  {
  }

  lemma {:induction false} ReadsGoRound(cfg: Config, s: TxState, moves: seq<Move>)
    requires Initial(s)
    ensures var read := FetchedIn(cfg, s, moves);
            && RoundTheRing(|s.ring|, read)
            && After(cfg, s, moves).nic == if read == [] then 0 else Inc(read[|read| - 1].slot, |s.ring|)
  {
    if moves != [] {
      hide Inc, Enabled, Moved, Used, RoundTheRing;
      var t, m, read := After(cfg, s, moves[..|moves| - 1]), moves[|moves| - 1], FetchedIn(cfg, s, moves[..|moves| - 1]);
      ReadsGoRound(cfg, s, moves[..|moves| - 1]);
      OnlyFetchesMoveNic(cfg, t, m);
      if m.FetchMove? && Enabled(cfg, t, m) {
        RoundGrows(|s.ring|, read, LookAt(t));
      }
    }
  }

  lemma InitialHolds(s: TxState)
    requires Initial(s)
    ensures RingInv(s, History([], 0, 0))
  {
    forall i | 0 <= i < |s.ring| ensures SlotOk(s, History([], 0, 0), i) {}
  }
}
