/** What every run of the transmit side keeps, from opening the device to closing it: the ring
    protocol, exact accounting of packets and DMA mappings, and no lost wake-up. */
module TxSafety {
  import opened MachineInts
  import opened Packet
  import opened TxMap
  import opened TxChop
  import opened Segmentation
  import opened TxRing
  import opened TxDriver

  // ----- accounting functions -----

  /** The packets that end in a list of entries, in order. */
  function EopIds(fs: seq<Filled>): seq<nat> {
    if fs == [] then []
    else
      var f := fs[|fs| - 1];
      EopIds(fs[..|fs| - 1]) + if f.buf.eop && f.buf.skb.Some? then [f.buf.skb.value.id] else []
  }

  function EntryPins(f: Filled): multiset<Pin> {
    if f.buf.skb.Some? then PinsOf(f.buf.skb.value.id, f.pins) else multiset{}
  }

  /** The DMA mappings a list of entries holds. */
  function AllPins(fs: seq<Filled>): multiset<Pin> {
    if fs == [] then multiset{} else AllPins(fs[..|fs| - 1]) + EntryPins(fs[|fs| - 1])
  }

  lemma EopIdsAppend(fs: seq<Filled>, f: Filled)
    ensures EopIds(fs + [f]) == EopIds(fs) + if f.buf.eop && f.buf.skb.Some? then [f.buf.skb.value.id] else []
    ensures AllPins(fs + [f]) == AllPins(fs) + EntryPins(f)
  {
    assert (fs + [f])[..|fs|] == fs;
  }

  lemma {:induction false} EopIdsConcat(a: seq<Filled>, b: seq<Filled>)
    ensures EopIds(a + b) == EopIds(a) + EopIds(b)
    ensures AllPins(a + b) == AllPins(a) + AllPins(b)
  {
    hide EntryPins;
    if b == [] {
      assert a + b == a;
    } else {
      hide EopIds, AllPins;
      var init, last := b[..|b| - 1], b[|b| - 1];
      SnocConcat(a, init, last);
      assert b == init + [last];
      EopIdsConcat(a, init);
      EopIdsAppend(a + init, last);
      EopIdsAppend(init, last);
    }
  }

  lemma SnocConcat(a: seq<Filled>, b: seq<Filled>, f: Filled)
    ensures a + (b + [f]) == (a + b) + [f]
  {
  }

  lemma AccountingHead(fs: seq<Filled>)
    requires fs != []
    ensures AllPins(fs) == EntryPins(fs[0]) + AllPins(fs[1..])
  {
    assert fs == [fs[0]] + fs[1..];
    EopIdsConcat([fs[0]], fs[1..]);
    EopIdsAppend([], fs[0]);
    assert [] + [fs[0]] == [fs[0]];
  }

  function Done(h: History): seq<Filled>
    requires ValidHistory(h)
  {
    h.submitted[..h.reaped]
  }

  function Pending(h: History): seq<Filled>
    requires ValidHistory(h)
  {
    h.submitted[h.reaped..]
  }

  /** Entries of one packet are consecutive and end with its eop entry. */
  ghost predicate Grouped(fs: seq<Filled>) {
    forall k | 0 <= k < |fs| && !fs[k].buf.eop ::
      k + 1 < |fs| && fs[k].buf.skb.Some? && fs[k + 1].buf.skb.Some?
      && fs[k + 1].buf.skb.value.id == fs[k].buf.skb.value.id
  }

  // ----- the invariants -----

  /** Ring protocol and accounting; holds between any two entries taken back or submitted. */
  ghost predicate CoreInv(cfg: Config, base: multiset<Pin>, s: TxState, h: History) {
    && RingInv(s, h)
    && (forall k | 0 <= k < |h.submitted| :: ValidFilled(cfg, h.submitted[k]))
    && s.freed == EopIds(Done(h))
    && s.dma == base + AllPins(Pending(h))
  }

  /** Holds whenever the transmit lock is free: also the pending count is exact, whole packets have
      been submitted, and an open device never has a stopped queue without pending entries. */
  ghost predicate DriverInv(cfg: Config, base: multiset<Pin>, s: TxState, h: History) {
    && CoreInv(cfg, base, s, h)
    && s.pending == InFlight(h)
    && Grouped(h.submitted)
    && (s.open ==> s.stopped == s.txStopped)
    && (s.open && s.stopped ==> s.pending > 0)
  }

  lemma CoreSubmit(cfg: Config, base: multiset<Pin>, s: TxState, h: History, f: Filled)
    requires CoreInv(cfg, base, s, h) && ValidFilled(cfg, f) && s.buf[s.next].skb == None
    ensures CoreInv(cfg, base, Submit(s, f), h.(submitted := h.submitted + [f]))
  {
    hide SlotOk, ValidFilled, PinsOf;
    SubmitKeeps(s, h, f) by { assert Fits(f) by { FitsIfValid(cfg, f); } }
    var h' := h.(submitted := h.submitted + [f]);
    FitsIfValid(cfg, f);
    EopIdsAppend(Pending(h), f);
    assert Pending(h') == Pending(h) + [f] && Done(h') == Done(h);
  }

  lemma FitsIfValid(cfg: Config, f: Filled)
    requires ValidFilled(cfg, f)
    ensures Fits(f)
  {
  }

  lemma CoreReap(cfg: Config, base: multiset<Pin>, s: TxState, h: History)
    requires CoreInv(cfg, base, s, h) && CanReap(s)
    ensures ReleasesDefined(cfg, s) && h.reaped < h.fetched
    ensures CoreInv(cfg, base, ReapOne(cfg, s), h.(reaped := h.reaped + 1))
  {
    hide SlotOk, PinsOf, Releases, ValidFilled, ReapOne;
    ReapSeesOldest(s, h);
    var f, h' := h.submitted[h.reaped], h.(reaped := h.reaped + 1);
    assert ValidFilled(cfg, f);
    OldestReleases(cfg, s, f);
    ReapKeeps(cfg, s, h);
    ReapAccounting(cfg, base, s, h);
  }

  lemma ReapAccounting(cfg: Config, base: multiset<Pin>, s: TxState, h: History)
    requires CoreInv(cfg, base, s, h) && CanReap(s) && ReleasesDefined(cfg, s) && h.reaped < h.fetched
    requires Holds(s, s.cur, h.submitted[h.reaped])
    ensures var t, h' := ReapOne(cfg, s), h.(reaped := h.reaped + 1);
            t.freed == EopIds(Done(h')) && t.dma == base + AllPins(Pending(h'))
  {
    hide SlotOk, PinsOf, Releases, ValidFilled;
    var f, h' := h.submitted[h.reaped], h.(reaped := h.reaped + 1);
    OldestReleases(cfg, s, f);
    AccountingHead(Pending(h));
    EopIdsAppend(Done(h), f);
    assert Done(h') == Done(h) + [f] && Pending(h') == Pending(h)[1..] && Pending(h)[0] == f;
    assert base + (EntryPins(f) + AllPins(Pending(h'))) - EntryPins(f) == base + AllPins(Pending(h'));
  }

  /** What taking an entry back releases is what it held. */
  lemma OldestReleases(cfg: Config, s: TxState, f: Filled)
    requires ValidRing(s) && Holds(s, s.cur, f) && ValidFilled(cfg, f)
    ensures ReleasesDefined(cfg, s) && s.buf[s.cur].skb.Some?
    ensures (if cfg.zeroCopy then PinsOf(s.buf[s.cur].skb.value.id, Releases(Used(s.ring[s.cur]), s.buf[s.cur]))
             else multiset{}) == EntryPins(f)
  {
    hide Releases;
    assert |SgAt(f, s.cur)| == |SgAt(f, 0)|;
  }

  // ----- check_tx_queue and the interrupt -----

  lemma {:induction false} CoreReapAll(cfg: Config, base: multiset<Pin>, s: TxState, h: History, n: nat)
    requires CoreInv(cfg, base, s, h)
    ensures var (t, k) := Reap(cfg, s, n);
            && h.reaped + k <= h.fetched
            && CoreInv(cfg, base, t, h.(reaped := h.reaped + k))
            && (k < n ==> !CanReap(t))
    decreases n
  {
    hide SlotOk, ValidFilled, EopIds, AllPins, ReapOne;
    if n > 0 && CanReap(s) {
      var h1 := h.(reaped := h.reaped + 1);
      CoreReap(cfg, base, s, h);
      CoreReapAll(cfg, base, ReapOne(cfg, s), h1, n - 1);
      var k := Reap(cfg, ReapOne(cfg, s), n - 1).1;
      assert h1.(reaped := h1.reaped + k) == h.(reaped := h.reaped + (k + 1));
    }
  }

  /** Taking entries back touches only the oldest-entry index, the driver's records and the accounts. */
  lemma {:induction false} ReapFrame(cfg: Config, s: TxState, n: nat)
    requires ValidRing(s)
    ensures Reap(cfg, s, n).0.(dma := s.dma, freed := s.freed, buf := s.buf, cur := s.cur) == s
    decreases n
  {
    if n > 0 && CanReap(s) && ReleasesDefined(cfg, s) {
      ReapFrame(cfg, ReapOne(cfg, s), n - 1);
    }
  }

  /** How many entries check_tx_queue takes back. */
  function Completed(cfg: Config, s: TxState): nat
    requires ValidRing(s)
  {
    Reap(cfg, s, |s.ring|).1
  }

  lemma CheckCore(cfg: Config, base: multiset<Pin>, s: TxState, h: History)
    requires CoreInv(cfg, base, s, h)
    ensures var t, h' := CheckTxQueue(cfg, s), h.(reaped := h.reaped + Completed(cfg, s));
            && h'.reaped <= h.fetched && CoreInv(cfg, base, t, h') && !CanReap(t)
            && t.pending == s.pending - Completed(cfg, s) && t.open == s.open
            && t.stopped == (s.stopped && Completed(cfg, s) == 0)
            && t.txStopped == (s.txStopped && !(s.stopped && Completed(cfg, s) > 0))
            && t.dropped == s.dropped && t.next == s.next && t.nic == s.nic && t.ring == s.ring
  {
    hide CanReap, CoreInv, Reap;
    ReapedCore(cfg, base, s, h);
    ReapFrame(cfg, s, |s.ring|);
    var r, h' := Reap(cfg, s, |s.ring|).0, h.(reaped := h.reaped + Completed(cfg, s));
    CanReapIgnoresFlags(r, CheckTxQueue(cfg, s));
    CoreIgnoresFlags(cfg, base, r, CheckTxQueue(cfg, s), h');
  }

  lemma ReapedCore(cfg: Config, base: multiset<Pin>, s: TxState, h: History)
    requires CoreInv(cfg, base, s, h)
    ensures ValidRing(s) && ValidHistory(h)
    ensures var r, h' := Reap(cfg, s, |s.ring|).0, h.(reaped := h.reaped + Completed(cfg, s));
            h'.reaped <= h.fetched && CoreInv(cfg, base, r, h') && !CanReap(r)
  {
    hide CanReap, SlotOk, ValidFilled, EopIds, AllPins, Reap;
    CoreReapAll(cfg, base, s, h, |s.ring|);
    var (r, k) := Reap(cfg, s, |s.ring|);
    if k == |s.ring| {
      NothingLeft(cfg, r, h.(reaped := h.reaped + k));
    }
  }

  lemma CoreIgnoresFlags(cfg: Config, base: multiset<Pin>, s: TxState, t: TxState, h: History)
    requires CoreInv(cfg, base, s, h)
    requires t.(pending := s.pending, stopped := s.stopped, txStopped := s.txStopped) == s
    ensures CoreInv(cfg, base, t, h)
  {
    hide SlotOk, ValidFilled, EopIds, AllPins;
    SameRing(s, t, h);
  }

  lemma CanReapIgnoresFlags(s: TxState, t: TxState)
    requires ValidRing(s) && ValidRing(t) && s.ring == t.ring && s.buf == t.buf && s.cur == t.cur
    ensures CanReap(s) == CanReap(t)
  {
  }

  lemma NothingLeft(cfg: Config, s: TxState, h: History)
    requires RingInv(s, h) && InFlight(h) == 0
    ensures !CanReap(s)
  {
    ReapSeesOldest(s, h);
  }

  /** The ring invariant does not look at the queue flags or counters. */
  lemma SameRing(s: TxState, t: TxState, h: History)
    requires RingInv(s, h)
    requires t.ring == s.ring && t.buf == s.buf && t.headers == s.headers
    requires t.cur == s.cur && t.next == s.next && t.nic == s.nic
    ensures RingInv(t, h)
  {
    forall i | 0 <= i < |t.ring| ensures SlotOk(t, h, i) {
      assert SlotOk(s, h, i);
    }
  }

  /** check_tx_queue keeps the driver invariant, from any state where the wake-up condition is the
      only part that may not hold yet. */
  lemma CheckKeeps(cfg: Config, base: multiset<Pin>, s: TxState, h: History) returns (h': History)
    requires CoreInv(cfg, base, s, h) && s.pending == InFlight(h) && Grouped(h.submitted)
    requires s.open ==> s.stopped == s.txStopped
    requires s.open && s.stopped ==> s.pending > 0
    ensures h' == h.(reaped := h.reaped + Completed(cfg, s)) && ValidHistory(h')
    ensures DriverInv(cfg, base, CheckTxQueue(cfg, s), h')
  {
    hide SlotOk, ValidFilled, EopIds, AllPins;
    CheckCore(cfg, base, s, h);
    h' := h.(reaped := h.reaped + Completed(cfg, s));
  }

  lemma InterruptKeeps(cfg: Config, base: multiset<Pin>, s: TxState, h: History) returns (h': History)
    requires DriverInv(cfg, base, s, h)
    ensures h' == if s.pending > 0 then h.(reaped := h.reaped + Completed(cfg, s)) else h
    ensures s.open ==> DriverInv(cfg, base, Interrupt(cfg, s), h')
    ensures s.open ==> Interrupt(cfg, s).dropped == s.dropped && Interrupt(cfg, s).open
  {
    hide SlotOk, ValidFilled, EopIds, AllPins;
    h' := h;
    if s.pending > 0 {
      CheckCore(cfg, base, s, h);
      h' := CheckKeeps(cfg, base, s, h);
    }
  }

  /** No lost wake-up: as soon as the oldest entry of a stopped, open device has been handed back, the
      next interrupt restarts the queue. */
  lemma InterruptWakes(cfg: Config, base: multiset<Pin>, s: TxState, h: History)
    requires DriverInv(cfg, base, s, h) && s.open
    ensures s.stopped && s.ring[s.cur].ownership == Driver ==> !Interrupt(cfg, s).stopped
    ensures !s.stopped ==> !Interrupt(cfg, s).stopped
  {
    CheckCore(cfg, base, s, h);
    ReapSeesOldest(s, h);
  }

  // ----- vmxnet_tx -----

  /** The availability scan succeeds exactly when the ring has that many free slots. */
  lemma AvailableExactly(s: TxState, h: History, n: nat)
    requires RingInv(s, h) && 0 < n <= |s.ring|
    ensures Available(s, n) <==> InFlight(h) + n <= |s.ring|
  {
    if InFlight(h) + n <= |s.ring| {
      forall j | 0 <= j < n ensures s.buf[Ahead(s.next, j, |s.ring|)].skb == None {
        assert SlotOk(s, h, Ahead(s.next, j, |s.ring|));
      }
    } else {
      var j := |s.ring| - InFlight(h);
      assert Ahead(s.next, j, |s.ring|) == s.cur;
      assert SlotOk(s, h, s.cur);
    }
  }

  ghost predicate AllValid(cfg: Config, es: seq<Filled>) {
    AllFit(es) && forall k | 0 <= k < |es| :: ValidFilled(cfg, es[k])
  }

  lemma SubmitNext(cfg: Config, base: multiset<Pin>, s: TxState, t: TxState, h: History, es: seq<Filled>)
    requires AllValid(cfg, es) && es != [] && ValidRing(s) && t == SubmitAll(s, es[..|es| - 1])
    requires CoreInv(cfg, base, t, h) && ValidHistory(h) && InFlight(h) < |t.ring|
    ensures CoreInv(cfg, base, SubmitAll(s, es), h.(submitted := h.submitted + [es[|es| - 1]]))
  {
    hide ValidFilled, SlotOk, EopIds, AllPins, PinsOf;
    FreeSlotMeansRoom(t, h);
    CoreSubmit(cfg, base, t, h, es[|es| - 1]);
  }

  lemma {:induction false} SubmitSome(cfg: Config, base: multiset<Pin>, s: TxState, h: History, es: seq<Filled>)
    requires CoreInv(cfg, base, s, h) && ValidRing(s) && ValidHistory(h) && InFlight(h) + |es| <= |s.ring|
    requires AllValid(cfg, es)
    ensures CoreInv(cfg, base, SubmitAll(s, es), h.(submitted := h.submitted + es))
  {
    hide CoreInv, ValidFilled, ValidRing, Fits;
    if es == [] {
      assert h.submitted + es == h.submitted;
    } else {
      hide SubmitAll;
      var init := es[..|es| - 1];
      SubmitSome(cfg, base, s, h, init);
      var h1 := h.(submitted := h.submitted + init);
      SubmitNext(cfg, base, s, SubmitAll(s, init), h1, es);
      assert h.submitted + es == h1.submitted + [es[|es| - 1]];
    }
  }

  lemma SubmitAllKeeps(cfg: Config, base: multiset<Pin>, s: TxState, h: History, es: seq<Filled>)
    requires CoreInv(cfg, base, s, h) && InFlight(h) + |es| <= |s.ring| && AllValid(cfg, es)
    ensures CoreInv(cfg, base, SubmitAll(s, es), h.(submitted := h.submitted + es))
  {
    hide SlotOk, ValidFilled, EopIds, AllPins, SubmitAll;
    SubmitSome(cfg, base, s, h, es);
  }

  lemma {:induction false} SubmitAllFrame(s: TxState, es: seq<Filled>)
    requires ValidRing(s) && AllFit(es)
    ensures var t := SubmitAll(s, es);
            t.(ring := s.ring, buf := s.buf, headers := s.headers, next := s.next, dma := s.dma) == s
  {
    if es != [] {
      SubmitAllFrame(s, es[..|es| - 1]);
    }
  }

  /** The entries of one packet end with its only eop entry. */
  lemma {:induction false} OnePacketIds(cfg: Config, id: nat, es: seq<Filled>, k: nat)
    requires PacketEntries(cfg, id, es) && k <= |es|
    ensures EopIds(es[..k]) == if k == |es| then [id] else []
  {
    if k > 0 {
      OnePacketIds(cfg, id, es, k - 1);
      FitsIfValid(cfg, es[k - 1]);
      assert es[..k] == es[..k - 1] + [es[k - 1]];
      EopIdsAppend(es[..k - 1], es[k - 1]);
    }
  }

  lemma PacketExtends(cfg: Config, id: nat, fs: seq<Filled>, es: seq<Filled>)
    requires Grouped(fs) && PacketEntries(cfg, id, es)
    ensures Grouped(fs + es) && EopIds(fs + es) == EopIds(fs) + [id]
  {
    EopIdsConcat(fs, es);
    OnePacketIds(cfg, id, es, |es|);
    assert es[..|es|] == es;
    forall k | 0 <= k < |fs + es| && !(fs + es)[k].buf.eop
      ensures k + 1 < |fs + es| && (fs + es)[k].buf.skb.Some? && (fs + es)[k + 1].buf.skb.Some?
              && (fs + es)[k + 1].buf.skb.value.id == (fs + es)[k].buf.skb.value.id
    {
      if k >= |fs| {
        assert Fits(es[k - |fs|]) && Fits(es[k - |fs| + 1]);
      }
    }
  }

  /** What happened to a packet handed to the driver. */
  datatype Fate = Refused | Sent | Lost

  function FateOf(cfg: Config, s: TxState, p: Skb, linearizeOk: bool): Fate
    requires ValidConfig(cfg) && ValidRing(s) && Transmittable(cfg, |s.ring|, p)
  {
    if !Available(s, Reserved(cfg, p)) then Refused
    else if PlanFor(cfg, p, linearizeOk).Dropped? then Lost
    else Sent
  }

  /** The ring entries a packet is given. */
  function SentEntries(cfg: Config, s: TxState, p: Skb, linearizeOk: bool): seq<Filled>
    requires ValidConfig(cfg) && ValidRing(s) && Transmittable(cfg, |s.ring|, p)
  {
    if FateOf(cfg, s, p, linearizeOk).Sent? then
      Entries(cfg, p, PlanFor(cfg, p, true), RingIsLow(s, EntryCount(cfg, p)))
    else []
  }

  /** How a transmission shows in the accounts. */
  ghost predicate Accounted(s: TxState, t: TxState, h: History, h': History, es: seq<Filled>, id: nat, fate: Fate) {
    && h'.submitted == h.submitted + es && h'.fetched == h.fetched
    && EopIds(h'.submitted) == EopIds(h.submitted) + (if fate.Sent? then [id] else [])
    && t.dropped == s.dropped + (if fate.Lost? then [id] else [])
    && t.open == s.open && |t.ring| == |s.ring|
  }

  /** Transmitting keeps the invariant; the packet is refused, or becomes the next packet in flight, or
      is given back to the kernel because it could not be linearized. */
  lemma TransmitKeeps(cfg: Config, base: multiset<Pin>, s: TxState, h: History, p: Skb, linearizeOk: bool)
    returns (h': History)
    requires DriverInv(cfg, base, s, h) && s.open && ValidConfig(cfg) && Transmittable(cfg, |s.ring|, p)
    ensures DriverInv(cfg, base, Transmit(cfg, s, p, linearizeOk).0, h')
    ensures Accounted(s, Transmit(cfg, s, p, linearizeOk).0, h, h', SentEntries(cfg, s, p, linearizeOk), p.id,
                      FateOf(cfg, s, p, linearizeOk))
    ensures Transmit(cfg, s, p, linearizeOk).1.StopTransmit? <==> FateOf(cfg, s, p, linearizeOk).Refused?
  {
    hide SlotOk, ValidFilled, Entries, Reap, Completed, CheckTxQueue, Available, EopIds, AllPins;
    EntriesAreValid(cfg, p, |s.ring|, RingIsLow(s, EntryCount(cfg, p)));
    AvailableExactly(s, h, Reserved(cfg, p));
    match FateOf(cfg, s, p, linearizeOk)
    case Refused =>
      var t := s.(txStopped := true, stopped := true);
      SameRing(s, t, h);
      h' := CheckKeeps(cfg, base, t, h);
      CheckCore(cfg, base, t, h);
    case Lost =>
      h' := h;
      SameRing(s, Transmit(cfg, s, p, linearizeOk).0, h);
    case Sent =>
      h' := SentKeeps(cfg, base, s, h, p);
  }

  lemma SentKeeps(cfg: Config, base: multiset<Pin>, s: TxState, h: History, p: Skb) returns (h': History)
    requires DriverInv(cfg, base, s, h) && s.open && ValidConfig(cfg) && Transmittable(cfg, |s.ring|, p)
    requires Available(s, Reserved(cfg, p))
    ensures var plan, low := PlanFor(cfg, p, true), RingIsLow(s, EntryCount(cfg, p));
            var es := Entries(cfg, p, plan, low);
            AllFit(es) &&
            var t, h1 := SubmitPacket(cfg, s, p, plan, es).0, h.(submitted := h.submitted + es);
            && CoreInv(cfg, base, t, h1) && h' == h1.(reaped := h1.reaped + Completed(cfg, t))
            && DriverInv(cfg, base, CheckTxQueue(cfg, t), h')
            && Accounted(s, CheckTxQueue(cfg, t), h, h', es, p.id, Sent)
  {
    hide SlotOk, ValidFilled, Reap, Completed, CheckTxQueue, EopIds, AllPins, Entries, Available;
    var plan, low := PlanFor(cfg, p, true), RingIsLow(s, EntryCount(cfg, p));
    EntriesAreValid(cfg, p, |s.ring|, low);
    var es := Entries(cfg, p, plan, low);
    AvailableExactly(s, h, Reserved(cfg, p));
    SubmitAllKeeps(cfg, base, s, h, es);
    SubmitAllFrame(s, es);
    var t, h1 := SubmitPacket(cfg, s, p, plan, es).0, h.(submitted := h.submitted + es);
    SameRing(SubmitAll(s, es), t, h1);
    PacketExtends(cfg, p.id, h.submitted, es);
    h' := CheckKeeps(cfg, base, t, h1);
    CheckCore(cfg, base, t, h1);
  }

  /** The device is told about a packet later exactly while the segments it has not been told about, counted
      in 32 bits, stay below the cluster length and at least five slots are left; otherwise at once, and then
      the packet's last entry, and no other, carries the ring-low flag if the slots are the reason. In a ring
      of fewer than five entries the number of slots left is never a reason. */
  lemma DeferredExactly(cfg: Config, base: multiset<Pin>, s: TxState, h: History, p: Skb, linearizeOk: bool)
    requires DriverInv(cfg, base, s, h) && s.open && ValidConfig(cfg) && Transmittable(cfg, |s.ring|, p)
    requires FateOf(cfg, s, p, linearizeOk).Sent? && |s.ring| <= 0xFFFF_FFFF
    ensures var es := SentEntries(cfg, s, p, linearizeOk);
            var free := |s.ring| - InFlight(h) - |es|;
            var told := (s.deferred + Segments(cfg, p, PlanFor(cfg, p, true))) % 0x1_0000_0000;
            var (t, status) := Transmit(cfg, s, p, linearizeOk);
            && (status == DeferTransmit <==> told < cfg.clusterLength && (free >= 5 || |s.ring| < 5))
            && t.deferred == (if told < cfg.clusterLength then told else 0)
            && forall k | 0 <= k < |es| :: RingLow in es[k].flags <==> k == |es| - 1 && |s.ring| >= 5 && free < 5
  {
    hide SlotOk, ValidFilled, EopIds, AllPins, CheckTxQueue, Chop, MapEntry, Available, HeaderAt, SubmitAll, Releases;
    var low := RingIsLow(s, EntryCount(cfg, p));
    EntriesAreValid(cfg, p, |s.ring|, low);
    AvailableExactly(s, h, Reserved(cfg, p));
    var es := SentEntries(cfg, s, p, linearizeOk);
    LowExactly(s, h, |es|);
    CheckFrame(cfg, SubmitPacket(cfg, s, p, PlanFor(cfg, p, true), es).0);
    forall k | 0 <= k < |es| ensures RingLow in es[k].flags <==> k == |es| - 1 && low {
      LowFlag(cfg, p, |s.ring|, low, k);
    }
  }

  lemma LowExactly(s: TxState, h: History, n: nat)
    requires RingInv(s, h) && s.pending == InFlight(h) && InFlight(h) + n <= |s.ring| <= 0xFFFF_FFFF
    ensures RingIsLow(s, n) <==> |s.ring| >= 5 && |s.ring| - InFlight(h) - n < 5
  {
  }

  lemma LowFlag(cfg: Config, p: Skb, ringLength: nat, low: bool, k: nat)
    requires ValidConfig(cfg) && Transmittable(cfg, ringLength, p)
    requires k < |Entries(cfg, p, PlanFor(cfg, p, true), low)|
    ensures var es := Entries(cfg, p, PlanFor(cfg, p, true), low);
            RingLow in es[k].flags <==> k == |es| - 1 && low
  {
    hide Chop, MapEntry, HeaderAt, ValidFilled, Releases;
    EntriesAreValid(cfg, p, ringLength, low);
    assert Entries(cfg, p, PlanFor(cfg, p, true), low)[k].buf.eop <==> k == |Entries(cfg, p, PlanFor(cfg, p, true), low)| - 1;
  }

  lemma CheckFrame(cfg: Config, s: TxState)
    requires ValidRing(s)
    ensures CheckTxQueue(cfg, s).deferred == s.deferred
  {
    ReapFrame(cfg, s, |s.ring|);
  }

  /** The segments counted for a packet are as many as its bytes after the headers fill, and one for a packet
      without segmentation. */
  lemma SegmentsExactly(cfg: Config, p: Skb, plan: Plan)
    requires HeaderSize(p.headers) <= |p.linear|
    ensures var n := Segments(cfg, p, plan);
            if !cfg.zeroCopy || p.tsoSize == 0 then n == 1
            else
              var size := if plan.OneEntry? then Min(HeaderSize(p.headers), cfg.pktMaxSize) else HeaderSize(p.headers);
              n * p.tsoSize >= |Bytes(p)| - size && (n > 0 ==> (n - 1) * p.tsoSize < |Bytes(p)| - size)
  {
    if cfg.zeroCopy && p.tsoSize > 0 {
      var size := if plan.OneEntry? then Min(HeaderSize(p.headers), cfg.pktMaxSize) else HeaderSize(p.headers);
      CeilDivExactly(|Bytes(p)| - size, p.tsoSize);
    }
  }

  lemma CeilDivExactly(a: nat, b: nat)
    requires b > 0
    ensures CeilDiv(a, b) * b >= a && (CeilDiv(a, b) > 0 ==> (CeilDiv(a, b) - 1) * b < a)
  {
    var n := a + b - 1;
    assert n == n / b * b + n % b;
    assert (n / b - 1) * b == n / b * b - b;
  }

  /** A ring of fewer than five entries is never low, even when a packet fills it. */
  lemma ShortRingIsNeverLow(s: TxState, n: nat)
    requires 0 < |s.ring| < 5 && s.pending + n <= |s.ring|
    ensures !RingIsLow(s, n)
  {
  }

  // ----- exactly what each operation does to the queue -----

  lemma CompletedExactly(cfg: Config, base: multiset<Pin>, s: TxState, h: History)
    requires CoreInv(cfg, base, s, h)
    ensures Completed(cfg, s) > 0 <==> CanReap(s)
  {
    hide SlotOk, ValidFilled, EopIds, AllPins, ReapOne;
    if CanReap(s) {
      CoreReap(cfg, base, s, h);
    }
  }

  /** The interrupt restarts a stopped queue exactly if the oldest entry has been handed back. It takes back all
      that has been, and changes nothing else. */
  lemma InterruptExactly(cfg: Config, base: multiset<Pin>, s: TxState, h: History)
    requires DriverInv(cfg, base, s, h) && s.open
    ensures var t := Interrupt(cfg, s);
            && (t.stopped <==> s.stopped && s.ring[s.cur].ownership != Driver)
            && t.txStopped == t.stopped && !CanReap(t)
            && t.(cur := s.cur, buf := s.buf, freed := s.freed, dma := s.dma, pending := s.pending,
                  stopped := s.stopped, txStopped := s.txStopped) == s
  {
    hide SlotOk, ValidFilled, EopIds, AllPins, CheckTxQueue, Completed, CanReap;
    var h' := InterruptKeeps(cfg, base, s, h);
    ReapSeesOldest(s, h);
    CompletedExactly(cfg, base, s, h);
    CheckCore(cfg, base, s, h);
    CheckTouches(cfg, s);
    CanReapIgnoresFlags(if s.pending > 0 then CheckTxQueue(cfg, s) else s, Interrupt(cfg, s));
  }

  lemma CheckTouches(cfg: Config, s: TxState)
    requires ValidRing(s)
    ensures CheckTxQueue(cfg, s).(cur := s.cur, buf := s.buf, freed := s.freed, dma := s.dma, pending := s.pending,
                                  stopped := s.stopped, txStopped := s.txStopped) == s
  {
    ReapFrame(cfg, s, |s.ring|);
  }

  /** Submitting leaves the occupied slots alone. */
  lemma {:induction false} SubmitAllElsewhere(cfg: Config, base: multiset<Pin>, s: TxState, h: History, es: seq<Filled>,
                                              i: nat)
    requires CoreInv(cfg, base, s, h) && InFlight(h) + |es| <= |s.ring| && AllValid(cfg, es)
    requires i < |s.ring| && Distance(s, i) < InFlight(h)
    ensures SubmitAll(s, es).ring[i] == s.ring[i]
  {
    if es != [] {
      hide SlotOk, ValidFilled, EopIds, AllPins, FilledEntry;
      var init := es[..|es| - 1];
      SubmitAllElsewhere(cfg, base, s, h, init, i);
      SubmitAllKeeps(cfg, base, s, h, init);
      SubmitAllFrame(s, init);
    }
  }

  /** A refused packet leaves the queue stopped exactly if the oldest entry has not been handed back. */
  lemma RefusedExactly(cfg: Config, base: multiset<Pin>, s: TxState, h: History, p: Skb, linearizeOk: bool)
    requires DriverInv(cfg, base, s, h) && s.open && ValidConfig(cfg) && Transmittable(cfg, |s.ring|, p)
    requires FateOf(cfg, s, p, linearizeOk).Refused?
    ensures var (t, status) := Transmit(cfg, s, p, linearizeOk);
            && status == StopTransmit && !CanReap(t) && t.ring == s.ring && t.next == s.next
            && (t.stopped <==> s.ring[s.cur].ownership != Driver) && t.txStopped == t.stopped
  {
    hide SlotOk, ValidFilled, EopIds, AllPins, CheckTxQueue, Completed, CanReap, Available, Entries;
    var t := s.(txStopped := true, stopped := true);
    EntriesAreValid(cfg, p, |s.ring|, false);
    AvailableExactly(s, h, Reserved(cfg, p));
    SameRing(s, t, h);
    ReapSeesOldest(t, h);
    CompletedExactly(cfg, base, t, h);
    CheckCore(cfg, base, t, h);
  }

  /** Sending a packet takes back all that has been handed back, and restarts a stopped queue exactly if the
      oldest entry was among that; it never stops one. */
  lemma SentExactly(cfg: Config, base: multiset<Pin>, s: TxState, h: History, p: Skb, linearizeOk: bool)
    requires DriverInv(cfg, base, s, h) && s.open && ValidConfig(cfg) && Transmittable(cfg, |s.ring|, p)
    requires FateOf(cfg, s, p, linearizeOk).Sent?
    ensures var t := Transmit(cfg, s, p, linearizeOk).0;
            && !CanReap(t) && (t.stopped <==> s.stopped && s.ring[s.cur].ownership != Driver)
            && t.txStopped == t.stopped
  {
    hide SlotOk, ValidFilled, EopIds, AllPins, CheckTxQueue, Completed, CanReap, Available, Entries, SubmitAll;
    var plan, low := PlanFor(cfg, p, true), RingIsLow(s, EntryCount(cfg, p));
    var es := Entries(cfg, p, plan, low);
    EntriesAreValid(cfg, p, |s.ring|, low);
    AvailableExactly(s, h, Reserved(cfg, p));
    SubmitAllFrame(s, es);
    var t, h1 := SubmitPacket(cfg, s, p, plan, es).0, h.(submitted := h.submitted + es);
    var h' := SentKeeps(cfg, base, s, h, p);
    CheckCore(cfg, base, t, h1);
    CompletedExactly(cfg, base, t, h1);
    ReapSeesOldest(t, h1);
    if s.stopped {
      SubmitAllElsewhere(cfg, base, s, h, es, s.cur);
    }
  }

  /** A packet that cannot be linearized is given back, and nothing else happens. */
  lemma LostExactly(cfg: Config, s: TxState, p: Skb, linearizeOk: bool)
    requires ValidConfig(cfg) && ValidRing(s) && Transmittable(cfg, |s.ring|, p)
    requires FateOf(cfg, s, p, linearizeOk).Lost?
    ensures Transmit(cfg, s, p, linearizeOk) == (s.(dropped := s.dropped + [p.id]), DeferTransmit)
  {
  }

  /** What becomes of a packet, by what a caller can see of it: it is refused if the ring has not the room
      reserved for it, and else lost only if it must be linearized and cannot be. It must be exactly if more
      than one entry is reserved, unless it is a TCP packet whose headers are copied whole; that one is chopped. */
  lemma FateExactly(cfg: Config, base: multiset<Pin>, s: TxState, h: History, p: Skb, linearizeOk: bool)
    requires DriverInv(cfg, base, s, h) && ValidConfig(cfg) && Transmittable(cfg, |s.ring|, p)
    ensures var size := HeaderSize(p.headers);
            var whole := |p.linear| - size <= MAX_LINEAR
                         && |p.frags| <= if cfg.copyHeaders && size < |p.linear| then 4 else 5;
            var chopped := cfg.zeroCopy && !whole && p.headers.kind.Tcp? && cfg.copyHeaders && size <= 128;
            var fate := FateOf(cfg, s, p, linearizeOk);
            && (fate.Refused? <==> InFlight(h) + Reserved(cfg, p) > |s.ring|)
            && (!cfg.zeroCopy || whole ==> Reserved(cfg, p) == 1)
            && (cfg.zeroCopy && !whole ==> Reserved(cfg, p) == TxEntries(p, size, cfg.copyHeaders) > 1)
            && (fate.Lost? <==> !fate.Refused? && cfg.zeroCopy && !whole && !chopped && !linearizeOk)
            && (PlanFor(cfg, p, true).Chopped? <==> chopped)
            && (cfg.zeroCopy && whole ==> PlanFor(cfg, p, true) == OneEntry(p))
            && (cfg.zeroCopy && !whole && !chopped ==> PlanFor(cfg, p, true) == OneEntry(Linearized(p)))
  {
    hide SlotOk, ValidFilled, EopIds, AllPins, Available;
    EntriesAreValid(cfg, p, |s.ring|, false);
    AvailableExactly(s, h, Reserved(cfg, p));
    OneReservedExactly(p, HeaderSize(p.headers), cfg.copyHeaders);
    TxEntriesPositive(p, HeaderSize(p.headers), cfg.copyHeaders);
  }
}
