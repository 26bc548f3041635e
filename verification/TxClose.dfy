/** Closing the device, and the life of a packet from opening to closing. */
module TxClose {
  import opened MachineInts
  import opened Packet
  import opened TxMap
  import opened TxChop
  import opened TxRing
  import opened TxDriver
  import opened TxSafety
  import opened TxRuns

  const CLOSE_POLLS := 200

  predicate EndsPacket(b: TxBuf) {
    b.skb.Some? && b.eop
  }

  /** The packets that end in slots lo to hi, in slot order. */
  function SlotIds(bufs: seq<TxBuf>, lo: nat, hi: nat): seq<nat>
    requires lo <= hi <= |bufs|
    decreases hi - lo
  {
    if lo == hi then []
    else SlotIds(bufs, lo, hi - 1) + if EndsPacket(bufs[hi - 1]) then [bufs[hi - 1].skb.value.id] else []
  }

  /** Waits for the device while entries are pending; `waits` is what the device does between two looks. */
  function Polls(cfg: Config, s: TxState, waits: seq<seq<Event>>): (t: TxState)
    requires ValidConfig(cfg) && ValidRing(s)
    ensures ValidRing(t) && |t.ring| == |s.ring|
    decreases |waits|
  {
    if waits == [] || s.pending <= 0 then s
    else Polls(cfg, CheckTxQueue(cfg, Run(cfg, s, waits[0])), waits[1..])
  }

  /** Releases every packet whose last entry is still in a slot. */
  function Flush(s: TxState): (t: TxState)
    requires ValidRing(s)
    ensures ValidRing(t) && |t.ring| == |s.ring|
  {
    s.(freed := s.freed + SlotIds(s.buf, 0, |s.buf|),
       buf := seq(|s.buf|, i requires 0 <= i < |s.buf| =>
                    if EndsPacket(s.buf[i]) then s.buf[i].(skb := None) else s.buf[i]))
  }

  /** vmxnet_close, the transmit part. */
  function Close(cfg: Config, s: TxState, waits: seq<seq<Event>>): (t: TxState)
    requires ValidConfig(cfg) && ValidRing(s) && |waits| == CLOSE_POLLS
    ensures ValidRing(t) && |t.ring| == |s.ring|
  {
    var t := Polls(cfg, s.(stopped := true, open := false), waits);
    Flush(t.(pending := Min(t.pending, 0)))
  }

  // ----- waiting -----

  /** A closed device's driver invariant, with the packets sent and dropped as they were. */
  ghost predicate Closing(cfg: Config, base: multiset<Pin>, s: TxState, h: History, submitted: seq<Filled>, dropped: seq<nat>) {
    DriverInv(cfg, base, s, h) && !s.open && h.submitted == submitted && s.dropped == dropped
  }

  lemma {:induction false} WaitKeeps(cfg: Config, base: multiset<Pin>, s: TxState, h: History, events: seq<Event>)
    returns (h': History)
    requires ValidConfig(cfg) && Closing(cfg, base, s, h, h.submitted, s.dropped)
    ensures Closing(cfg, base, Run(cfg, s, events), h', h.submitted, s.dropped)
    ensures h'.reaped == h.reaped && Run(cfg, s, events).stopped == s.stopped
  {
    h' := h;
    if events != [] {
      hide SlotOk, ValidFilled, EopIds, AllPins, Step, ReadsFilled, Used;
      h' := WaitKeeps(cfg, base, s, h, events[..|events| - 1]);
      h' := WaitStep(cfg, base, Run(cfg, s, events[..|events| - 1]), h', events[|events| - 1]);
    }
  }

  /** While the driver waits with the device closed, only the device moves. */
  lemma WaitStep(cfg: Config, base: multiset<Pin>, s: TxState, h: History, e: Event) returns (h': History)
    requires ValidConfig(cfg) && Closing(cfg, base, s, h, h.submitted, s.dropped)
    ensures Closing(cfg, base, Step(cfg, s, e), h', h.submitted, s.dropped)
    ensures h'.reaped == h.reaped && Step(cfg, s, e).stopped == s.stopped
  {
    hide SlotOk, ValidFilled, EopIds, AllPins, Transmit, Transmittable;
    h' := h;
    if Possible(cfg, s, e) {
      h' := DeviceKeeps(cfg, base, s, h, e);
    }
  }

  /** check_tx_queue wakes the queue that closing has stopped as soon as it takes something back. */
  lemma {:induction false} PollsKeep(cfg: Config, base: multiset<Pin>, s: TxState, h: History, waits: seq<seq<Event>>)
    returns (h': History)
    requires ValidConfig(cfg) && Closing(cfg, base, s, h, h.submitted, s.dropped)
    ensures Closing(cfg, base, Polls(cfg, s, waits), h', h.submitted, s.dropped)
    ensures h.reaped <= h'.reaped
    ensures Polls(cfg, s, waits).stopped == (s.stopped && h'.reaped == h.reaped)
    ensures var t := Polls(cfg, s, waits); waits != [] && InFlight(h') > 0 ==> t.ring[t.cur].ownership != Driver
    ensures InFlight(h) == 0 ==> Polls(cfg, s, waits) == s
    decreases |waits|
  {
    h' := h;
    if waits != [] && s.pending > 0 {
      hide SlotOk, ValidFilled, EopIds, AllPins, Run, CheckTxQueue, Completed;
      h' := WaitKeeps(cfg, base, s, h, waits[0]);
      var t := Run(cfg, s, waits[0]);
      CheckCore(cfg, base, t, h');
      h' := CheckKeeps(cfg, base, t, h');
      ReapSeesOldest(CheckTxQueue(cfg, t), h');
      h' := PollsKeep(cfg, base, CheckTxQueue(cfg, t), h', waits[1..]);
    }
  }

  // ----- flushing -----

  lemma {:induction false} SlotIdsConcat(bufs: seq<TxBuf>, lo: nat, mid: nat, hi: nat)
    requires lo <= mid <= hi <= |bufs|
    ensures SlotIds(bufs, lo, hi) == SlotIds(bufs, lo, mid) + SlotIds(bufs, mid, hi)
    decreases hi
  {
    if mid < hi {
      SlotIdsConcat(bufs, lo, mid, hi - 1);
    }
  }

  lemma {:induction false} SlotIdsOfEntries(bufs: seq<TxBuf>, lo: nat, fs: seq<Filled>)
    requires lo + |fs| <= |bufs|
    requires forall k | 0 <= k < |fs| :: bufs[lo + k] == fs[k].buf
    ensures SlotIds(bufs, lo, lo + |fs|) == EopIds(fs)
    decreases |fs|
  {
    if fs != [] {
      SlotIdsOfEntries(bufs, lo, fs[..|fs| - 1]);
    }
  }

  lemma {:induction false} SlotIdsOfFree(bufs: seq<TxBuf>, lo: nat, hi: nat)
    requires lo <= hi <= |bufs| && forall i | lo <= i < hi :: bufs[i].skb == None
    ensures SlotIds(bufs, lo, hi) == []
    decreases hi
  {
    if lo < hi {
      SlotIdsOfFree(bufs, lo, hi - 1);
    }
  }

  /** The places from slot `cur` on, going round, hold the entries `fs`; the others are free. */
  ghost predicate CircularlyHold(bufs: seq<TxBuf>, cur: nat, fs: seq<Filled>) {
    && cur < |bufs| && |fs| <= |bufs|
    && (forall i | cur <= i < |bufs| :: if i - cur < |fs| then bufs[i] == fs[i - cur].buf else bufs[i].skb == None)
    && (forall i | 0 <= i < cur ::
          var d := i + |bufs| - cur; if d < |fs| then bufs[i] == fs[d].buf else bufs[i].skb == None)
  }

  lemma SlotIdsWithoutWrap(bufs: seq<TxBuf>, cur: nat, fs: seq<Filled>)
    requires CircularlyHold(bufs, cur, fs) && cur + |fs| <= |bufs|
    ensures SlotIds(bufs, 0, |bufs|) == EopIds(fs)
  {
    hide SlotIds, EopIds;
    SlotIdsConcat(bufs, 0, cur, |bufs|);
    SlotIdsConcat(bufs, cur, cur + |fs|, |bufs|);
    SlotIdsOfFree(bufs, 0, cur);
    SlotIdsOfEntries(bufs, cur, fs);
    SlotIdsOfFree(bufs, cur + |fs|, |bufs|);
  }

  lemma WrappedSlots(bufs: seq<TxBuf>, cur: nat, fs: seq<Filled>, d: nat)
    requires CircularlyHold(bufs, cur, fs) && cur + |fs| > |bufs| && d == |bufs| - cur
    ensures d <= |fs| && |fs| - d <= cur < |bufs|
    ensures forall k | 0 <= k < |fs[d..]| :: bufs[k] == fs[d..][k].buf
    ensures forall i | |fs| - d <= i < cur :: bufs[i].skb == None
    ensures forall k | 0 <= k < |fs[..d]| :: bufs[cur + k] == fs[..d][k].buf
  {
    forall k | 0 <= k < |fs[..d]| ensures bufs[cur + k] == fs[..d][k].buf {
      assert bufs[cur + k] == fs[cur + k - cur].buf;
    }
  }

  lemma SlotIdsWithWrap(bufs: seq<TxBuf>, cur: nat, fs: seq<Filled>, d: nat)
    requires CircularlyHold(bufs, cur, fs) && cur + |fs| > |bufs| && d == |bufs| - cur
    ensures SlotIds(bufs, 0, |bufs|) == EopIds(fs[d..]) + EopIds(fs[..d])
  {
    hide SlotIds, EopIds, CircularlyHold;
    var before, after := fs[..d], fs[d..];
    WrappedSlots(bufs, cur, fs, d);
    SlotIdsConcat(bufs, 0, cur, |bufs|);
    SlotIdsConcat(bufs, 0, |after|, cur);
    SlotIdsOfEntries(bufs, 0, after);
    SlotIdsOfFree(bufs, |after|, cur);
    SlotIdsOfEntries(bufs, cur, before);
  }

  /** The slots hold each packet in flight once. */
  lemma SlotsHoldPending(s: TxState, h: History)
    requires RingInv(s, h)
    ensures multiset(SlotIds(s.buf, 0, |s.buf|)) == multiset(EopIds(Pending(h)))
  {
    hide SlotIds, EopIds;
    var fs := Pending(h);
    assert CircularlyHold(s.buf, s.cur, fs) by { PendingInSlots(s, h); }
    if s.cur + |fs| <= |s.buf| {
      SlotIdsWithoutWrap(s.buf, s.cur, fs);
    } else {
      var d := |s.buf| - s.cur;
      SlotIdsWithWrap(s.buf, s.cur, fs, d);
      assert fs == fs[..d] + fs[d..];
      EopIdsConcat(fs[..d], fs[d..]);
    }
  }

  lemma PendingInSlots(s: TxState, h: History)
    requires RingInv(s, h)
    ensures CircularlyHold(s.buf, s.cur, Pending(h))
  {
    forall i | 0 <= i < |s.buf|
      ensures if Distance(s, i) < InFlight(h) then s.buf[i] == Pending(h)[Distance(s, i)].buf else s.buf[i].skb == None
    {
      assert SlotOk(s, h, i);
    }
  }

  // ----- exactly once -----

  /** Closing releases whatever was in flight: altogether every packet sent since the device was opened,
      each once. The queue is left stopped exactly if nothing was taken back while waiting, and entries are given
      up only if the oldest has not been handed back by then. DMA mappings stay only for entries the device never handed back, and if there are none
      the packets have been released in the order they were sent. */
  lemma CloseReleases(cfg: Config, base: multiset<Pin>, s: TxState, h: History, waits: seq<seq<Event>>)
    returns (h': History)
    requires ValidConfig(cfg) && DriverInv(cfg, base, s, h) && |waits| == CLOSE_POLLS
    ensures ValidHistory(h') && h'.submitted == h.submitted
    ensures var t := Close(cfg, s, waits);
            && multiset(t.freed) == multiset(EopIds(h.submitted))
            && t.dropped == s.dropped && t.pending == 0 && !t.open
            && (t.stopped <==> h'.reaped == h.reaped)
            && (InFlight(h') > 0 ==> t.ring[t.cur].ownership != Driver)
            && (InFlight(h) == 0 ==> t.ring == s.ring && t.nic == s.nic)
            && t.dma == base + AllPins(Pending(h'))
            && (forall i | 0 <= i < |t.buf| :: !EndsPacket(t.buf[i]))
            && (InFlight(h') == 0 ==> t.dma == base && t.freed == EopIds(h.submitted))
  {
    hide SlotOk, ValidFilled, EopIds, AllPins, Polls;
    var t := s.(stopped := true, open := false);
    SameRing(s, t, h);
    h' := PollsKeep(cfg, base, t, h, waits);
    t := Polls(cfg, t, waits);
    SlotsHoldPending(t, h');
    assert h'.submitted == Done(h') + Pending(h');
    EopIdsConcat(Done(h'), Pending(h'));
    if InFlight(h') == 0 {
      Emptied(cfg, base, t, h');
      SlotIdsOfFree(t.buf, 0, |t.buf|);
    }
  }

  /** An input for which the queue of a closed device is left running: the oldest entry is back already. */
  lemma ClosedQueueRuns(cfg: Config, base: multiset<Pin>, s: TxState, h: History, waits: seq<seq<Event>>)
    requires ValidConfig(cfg) && DriverInv(cfg, base, s, h) && |waits| == CLOSE_POLLS
    requires s.pending > 0 && s.ring[s.cur].ownership == Driver && waits[0] == []
    ensures !Close(cfg, s, waits).stopped
  {
    hide SlotOk, ValidFilled, EopIds, AllPins, CheckTxQueue, Completed;
    var t := s.(stopped := true, open := false);
    SameRing(s, t, h);
    ReapSeesOldest(t, h);
    CheckCore(cfg, base, t, h);
    var h1 := CheckKeeps(cfg, base, t, h);
    CompletedExactly(cfg, base, t, h);
    var h2 := PollsKeep(cfg, base, CheckTxQueue(cfg, t), h1, waits[1..]);
  }

  /** The packet an event makes the driver responsible for, if any. */
  function AcceptedBy(cfg: Config, s: TxState, e: Event): seq<nat>
    requires ValidConfig(cfg) && ValidRing(s)
  {
    if e.Xmit? && Possible(cfg, s, e) && !Transmit(cfg, s, e.p, e.linearizeOk).1.StopTransmit? then [e.p.id] else []
  }

  function AcceptedIn(cfg: Config, s: TxState, events: seq<Event>): seq<nat>
    requires ValidConfig(cfg) && ValidRing(s)
  {
    if events == [] then []
    else
      AcceptedIn(cfg, s, events[..|events| - 1]) +
        AcceptedBy(cfg, Run(cfg, s, events[..|events| - 1]), events[|events| - 1])
  }

  lemma AcceptedHasFate(cfg: Config, s: TxState, e: Event)
    requires ValidConfig(cfg) && ValidRing(s)
    ensures AcceptedBy(cfg, s, e) == if e.Xmit? && !FateIn(cfg, s, e).Refused? then [e.p.id] else []
  {
  }

  lemma {:induction false} AcceptedAreSentOrLost(cfg: Config, s: TxState, events: seq<Event>)
    requires ValidConfig(cfg) && ValidRing(s)
    ensures multiset(AcceptedIn(cfg, s, events))
         == multiset(PacketsWith(cfg, s, events, Sent)) + multiset(PacketsWith(cfg, s, events, Lost))
  {
    if events != [] {
      hide AcceptedBy, FateIn, Step, Run, ValidConfig;
      var before, e := events[..|events| - 1], events[|events| - 1];
      AcceptedAreSentOrLost(cfg, s, before);
      AcceptedHasFate(cfg, Run(cfg, s, before), e);
    }
  }

  /** From opening to closing, whatever the kernel and the device do in between, every packet the driver
      accepted is given back to the kernel exactly once. */
  lemma ExactlyOnce(cfg: Config, s: TxState, events: seq<Event>, waits: seq<seq<Event>>)
    requires ValidConfig(cfg) && Opened(s) && |waits| == CLOSE_POLLS
    ensures var t := Close(cfg, Run(cfg, s, events), waits);
            multiset(t.freed) + multiset(t.dropped) == multiset(AcceptedIn(cfg, s, events))
  {
    hide DriverInv;
    var h := EveryRun(cfg, s, events);
    var h' := CloseReleases(cfg, s.dma, Run(cfg, s, events), h, waits);
    AcceptedAreSentOrLost(cfg, s, events);
  }
}
