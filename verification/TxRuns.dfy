/** Whole runs of an open transmit side, and closing it: packets are released exactly once and their
    bytes reach the device in order. */
module TxRuns {
  import opened MachineInts
  import opened Packet
  import opened TxMap
  import opened TxChop
  import opened Segmentation
  import opened TxRing
  import opened TxDriver
  import opened TxSafety

  // ----- runs -----

  /** The kernel transmits a packet, the device raises an interrupt, fetches an entry or hands one back. */
  datatype Event = Xmit(p: Skb, linearizeOk: bool) | Intr | DevFetch | DevReturn(slot: nat)

  predicate Possible(cfg: Config, s: TxState, e: Event)
    requires ValidRing(s)
  {
    match e
    case Xmit(p, _) => s.open && Transmittable(cfg, |s.ring|, p)
    case Intr => s.open
    case DevFetch => s.ring[s.nic].ownership == Nic
    case DevReturn(i) => i < |s.ring| && s.ring[i].ownership == NicPending
  }

  /** An event that is not possible changes nothing. */
  function Step(cfg: Config, s: TxState, e: Event): (t: TxState)
    requires ValidConfig(cfg) && ValidRing(s)
    ensures ValidRing(t) && |t.ring| == |s.ring|
  {
    if !Possible(cfg, s, e) then s
    else match e
      case Xmit(p, ok) => Transmit(cfg, s, p, ok).0
      case Intr => Interrupt(cfg, s)
      case DevFetch => Fetch(s)
      case DevReturn(i) => Return(s, i)
  }

  function Run(cfg: Config, s: TxState, events: seq<Event>): (t: TxState)
    requires ValidConfig(cfg) && ValidRing(s)
    ensures ValidRing(t) && |t.ring| == |s.ring|
  {
    if events == [] then s else Step(cfg, Run(cfg, s, events[..|events| - 1]), events[|events| - 1])
  }

  function FateIn(cfg: Config, s: TxState, e: Event): Fate
    requires ValidConfig(cfg) && ValidRing(s)
  {
    if e.Xmit? && Possible(cfg, s, e) then FateOf(cfg, s, e.p, e.linearizeOk) else Refused
  }

  function EntriesIn(cfg: Config, s: TxState, e: Event): seq<Filled>
    requires ValidConfig(cfg) && ValidRing(s)
  {
    if e.Xmit? && Possible(cfg, s, e) then SentEntries(cfg, s, e.p, e.linearizeOk) else []
  }

  /** The packets with a given fate, in order. */
  function PacketsWith(cfg: Config, s: TxState, events: seq<Event>, fate: Fate): seq<nat>
    requires ValidConfig(cfg) && ValidRing(s)
  {
    if events == [] then []
    else
      var before, e := Run(cfg, s, events[..|events| - 1]), events[|events| - 1];
      PacketsWith(cfg, s, events[..|events| - 1], fate) +
        if e.Xmit? && FateIn(cfg, before, e) == fate then [e.p.id] else []
  }

  /** All entries the transmitted packets were given, in order. */
  function EntriesOf(cfg: Config, s: TxState, events: seq<Event>): seq<Filled>
    requires ValidConfig(cfg) && ValidRing(s)
  {
    if events == [] then []
    else
      EntriesOf(cfg, s, events[..|events| - 1]) +
        EntriesIn(cfg, Run(cfg, s, events[..|events| - 1]), events[|events| - 1])
  }

  /** What the device finds at each fetch. */
  function ReadIn(cfg: Config, s: TxState, events: seq<Event>): seq<Look>
    requires ValidConfig(cfg) && ValidRing(s)
  {
    if events == [] then []
    else
      var before, e := Run(cfg, s, events[..|events| - 1]), events[|events| - 1];
      ReadIn(cfg, s, events[..|events| - 1]) +
        if e.DevFetch? && Possible(cfg, before, e) then [LookAt(before)] else []
  }

  /** The transmit side as vmxnet_open leaves it. */
  predicate Opened(s: TxState) {
    Initial(s) && s.open && !s.stopped && !s.txStopped && s.pending == 0 && s.freed == [] && s.dropped == []
  }

  lemma OpenedHolds(cfg: Config, s: TxState)
    requires Opened(s)
    ensures DriverInv(cfg, s.dma, s, History([], 0, 0))
  {
    InitialHolds(s);
  }

  lemma DeviceKeeps(cfg: Config, base: multiset<Pin>, s: TxState, h: History, e: Event) returns (h': History)
    requires ValidConfig(cfg) && DriverInv(cfg, base, s, h) && (e.DevFetch? || e.DevReturn?) && Possible(cfg, s, e)
    ensures DriverInv(cfg, base, Step(cfg, s, e), h')
    ensures h'.submitted == h.submitted && h'.fetched == h.fetched + if e.DevFetch? then 1 else 0
    ensures h'.reaped == h.reaped && Step(cfg, s, e).stopped == s.stopped
    ensures e.DevFetch? ==> h.fetched < |h.submitted| && ReadsFilled(LookAt(s), h.submitted[h.fetched])
    ensures Step(cfg, s, e).dropped == s.dropped && Step(cfg, s, e).open == s.open
  {
    hide SlotOk, ValidFilled, EopIds, AllPins;
    if e.DevFetch? {
      FetchSeesNext(s, h);
      FetchKeeps(s, h);
      h' := h.(fetched := h.fetched + 1);
    } else {
      ReturnKeeps(s, h, e.slot);
      h' := h;
    }
  }

  /** One event's part in the accounts and in the device's reads. */
  ghost predicate Recorded(cfg: Config, s: TxState, e: Event, h: History, h': History)
    requires ValidConfig(cfg) && ValidRing(s)
  {
    var t := Step(cfg, s, e);
    && h'.submitted == h.submitted + EntriesIn(cfg, s, e)
    && EopIds(h'.submitted) == EopIds(h.submitted) + (if e.Xmit? && FateIn(cfg, s, e).Sent? then [e.p.id] else [])
    && t.dropped == s.dropped + (if e.Xmit? && FateIn(cfg, s, e).Lost? then [e.p.id] else [])
    && h'.fetched == h.fetched + (if e.DevFetch? && Possible(cfg, s, e) then 1 else 0)
    && (e.DevFetch? && Possible(cfg, s, e) ==>
          h.fetched < |h.submitted| && ReadsFilled(LookAt(s), h.submitted[h.fetched]))
    && t.open == s.open
  }

  lemma StepKeeps(cfg: Config, base: multiset<Pin>, s: TxState, h: History, e: Event) returns (h': History)
    requires ValidConfig(cfg) && DriverInv(cfg, base, s, h)
    ensures DriverInv(cfg, base, Step(cfg, s, e), h') && Recorded(cfg, s, e, h, h')
  {
    hide SlotOk, ValidFilled, AllPins, Transmit, Interrupt, Fetch, Return, EopIds, Transmittable, FateOf, SentEntries, ReadsFilled;
    h' := h;
    assert h.submitted + [] == h.submitted;
    if Possible(cfg, s, e) {
      if e.Xmit? {
        h' := TransmitKeeps(cfg, base, s, h, e.p, e.linearizeOk);
      } else if e.Intr? {
        h' := InterruptKeeps(cfg, base, s, h);
      } else {
        h' := DeviceKeeps(cfg, base, s, h, e);
      }
    }
  }

  /** What is recorded of a run. */
  ghost predicate RunRecorded(cfg: Config, s: TxState, events: seq<Event>, h: History)
    requires ValidConfig(cfg) && ValidRing(s)
  {
    var t := Run(cfg, s, events);
    && t.open && t.dropped == PacketsWith(cfg, s, events, Lost)
    && h.submitted == EntriesOf(cfg, s, events)
    && EopIds(h.submitted) == PacketsWith(cfg, s, events, Sent)
    && h.fetched == |ReadIn(cfg, s, events)|
    && SameOrder(ReadIn(cfg, s, events), EntriesOf(cfg, s, events))
  }

  lemma RunStep(cfg: Config, s: TxState, events: seq<Event>, h: History, h': History)
    requires ValidConfig(cfg) && ValidRing(s) && events != []
    requires var before := events[..|events| - 1];
             RunRecorded(cfg, s, before, h) && Recorded(cfg, Run(cfg, s, before), events[|events| - 1], h, h')
    ensures RunRecorded(cfg, s, events, h')
  {
    hide Step, FateIn, EntriesIn, ReadsFilled, Possible, EopIds, Used, ValidConfig;
  }

  /** In every run of an open device: the driver invariant holds; the packets in flight or released are
      those sent, in the order they were sent; and the device reads exactly the entries of those
      packets, in that order. */
  lemma {:induction false} EveryRun(cfg: Config, s: TxState, events: seq<Event>) returns (h: History)
    requires ValidConfig(cfg) && Opened(s)
    ensures DriverInv(cfg, s.dma, Run(cfg, s, events), h) && RunRecorded(cfg, s, events, h)
  {
    if events == [] {
      h := History([], 0, 0);
      OpenedHolds(cfg, s);
    } else {
      hide CoreInv, DriverInv, Step, RunRecorded, Recorded;
      var before, e := events[..|events| - 1], events[|events| - 1];
      var h0 := EveryRun(cfg, s, before);
      h := StepKeeps(cfg, s.dma, Run(cfg, s, before), h0, e);
      RunStep(cfg, s, events, h0, h);
    }
  }

  /** After any run the device finds an entry exactly when it has not read all entries of the packets sent,
      and it is the next of them, exactly as the driver filled it: gather list, headers, flags, segment size. */
  lemma NextFetchFinds(cfg: Config, s: TxState, events: seq<Event>)
    requires ValidConfig(cfg) && Opened(s)
    ensures var t, n := Run(cfg, s, events), |ReadIn(cfg, s, events)|;
            && (t.ring[t.nic].ownership == Nic <==> n < |EntriesOf(cfg, s, events)|)
            && (n < |EntriesOf(cfg, s, events)| ==> Holds(t, t.nic, EntriesOf(cfg, s, events)[n]))
  {
    hide SlotOk, ValidFilled, EopIds, AllPins, Holds, ReadsFilled, SameOrder, ReadIn, EntriesOf, Run;
    var h := EveryRun(cfg, s, events);
    FetchSeesNext(Run(cfg, s, events), h);
  }

  // ----- release only after the device is done -----

  predicate NoRepeats(ids: seq<nat>) {
    forall i, j | 0 <= i < j < |ids| :: ids[i] != ids[j]
  }

  /** Whatever entry of a packet is taken, the entry that ends the packet is not before it. */
  lemma {:induction false} EndIsLater(fs: seq<Filled>, k: nat)
    requires Grouped(fs) && k < |fs| && fs[k].buf.skb.Some?
    ensures fs[k].buf.skb.value.id in EopIds(fs[k..])
    decreases |fs| - k
  {
    assert fs[k..] == [fs[k]] + fs[k + 1..];
    EopIdsConcat([fs[k]], fs[k + 1..]);
    EopIdsAppend([], fs[k]);
    assert [] + [fs[k]] == [fs[k]];
    if !fs[k].buf.eop {
      EndIsLater(fs, k + 1);
    }
  }

  lemma {:induction false} PinsComeFrom(id: nat, areas: seq<SgElem>, pin: Pin)
    requires pin in PinsOf(id, areas)
    ensures pin.id == id
  {
    if areas != [] && pin in PinsOf(id, areas[..|areas| - 1]) {
      PinsComeFrom(id, areas[..|areas| - 1], pin);
    }
  }

  lemma {:induction false} AllPinsComeFrom(fs: seq<Filled>, pin: Pin) returns (k: nat)
    requires pin in AllPins(fs)
    ensures k < |fs| && fs[k].buf.skb.Some? && fs[k].buf.skb.value.id == pin.id
  {
    var init, last := fs[..|fs| - 1], fs[|fs| - 1];
    if pin in AllPins(init) {
      k := AllPinsComeFrom(init, pin);
    } else {
      k := |fs| - 1;
      PinsComeFrom(last.buf.skb.value.id, last.pins, pin);
    }
  }

  lemma OnlyOnce(a: seq<nat>, b: seq<nat>, id: nat)
    requires NoRepeats(a + b) && id in a
    ensures id !in b
  {
    var i: nat :| i < |a| && a[i] == id;
    forall j | 0 <= j < |b| ensures b[j] != id {
      assert (a + b)[i] == a[i];
      assert (a + b)[|a| + j] == b[j];
    }
  }

  /** A released packet has had all its entries handed back and taken off the ring: no slot refers to
      it and none of its DMA mappings is left. */
  lemma FreedIsHandedBack(cfg: Config, base: multiset<Pin>, s: TxState, h: History, id: nat)
    requires DriverInv(cfg, base, s, h) && NoRepeats(EopIds(h.submitted)) && id in s.freed
    ensures forall k | h.reaped <= k < |h.submitted| :: h.submitted[k].buf.skb.value.id != id
    ensures forall i | 0 <= i < |s.ring| :: s.buf[i].skb.Some? ==> s.buf[i].skb.value.id != id
    ensures forall pin | pin in s.dma - base :: pin.id != id
  {
    hide SlotOk, ValidFilled, EopIds, AllPins;
    assert h.submitted == Done(h) + Pending(h);
    EopIdsConcat(Done(h), Pending(h));
    OnlyOnce(EopIds(Done(h)), EopIds(Pending(h)), id);
    forall k | h.reaped <= k < |h.submitted|
      ensures h.submitted[k].buf.skb.Some? && h.submitted[k].buf.skb.value.id != id
    {
      HasPacket(cfg, h.submitted[k]);
      EndIsLater(h.submitted, k);
      assert h.submitted[h.reaped..] == h.submitted[h.reaped..k] + h.submitted[k..];
      EopIdsConcat(h.submitted[h.reaped..k], h.submitted[k..]);
    }
    forall i | 0 <= i < |s.ring| && s.buf[i].skb.Some? ensures s.buf[i].skb.value.id != id {
      SlotHolds(s, h, i);
    }
    assert s.dma - base == AllPins(Pending(h));
    forall pin | pin in s.dma - base ensures pin.id != id {
      var k := AllPinsComeFrom(Pending(h), pin);
      assert Pending(h)[k] == h.submitted[h.reaped + k];
    }
  }

  lemma HasPacket(cfg: Config, f: Filled)
    requires ValidFilled(cfg, f)
    ensures f.buf.skb.Some?
  {
  }

  lemma SlotHolds(s: TxState, h: History, i: nat)
    requires RingInv(s, h) && i < |s.ring| && s.buf[i].skb.Some?
    ensures Distance(s, i) < InFlight(h) && s.buf[i] == h.submitted[h.reaped + Distance(s, i)].buf
  {
    assert SlotOk(s, h, i);
  }

  /** Once the device has handed everything back, one interrupt releases all packets and mappings. */
  lemma HandedBackMeansReleased(cfg: Config, base: multiset<Pin>, s: TxState, h: History)
    requires DriverInv(cfg, base, s, h) && s.open
    requires forall i | 0 <= i < |s.ring| :: s.ring[i].ownership == Driver
    ensures var t := Interrupt(cfg, s);
            && t.pending == 0 && t.dma == base && t.freed == EopIds(h.submitted) && !t.stopped
            && forall i | 0 <= i < |t.ring| :: t.buf[i].skb == None
  {
    hide SlotOk, ValidFilled, EopIds, AllPins;
    InterruptWakes(cfg, base, s, h);
    var t, h' := CheckTxQueue(cfg, s), h;
    if s.pending > 0 {
      CheckCore(cfg, base, s, h);
      h' := h.(reaped := h.reaped + Completed(cfg, s));
      ReapSeesOldest(t, h');
    }
    Emptied(cfg, base, if s.pending > 0 then t else s, h');
  }

  lemma Emptied(cfg: Config, base: multiset<Pin>, s: TxState, h: History)
    requires CoreInv(cfg, base, s, h) && InFlight(h) == 0
    ensures s.dma == base && s.freed == EopIds(h.submitted)
    ensures forall i | 0 <= i < |s.ring| :: s.buf[i].skb == None
  {
    hide ValidFilled;
    assert Done(h) == h.submitted && Pending(h) == [];
    forall i | 0 <= i < |s.ring| ensures s.buf[i].skb == None {
      assert SlotOk(s, h, i);
    }
  }

  // ----- the queue -----

  /** No lost wake-up: whenever the queue of an open device is stopped, the driver has entries pending, so
      an interrupt is due; and as soon as the oldest one has been handed back, that interrupt restarts
      the queue. */
  lemma NoLostWakeup(cfg: Config, s: TxState, events: seq<Event>)
    requires ValidConfig(cfg) && Opened(s)
    ensures var t := Run(cfg, s, events);
            && t.open
            && (t.stopped ==> t.pending > 0 && t.txStopped && t.buf[t.cur].skb.Some?)
            && (t.stopped && t.ring[t.cur].ownership == Driver ==> !Step(cfg, t, Intr).stopped)
  {
    hide SlotOk, ValidFilled, EopIds, AllPins, RunRecorded;
    var h := EveryRun(cfg, s, events);
    var t := Run(cfg, s, events);
    assert t.open by { StaysOpen(cfg, s, events, h); }
    if t.stopped {
      OldestIsTaken(t, h);
    }
    InterruptWakes(cfg, s.dma, t, h);
  }

  /** The queue after every event of every run. A refused packet and an interrupt leave it stopped exactly while
      the oldest entry has not been handed back, a packet that is sent leaves it stopped if it was, under the
      same condition, and nothing else touches it. */
  lemma QueueExactly(cfg: Config, s: TxState, events: seq<Event>, e: Event)
    requires ValidConfig(cfg) && Opened(s)
    ensures var t, t' := Run(cfg, s, events), Run(cfg, s, events + [e]);
            var waiting := t.ring[t.cur].ownership != Driver;
            && t'.txStopped == t'.stopped
            && (t'.stopped <==>
                  if !Possible(cfg, t, e) || e.DevFetch? || e.DevReturn? then t.stopped
                  else if e.Intr? || FateIn(cfg, t, e).Sent? then t.stopped && waiting
                  else if FateIn(cfg, t, e).Refused? then waiting
                  else t.stopped)
  {
    hide SlotOk, ValidFilled, EopIds, AllPins, Transmit, Interrupt, FateOf, RunRecorded, Transmittable;
    var h := EveryRun(cfg, s, events);
    var t := Run(cfg, s, events);
    StaysOpen(cfg, s, events, h);
    assert (events + [e])[..|events|] == events;
    if Possible(cfg, t, e) {
      match e
      case Xmit(p, ok) =>
        match FateOf(cfg, t, p, ok) {
          case Refused => RefusedExactly(cfg, s.dma, t, h, p, ok);
          case Sent => SentExactly(cfg, s.dma, t, h, p, ok);
          case Lost => LostExactly(cfg, t, p, ok);
        }
      case Intr => InterruptExactly(cfg, s.dma, t, h);
      case DevFetch =>
      case DevReturn(i) =>
    }
  }

  lemma StaysOpen(cfg: Config, s: TxState, events: seq<Event>, h: History)
    requires ValidConfig(cfg) && ValidRing(s) && RunRecorded(cfg, s, events, h)
    ensures Run(cfg, s, events).open
  {
  }

  lemma OldestIsTaken(s: TxState, h: History)
    requires RingInv(s, h) && InFlight(h) > 0
    ensures s.buf[s.cur].skb.Some?
  {
    assert SlotOk(s, h, s.cur);
  }

  // ----- the device can always empty the ring -----

  lemma {:induction false} RunAppend(cfg: Config, s: TxState, a: seq<Event>, b: seq<Event>)
    requires ValidConfig(cfg) && ValidRing(s)
    ensures Run(cfg, s, a + b) == Run(cfg, Run(cfg, s, a), b)
  {
    if b == [] {
      assert a + b == a;
    } else {
      hide Step;
      assert (a + b)[..|a + b| - 1] == a + b[..|b| - 1];
      RunAppend(cfg, s, a, b[..|b| - 1]);
    }
  }

  /** The device fetches until nothing waits. */
  lemma {:induction false} FetchRest(cfg: Config, base: multiset<Pin>, s: TxState, h: History)
    returns (events: seq<Event>, h': History)
    requires ValidConfig(cfg) && DriverInv(cfg, base, s, h)
    ensures var t := Run(cfg, s, events);
            && DriverInv(cfg, base, t, h') && h'.submitted == h.submitted && h'.fetched == |h.submitted|
            && t.open == s.open
    decreases |h.submitted| - h.fetched
  {
    hide SlotOk, ValidFilled, EopIds, AllPins, Transmit, Transmittable;
    if h.fetched == |h.submitted| {
      events, h' := [], h;
    } else {
      FetchSeesNext(s, h);
      var h1 := DeviceKeeps(cfg, base, s, h, DevFetch);
      var rest;
      rest, h' := FetchRest(cfg, base, Step(cfg, s, DevFetch), h1);
      events := [DevFetch] + rest;
      OneEvent(cfg, s, DevFetch);
      RunAppend(cfg, s, [DevFetch], rest);
    }
  }

  lemma OneEvent(cfg: Config, s: TxState, e: Event)
    requires ValidConfig(cfg) && ValidRing(s)
    ensures Run(cfg, s, [e]) == Step(cfg, s, e)
  {
    assert [e][..0] == [];
    assert Run(cfg, s, []) == s;
  }

  ghost predicate BackUpTo(s: TxState, n: nat) {
    forall i | 0 <= i < n && i < |s.ring| :: s.ring[i].ownership == Driver
  }

  /** The device hands back the entry in slot n, unless it is back already. */
  lemma ReturnOne(cfg: Config, base: multiset<Pin>, s: TxState, h: History, n: nat) returns (events: seq<Event>)
    requires ValidConfig(cfg) && DriverInv(cfg, base, s, h) && h.fetched == |h.submitted|
    requires n < |s.ring| && BackUpTo(s, n)
    ensures var t := Run(cfg, s, events); DriverInv(cfg, base, t, h) && t.open == s.open && BackUpTo(t, n + 1)
  {
    hide ValidFilled, EopIds, AllPins, Transmit, Transmittable, SlotOk;
    NoneWaiting(s, h, n);
    events := [];
    if s.ring[n].ownership == NicPending {
      events := [DevReturn(n)];
      ReturnKeeps(s, h, n);
      OneEvent(cfg, s, DevReturn(n));
    }
  }

  /** The device hands back the entries in the first n slots. */
  lemma {:induction false} ReturnFirst(cfg: Config, base: multiset<Pin>, s: TxState, h: History, n: nat)
    returns (events: seq<Event>)
    requires ValidConfig(cfg) && DriverInv(cfg, base, s, h) && h.fetched == |h.submitted| && n <= |s.ring|
    ensures var t := Run(cfg, s, events); DriverInv(cfg, base, t, h) && t.open == s.open && BackUpTo(t, n)
  {
    events := [];
    if n > 0 {
      hide CoreInv, Step, BackUpTo;
      var before := ReturnFirst(cfg, base, s, h, n - 1);
      var last := ReturnOne(cfg, base, Run(cfg, s, before), h, n - 1);
      RunAppend(cfg, s, before, last);
      events := before + last;
    }
  }

  lemma NoneWaiting(s: TxState, h: History, i: nat)
    requires RingInv(s, h) && h.fetched == |h.submitted| && i < |s.ring|
    ensures s.ring[i].ownership in {NicPending, Driver}
  {
    assert SlotOk(s, h, i);
  }

  /** From every reachable state the device can bring the driver back to an empty ring: there is a
      continuation in which all packets sent have been released in order, no DMA mapping is left and the
      queue runs. */
  lemma CanAlwaysDrain(cfg: Config, s: TxState, events: seq<Event>) returns (more: seq<Event>)
    requires ValidConfig(cfg) && Opened(s)
    ensures var t := Run(cfg, s, events + more);
            && t.pending == 0 && t.dma == s.dma && !t.stopped
            && t.freed == PacketsWith(cfg, s, events, Sent)
  {
    hide DriverInv, RunRecorded, EopIds, Step;
    var h := EveryRun(cfg, s, events);
    var t := Run(cfg, s, events);
    StaysOpen(cfg, s, events, h);
    var fetches, h1 := FetchRest(cfg, s.dma, t, h);
    var t1 := Run(cfg, t, fetches);
    var returns' := ReturnFirst(cfg, s.dma, t1, h1, |t1.ring|);
    var t2 := Run(cfg, t1, returns');
    HandedBackMeansReleased(cfg, s.dma, t2, h1);
    more := fetches + returns' + [Intr];
    OneEvent(cfg, t2, Intr);
    RunAppend(cfg, t, fetches, returns');
    RunAppend(cfg, t, fetches + returns', [Intr]);
    RunAppend(cfg, s, events, more);
    assert Step(cfg, t2, Intr) == Interrupt(cfg, t2) by { StepInterrupts(cfg, t2); }
    assert EopIds(h.submitted) == PacketsWith(cfg, s, events, Sent) by { SentAre(cfg, s, events, h); }
  }

  lemma StepInterrupts(cfg: Config, s: TxState)
    requires ValidConfig(cfg) && ValidRing(s) && s.open
    ensures Step(cfg, s, Intr) == Interrupt(cfg, s)
  {
  }

  lemma SentAre(cfg: Config, s: TxState, events: seq<Event>, h: History)
    requires ValidConfig(cfg) && ValidRing(s) && RunRecorded(cfg, s, events, h)
    ensures EopIds(h.submitted) == PacketsWith(cfg, s, events, Sent)
  {
  }

  // ----- while the lock is released -----

  predicate NoXmit(events: seq<Event>) {
    forall k | 0 <= k < |events| :: !events[k].Xmit?
  }

  lemma PendingShrinks(cfg: Config, s: TxState, e: Event)
    requires ValidConfig(cfg) && ValidRing(s) && !e.Xmit?
    ensures Step(cfg, s, e).pending <= s.pending
  {
    ReapFrame(cfg, s, |s.ring|);
  }

  /** vmxnet_tx releases its lock to have a packet linearized. The room it found before is still there
      afterwards, whatever interrupts and the device have done meanwhile. */
  lemma {:induction false} RoomLasts(cfg: Config, base: multiset<Pin>, s: TxState, h: History, n: nat, events: seq<Event>)
    returns (h': History)
    requires ValidConfig(cfg) && DriverInv(cfg, base, s, h) && NoXmit(events)
    requires 0 < n <= |s.ring| && Available(s, n)
    ensures DriverInv(cfg, base, Run(cfg, s, events), h') && Run(cfg, s, events).pending <= s.pending
    ensures Available(Run(cfg, s, events), n)
  {
    hide SlotOk, ValidFilled, EopIds, AllPins, Step, Available, Recorded;
    h' := h;
    if events != [] {
      var before, e := events[..|events| - 1], events[|events| - 1];
      h' := RoomLasts(cfg, base, s, h, n, before);
      PendingShrinks(cfg, Run(cfg, s, before), e);
      h' := StepKeeps(cfg, base, Run(cfg, s, before), h', e);
      AvailableExactly(s, h, n);
      AvailableExactly(Run(cfg, s, events), h', n);
    }
  }
}
