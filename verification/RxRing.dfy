/** The receive ring: the device fetches empty entries and puts frames into them in any order, the
    driver takes frames off in ring order. Over every interleaving the frames reach the kernel in
    the order in which the device fetched their entries, and only runts and frames for which no new
    buffer could be allocated are dropped. */
module RxRing {
  import opened MachineInts
  import opened OnesComplement
  import opened Packet
  import TxRing

  type Data = seq<byte>

  /** `paddr` names the buffer the entry points at. */
  datatype RxRingEntry = RxRingEntry(paddr: nat, actualLength: uint32, ownership: Ownership, csumOk: bool)

  /** What the kernel is given. */
  datatype Delivery = Delivery(buffer: nat, length: int, data: Data, csumOk: bool)

  /** `held` are the entries the device has fetched and not yet put back; `second` is the dummy ring's
      only entry; `memory` is what the device has written into the buffers. */
  datatype RxState = RxState(ring: seq<RxRingEntry>, skbuff: seq<Option<nat>>, second: RxRingEntry,
                             driverNext: nat, nicNext: nat, nicNext2: nat, held: set<nat>,
                             memory: map<nat, Data>, delivered: seq<Delivery>)

  /** A frame as the device puts it into an entry. */
  datatype Frame = Frame(length: uint32, csumOk: bool, data: Data)

  /** The shortest frame that is not a runt: ETH_MIN_FRAME_LEN without a VLAN tag. */
  const MIN_LENGTH := 56

  predicate Shaped(s: RxState) {
    |s.ring| == |s.skbuff| > 0 && s.driverNext < |s.ring| && s.nicNext < |s.ring|
  }

  // ----- the moves -----

  /** What Vmxnet2_GetNextRx hands out: an entry of the ring, or of the second ring, or none. */
  datatype Fetched = FromRing(slot: nat) | FromSecond | Nothing

  function GetNextRx(s: RxState): (r: (RxState, Fetched))
    requires Shaped(s)
    ensures Shaped(r.0) && |r.0.ring| == |s.ring|
  {
    if s.ring[s.nicNext].ownership == Nic then
      (s.(nicNext := TxRing.Inc(s.nicNext, |s.ring|), held := s.held + {s.nicNext}), FromRing(s.nicNext))
    else if s.second.ownership == Nic then
      (s.(nicNext2 := TxRing.Inc(s.nicNext2, 1)), FromSecond)
    else (s, Nothing)
  }

  /** The device writes a frame into a fetched entry's buffer and calls Vmxnet2_PutRx. */
  function Put(s: RxState, slot: nat, f: Frame): (t: RxState)
    requires Shaped(s) && slot < |s.ring|
    ensures Shaped(t) && |t.ring| == |s.ring|
  {
    s.(ring := s.ring[slot := s.ring[slot].(actualLength := f.length, csumOk := f.csumOk, ownership := Driver)],
       held := s.held - {slot}, memory := s.memory[s.ring[slot].paddr := f.data])
  }

  /** The length as the driver sees it, a 16-bit signed integer. */
  function SeenLength(length: uint32): int {
    (length + 0x8000) % 0x1_0000 - 0x8000
  }

  function Contents(memory: map<nat, Data>, buffer: nat): Data {
    if buffer in memory then memory[buffer] else []
  }

  /** One round of vmxnet_rx; `alloc` is the new buffer, if the kernel has one. */
  function TakeOne(s: RxState, alloc: Option<nat>): (t: RxState)
    requires Shaped(s)
    ensures Shaped(t) && |t.ring| == |s.ring|
  {
    var e, skb := s.ring[s.driverNext], s.skbuff[s.driverNext];
    var back, next := e.(ownership := Nic), TxRing.Inc(s.driverNext, |s.ring|);
    if SeenLength(e.actualLength) < MIN_LENGTH || alloc == None then
      s.(ring := s.ring[s.driverNext := back], driverNext := next)
    else
      s.(ring := s.ring[s.driverNext := back.(paddr := alloc.value)],
         skbuff := s.skbuff[s.driverNext := alloc],
         delivered := s.delivered + DeliveryOf(e, skb, s.memory),
         driverNext := next)
  }

  function DeliveryOf(e: RxRingEntry, skb: Option<nat>, memory: map<nat, Data>): seq<Delivery> {
    if skb.Some? then [Delivery(skb.value, SeenLength(e.actualLength), Contents(memory, skb.value), e.csumOk)] else []
  }

  predicate CanTake(s: RxState)
    requires Shaped(s)
  {
    s.ring[s.driverNext].ownership == Driver
  }

  /** vmxnet_rx: takes frames until an entry has none; also returns how many. */
  function TakeAll(s: RxState, allocs: seq<Option<nat>>): (r: (RxState, nat))
    requires Shaped(s)
    ensures Shaped(r.0) && |r.0.ring| == |s.ring| && r.1 <= |allocs|
    decreases |allocs|
  {
    if allocs == [] || !CanTake(s) then (s, 0)
    else var (t, n) := TakeAll(TakeOne(s, allocs[0]), allocs[1..]); (t, n + 1)
  }

  // ----- the invariant -----

  /** For every fetch since the start the slot it got and the frame put into it, once there is one; for
      every frame taken off the ring by the driver whether a new buffer was there. */
  datatype RxHistory = RxHistory(slots: seq<nat>, fetches: seq<Option<Frame>>, taken: seq<bool>)

  /** The device's latest fetch of a slot. */
  function LatestFetch(slots: seq<nat>, slot: nat): (k: nat)
    requires slot in slots
    ensures k < |slots|
  {
    var n := |slots| - 1;
    if slots[n] == slot then n else assert slots == slots[..n] + [slots[n]]; LatestFetch(slots[..n], slot)
  }

  lemma {:induction false} LatestIs(slots: seq<nat>, slot: nat, k: nat)
    requires k < |slots| && slots[k] == slot && forall j | k < j < |slots| :: slots[j] != slot
    ensures LatestFetch(slots, slot) == k
  {
    var n := |slots| - 1;
    if k < n {
      LatestIs(slots[..n], slot, k);
    }
  }

  /** How many places slot i is ahead of the driver. */
  function Place(s: RxState, i: nat): nat
    requires Shaped(s) && i < |s.ring|
  {
    if i >= s.driverNext then i - s.driverNext else i + |s.ring| - s.driverNext
  }

  /** Slot i is empty, or fetched and not put back, or holds its frame. */
  predicate SlotOk(s: RxState, h: RxHistory, i: nat)
    requires Shaped(s) && i < |s.ring|
  {
    var e, k := s.ring[i], |h.taken| + Place(s, i);
    && s.skbuff[i] == Some(e.paddr)
    && if k >= |h.fetches| then e.ownership == Nic && i !in s.held
       else match h.fetches[k]
         case None => e.ownership == Nic && i in s.held
         case Some(f) =>
           && e.ownership == Driver && i !in s.held && e.actualLength == f.length && e.csumOk == f.csumOk
           && Contents(s.memory, e.paddr) == f.data
  }

  /** The packets the kernel should have: the frames taken that are not runts and had a new buffer. */
  function Kept(frames: seq<Option<Frame>>, ok: seq<bool>): seq<(int, Data, bool)>
    requires |ok| <= |frames|
  {
    if ok == [] then []
    else
      var n := |ok| - 1;
      Kept(frames, ok[..n]) +
        match frames[n]
        case None => []
        case Some(f) => if ok[n] && SeenLength(f.length) >= MIN_LENGTH then [(SeenLength(f.length), f.data, f.csumOk)] else []
  }

  function Packets(ds: seq<Delivery>): seq<(int, Data, bool)> {
    seq(|ds|, i requires 0 <= i < |ds| => (ds[i].length, ds[i].data, ds[i].csumOk))
  }

  /** Buffers in the ring are distinct and not with the kernel. */
  ghost predicate OwnBuffers(s: RxState)
    requires Shaped(s)
  {
    && (forall i, j | 0 <= i < j < |s.ring| :: s.ring[i].paddr != s.ring[j].paddr)
    && (forall i, k | 0 <= i < |s.ring| && 0 <= k < |s.delivered| :: s.ring[i].paddr != s.delivered[k].buffer)
  }

  /** The fetches the driver has not caught up with went round the ring from its position. */
  ghost predicate GoRound(s: RxState, h: RxHistory)
    requires Shaped(s)
  {
    && |h.slots| == |h.fetches|
    && forall k | |h.taken| <= k < |h.slots| :: h.slots[k] < |s.ring| && Place(s, h.slots[k]) == k - |h.taken|
  }

  ghost predicate RxInv(s: RxState, h: RxHistory) {
    && Shaped(s) && GoRound(s, h) && |h.taken| <= |h.fetches| <= |h.taken| + |s.ring|
    && s.nicNext == TxRing.Ahead(s.driverNext, |h.fetches| - |h.taken|, |s.ring|)
    && (forall i | 0 <= i < |s.ring| :: SlotOk(s, h, i))
    && OwnBuffers(s) && s.second.ownership == Driver
    && Packets(s.delivered) == Kept(h.fetches, h.taken)
  }

  lemma FetchKeeps(s: RxState, h: RxHistory)
    requires RxInv(s, h) && s.nicNext !in s.held
    ensures var (t, got) := GetNextRx(s);
            && got == (if |h.fetches| < |h.taken| + |s.ring| then FromRing(s.nicNext) else Nothing)
            && RxInv(t, if got.FromRing? then h.(slots := h.slots + [s.nicNext], fetches := h.fetches + [None]) else h)
  {
    hide Kept, Packets, Contents;
    assert SlotOk(s, h, s.nicNext);
    var (t, got) := GetNextRx(s);
    if got.FromRing? {
      var h' := h.(slots := h.slots + [s.nicNext], fetches := h.fetches + [None]);
      forall i | 0 <= i < |t.ring| ensures SlotOk(t, h', i) {
        assert SlotOk(s, h, i);
      }
      KeptIgnoresRest(h.fetches, h'.fetches, h.taken);
    }
  }

  lemma {:induction false} KeptIgnoresRest(a: seq<Option<Frame>>, b: seq<Option<Frame>>, ok: seq<bool>)
    requires |ok| <= |a| && |ok| <= |b| && a[..|ok|] == b[..|ok|]
    ensures Kept(a, ok) == Kept(b, ok)
  {
    if ok != [] {
      var n := |ok| - 1;
      assert a[..n] == a[..|ok|][..n] && b[..n] == b[..|ok|][..n];
      assert a[n] == a[..|ok|][n] && b[n] == b[..|ok|][n];
      KeptIgnoresRest(a, b, ok[..n]);
    }
  }

  lemma LatestOfHeld(s: RxState, h: RxHistory, slot: nat)
    requires Shaped(s) && GoRound(s, h) && slot < |s.ring| && |h.taken| + Place(s, slot) < |h.fetches|
    ensures slot in h.slots && LatestFetch(h.slots, slot) == |h.taken| + Place(s, slot)
  {
    var k := |h.taken| + Place(s, slot);
    assert Place(s, h.slots[k]) == Place(s, slot);
    LatestIs(h.slots, slot, k);
  }

  lemma RoundIgnoresFrames(s: RxState, t: RxState, h: RxHistory, h': RxHistory)
    requires Shaped(s) && Shaped(t) && |s.ring| == |t.ring| && s.driverNext == t.driverNext && GoRound(s, h)
    requires h.slots == h'.slots && |h.fetches| == |h'.fetches| && h.taken == h'.taken
    ensures GoRound(t, h')
  {
  }

  lemma PutKeeps(s: RxState, h: RxHistory, slot: nat, f: Frame)
    requires RxInv(s, h) && slot < |s.ring| && slot in s.held
    ensures slot in h.slots && h.fetches[LatestFetch(h.slots, slot)] == None
    ensures RxInv(Put(s, slot, f), h.(fetches := h.fetches[LatestFetch(h.slots, slot) := Some(f)]))
  {
    hide LatestFetch, Kept, Packets, GoRound;
    assert SlotOk(s, h, slot);
    LatestOfHeld(s, h, slot);
    var k := |h.taken| + Place(s, slot);
    var t, h' := Put(s, slot, f), h.(fetches := h.fetches[k := Some(f)]);
    assert GoRound(t, h') by { RoundIgnoresFrames(s, t, h, h'); }
    forall i | 0 <= i < |t.ring| ensures SlotOk(t, h', i) {
      assert SlotOk(s, h, i);
    }
    KeptIgnoresRest(h.fetches, h'.fetches, h.taken);
  }

  /** The kernel's new buffers are not in use. */
  ghost predicate Fresh(s: RxState, b: nat)
    requires Shaped(s)
  {
    && (forall i | 0 <= i < |s.ring| :: s.ring[i].paddr != b)
    && (forall k | 0 <= k < |s.delivered| :: s.delivered[k].buffer != b)
  }

  ghost predicate AllFresh(s: RxState, allocs: seq<Option<nat>>)
    requires Shaped(s)
  {
    && (forall k | 0 <= k < |allocs| && allocs[k].Some? :: Fresh(s, allocs[k].value))
    && (forall k, l | 0 <= k < l < |allocs| && allocs[k].Some? :: allocs[k] != allocs[l])
  }

  lemma TakeKeeps(s: RxState, h: RxHistory, alloc: Option<nat>)
    requires RxInv(s, h) && CanTake(s) && (alloc.Some? ==> Fresh(s, alloc.value))
    ensures |h.taken| < |h.fetches| && h.fetches[|h.taken|].Some?
    ensures RxInv(TakeOne(s, alloc), h.(taken := h.taken + [alloc.Some?]))
  {
    hide Kept, DeliveryOf, Contents, Packets, SeenLength;
    assert SlotOk(s, h, s.driverNext);
    var t, h' := TakeOne(s, alloc), h.(taken := h.taken + [alloc.Some?]);
    forall i | 0 <= i < |t.ring| ensures SlotOk(t, h', i) {
      assert SlotOk(s, h, i);
    }
    TakeKeepsBuffers(s, h, alloc);
    TakeDelivers(s, h, alloc);
  }

  lemma TakeKeepsBuffers(s: RxState, h: RxHistory, alloc: Option<nat>)
    requires RxInv(s, h) && CanTake(s) && (alloc.Some? ==> Fresh(s, alloc.value))
    ensures OwnBuffers(TakeOne(s, alloc))
  {
    hide Kept, Contents, Packets, SeenLength;
    assert SlotOk(s, h, s.driverNext);
  }

  lemma TakeDelivers(s: RxState, h: RxHistory, alloc: Option<nat>)
    requires RxInv(s, h) && CanTake(s)
    requires |h.taken| < |h.fetches|
    ensures Packets(TakeOne(s, alloc).delivered) == Kept(h.fetches, h.taken + [alloc.Some?])
  {
    assert SlotOk(s, h, s.driverNext);
    assert (h.taken + [alloc.Some?])[..|h.taken|] == h.taken;
  }

  lemma LaterFresh(s: RxState, alloc: Option<nat>, b: nat)
    requires Shaped(s) && OwnBuffers(s) && Fresh(s, b) && alloc != Some(b)
    requires s.skbuff[s.driverNext] == Some(s.ring[s.driverNext].paddr)
    ensures Fresh(TakeOne(s, alloc), b)
  {
    hide Contents, SeenLength;
  }

  /** vmxnet_rx takes every frame that is ready, up to the first entry without one. */
  lemma {:induction false} TakeAllKeeps(s: RxState, h: RxHistory, allocs: seq<Option<nat>>)
    requires RxInv(s, h) && AllFresh(s, allocs)
    ensures var (t, n) := TakeAll(s, allocs);
            && RxInv(t, h.(taken := h.taken + Granted(allocs, n)))
            && (n < |allocs| ==> !CanTake(t))
    decreases |allocs|
  {
    if allocs == [] || !CanTake(s) {
      assert h.taken + Granted(allocs, 0) == h.taken;
    } else {
      hide RxInv, SlotOk, TakeOne, Kept, Packets;
      var h1 := h.(taken := h.taken + [allocs[0].Some?]);
      TakeKeeps(s, h, allocs[0]);
      var t := TakeOne(s, allocs[0]);
      assert AllFresh(t, allocs[1..]) by { StillFresh(s, h, allocs); }
      TakeAllKeeps(t, h1, allocs[1..]);
      var n := TakeAll(t, allocs[1..]).1;
      TakenTail(h.taken, allocs, n);
    }
  }

  /** For which of the first n requests the kernel had a buffer. */
  function Granted(allocs: seq<Option<nat>>, n: nat): seq<bool>
    requires n <= |allocs|
  {
    seq(n, k requires 0 <= k < n => allocs[k].Some?)
  }

  lemma StillFresh(s: RxState, h: RxHistory, allocs: seq<Option<nat>>)
    requires RxInv(s, h) && allocs != [] && AllFresh(s, allocs)
    ensures AllFresh(TakeOne(s, allocs[0]), allocs[1..])
  {
    hide TakeOne, Fresh, Kept, Packets;
    assert SlotOk(s, h, s.driverNext);
    forall k | 0 <= k < |allocs[1..]| && allocs[1..][k].Some? ensures Fresh(TakeOne(s, allocs[0]), allocs[1..][k].value) {
      assert allocs[1..][k] == allocs[k + 1];
      LaterFresh(s, allocs[0], allocs[k + 1].value);
    }
  }

  lemma TakenTail(taken: seq<bool>, allocs: seq<Option<nat>>, n: nat)
    requires n + 1 <= |allocs|
    ensures taken + [allocs[0].Some?] + Granted(allocs[1..], n) == taken + Granted(allocs, n + 1)
  {
  }

  // ----- every interleaving -----

  /** `Intr` stands for as many rounds of the loop of vmxnet_rx as it has entries, if that many frames are
      ready; a call during which the device moves is several of them with the moves in between. */
  datatype RxEvent = DevFetch | DevPut(slot: nat, frame: Frame) | Intr(allocs: seq<Option<nat>>)

  /** The device fetches no entry that it still holds and puts only entries it holds; the kernel's new
      buffers are not in use. */
  ghost predicate Possible(s: RxState, e: RxEvent)
    requires Shaped(s)
  {
    match e
    case DevFetch => s.nicNext !in s.held
    case DevPut(slot, _) => slot < |s.ring| && slot in s.held
    case Intr(allocs) => AllFresh(s, allocs)
  }

  ghost function Step(s: RxState, e: RxEvent): (t: RxState)
    requires Shaped(s)
    ensures Shaped(t) && |t.ring| == |s.ring|
  {
    if !Possible(s, e) then s
    else match e
      case DevFetch => GetNextRx(s).0
      case DevPut(slot, frame) => Put(s, slot, frame)
      case Intr(allocs) => TakeAll(s, allocs).0
  }

  ghost function Run(s: RxState, events: seq<RxEvent>): (t: RxState)
    requires Shaped(s)
    ensures Shaped(t) && |t.ring| == |s.ring|
  {
    if events == [] then s else Step(Run(s, events[..|events| - 1]), events[|events| - 1])
  }

  /** The history after one more event: a fetch is recorded without its frame, a put fills it in. */
  ghost function Recorded(s: RxState, h: RxHistory, e: RxEvent): RxHistory
    requires Shaped(s)
  {
    if !Possible(s, e) then h
    else match e
      case DevFetch =>
        if GetNextRx(s).1.FromRing? then h.(slots := h.slots + [GetNextRx(s).1.slot], fetches := h.fetches + [None]) else h
      case DevPut(slot, frame) =>
        if slot in h.slots && LatestFetch(h.slots, slot) < |h.fetches|
        then h.(fetches := h.fetches[LatestFetch(h.slots, slot) := Some(frame)]) else h
      case Intr(allocs) =>
        h.(taken := h.taken + Granted(allocs, TakeAll(s, allocs).1))
  }

  ghost function HistoryOf(s: RxState, events: seq<RxEvent>): RxHistory
    requires Shaped(s)
  {
    if events == [] then RxHistory([], [], [])
    else Recorded(Run(s, events[..|events| - 1]), HistoryOf(s, events[..|events| - 1]), events[|events| - 1])
  }

  lemma StepKeeps(s: RxState, h: RxHistory, e: RxEvent)
    requires RxInv(s, h)
    ensures RxInv(Step(s, e), Recorded(s, h, e))
  {
    hide SlotOk, Kept, Packets, OwnBuffers;
    if Possible(s, e) {
      match e
      case DevFetch => FetchKeeps(s, h);
      case DevPut(slot, frame) => PutKeeps(s, h, slot, frame);
      case Intr(allocs) => TakeAllKeeps(s, h, allocs);
    }
  }

  /** The ring as vmxnet_init_ring leaves it when all buffers could be allocated. */
  ghost predicate Initial(s: RxState) {
    && Shaped(s) && s.driverNext == s.nicNext == 0 && s.held == {} && s.delivered == []
    && (forall i | 0 <= i < |s.ring| :: s.ring[i].ownership == Nic && s.skbuff[i] == Some(s.ring[i].paddr))
    && (forall i, j | 0 <= i < j < |s.ring| :: s.ring[i].paddr != s.ring[j].paddr)
    && s.second.ownership == Driver
  }

  /** Whatever the order of fetches, puts and interrupts: the packets the kernel has are, in the order in
      which the device fetched their entries, exactly the frames taken so far that are not runts and for
      which a new buffer was there; every entry has a buffer of its own that the kernel does not have;
      the dummy ring stays untouched. */
  lemma {:induction false} EveryRun(s: RxState, events: seq<RxEvent>)
    requires Initial(s)
    ensures RxInv(Run(s, events), HistoryOf(s, events))
  {
    if events == [] {
      forall i | 0 <= i < |s.ring| ensures SlotOk(s, RxHistory([], [], []), i) {}
    } else {
      hide RxInv, Step, Recorded;
      EveryRun(s, events[..|events| - 1]);
      StepKeeps(Run(s, events[..|events| - 1]), HistoryOf(s, events[..|events| - 1]), events[|events| - 1]);
    }
  }

  // ----- a device that puts every frame before it fetches the next entry -----

  /** A frame arrives from the network, or an interrupt is handled. */
  datatype Arrival = Arrive(frame: Frame) | Interrupt(allocs: seq<Option<nat>>)

  /** What the device does for an arrival: it fetches an entry and, if it gets one, puts the frame there. */
  ghost function EventsFor(s: RxState, a: Arrival): seq<RxEvent>
    requires Shaped(s)
  {
    match a
    case Arrive(f) => if GetNextRx(s).1.FromRing? then [DevFetch, DevPut(s.nicNext, f)] else [DevFetch]
    case Interrupt(allocs) => [Intr(allocs)]
  }

  ghost function EventsOf(s: RxState, arrivals: seq<Arrival>): seq<RxEvent>
    requires Shaped(s)
  {
    if arrivals == [] then []
    else
      var before := EventsOf(s, arrivals[..|arrivals| - 1]);
      before + EventsFor(Run(s, before), arrivals[|arrivals| - 1])
  }

  /** The frames that arrived while the ring had an entry for them, in order. */
  ghost function Accepted(s: RxState, arrivals: seq<Arrival>): seq<Option<Frame>>
    requires Shaped(s)
  {
    if arrivals == [] then []
    else
      var t, a := Run(s, EventsOf(s, arrivals[..|arrivals| - 1])), arrivals[|arrivals| - 1];
      Accepted(s, arrivals[..|arrivals| - 1]) +
        if a.Arrive? && GetNextRx(t).1.FromRing? then [Some(a.frame)] else []
  }

  /** Every move of the device is one it is allowed to make. */
  ghost predicate DeviceObeys(s: RxState, events: seq<RxEvent>)
    requires Shaped(s)
  {
    forall k | 0 <= k < |events| && !events[k].Intr? :: Possible(Run(s, events[..k]), events[k])
  }

  lemma ObeysOneMore(s: RxState, events: seq<RxEvent>, e: RxEvent)
    requires Shaped(s) && DeviceObeys(s, events) && (e.Intr? || Possible(Run(s, events), e))
    ensures DeviceObeys(s, events + [e])
    ensures Run(s, events + [e]) == Step(Run(s, events), e)
    ensures HistoryOf(s, events + [e]) == Recorded(Run(s, events), HistoryOf(s, events), e)
  {
    hide Possible, Step, Recorded;
    var all := events + [e];
    assert all[..|events|] == events;
    forall k | 0 <= k < |all| && !all[k].Intr? ensures Possible(Run(s, all[..k]), all[k]) {
      assert k < |events| ==> all[..k] == events[..k];
    }
  }

  /** An arrival leaves the device holding nothing, and is recorded as one fetch with its frame if there was
      an entry for it. */
  lemma ArrivalKeeps(s: RxState, events: seq<RxEvent>, f: Frame)
    requires Initial(s) && DeviceObeys(s, events) && Run(s, events).held == {}
    ensures var t := Run(s, events);
            var events' := events + EventsFor(t, Arrive(f));
            && DeviceObeys(s, events') && Run(s, events').held == {}
            && HistoryOf(s, events').fetches ==
                 HistoryOf(s, events).fetches + if GetNextRx(t).1.FromRing? then [Some(f)] else []
  {
    hide RxInv, Run, HistoryOf, DeviceObeys;
    var t, h := Run(s, events), HistoryOf(s, events);
    EveryRun(s, events);
    ObeysOneMore(s, events, DevFetch);
    if GetNextRx(t).1.FromRing? {
      ObeysOneMore(s, events + [DevFetch], DevPut(t.nicNext, f));
      assert events + [DevFetch, DevPut(t.nicNext, f)] == events + [DevFetch] + [DevPut(t.nicNext, f)];
      SameLengths(t, h);
      LatestIs(h.slots + [t.nicNext], t.nicNext, |h.slots|);
    }
  }

  lemma SameLengths(s: RxState, h: RxHistory)
    requires RxInv(s, h)
    ensures |h.slots| == |h.fetches|
  {
  }

  /** A device that puts every frame before it fetches the next entry never does what it must not, and the
      frames it fetches entries for are those that arrive while there is room, in their order. */
  lemma {:induction false} PutBeforeNextFetch(s: RxState, arrivals: seq<Arrival>)
    requires Initial(s)
    ensures var events := EventsOf(s, arrivals);
            && DeviceObeys(s, events) && Run(s, events).held == {}
            && HistoryOf(s, events).fetches == Accepted(s, arrivals)
  {
    if arrivals != [] {
      hide Possible, Step, Recorded, Initial, DeviceObeys, Run, HistoryOf;
      var before, a := arrivals[..|arrivals| - 1], arrivals[|arrivals| - 1];
      PutBeforeNextFetch(s, before);
      match a
      case Arrive(f) => ArrivalKeeps(s, EventsOf(s, before), f);
      case Interrupt(allocs) =>
        ObeysOneMore(s, EventsOf(s, before), Intr(allocs));
        InterruptKeepsHeld(Run(s, EventsOf(s, before)), HistoryOf(s, EventsOf(s, before)), Intr(allocs));
    } else {
      NothingYet(s);
    }
  }

  lemma NothingYet(s: RxState)
    requires Initial(s)
    ensures DeviceObeys(s, []) && Run(s, []) == s && HistoryOf(s, []).fetches == [] && s.held == {}
  {
  }

  lemma InterruptKeepsHeld(s: RxState, h: RxHistory, e: RxEvent)
    requires Shaped(s) && e.Intr?
    ensures Step(s, e).held == s.held && Recorded(s, h, e).fetches == h.fetches
  {
    TakeAllFrame(s, e.allocs);
  }

  lemma {:induction false} TakeAllFrame(s: RxState, allocs: seq<Option<nat>>)
    requires Shaped(s)
    ensures TakeAll(s, allocs).0.held == s.held
    decreases |allocs|
  {
    if allocs != [] && CanTake(s) {
      TakeAllFrame(TakeOne(s, allocs[0]), allocs[1..]);
    }
  }

  /** Hence frames that arrive one after the other are delivered in the order of their arrival. */
  lemma ArrivalsInOrder(s: RxState, arrivals: seq<Arrival>)
    requires Initial(s)
    ensures var t, h := Run(s, EventsOf(s, arrivals)), HistoryOf(s, EventsOf(s, arrivals));
            && |h.taken| <= |Accepted(s, arrivals)|
            && Packets(t.delivered) == Kept(Accepted(s, arrivals), h.taken)
  {
    hide Run, HistoryOf, Kept, Packets, SlotOk;
    PutBeforeNextFetch(s, arrivals);
    EveryRun(s, EventsOf(s, arrivals));
  }

  // ----- what is dropped -----

  /** The length of the buffers the driver allocates. */
  const PKT_BUF_SZ := 1536

  /** What becomes of a frame that is ready: it is dropped exactly if it is a runt, or its length is negative as
      a 16-bit integer, or there is no new buffer. Otherwise it is delivered with the low 16 bits of its length,
      and that is more than the buffer holds exactly for lengths between 1537 and 32767. */
  lemma DroppedExactly(s: RxState, alloc: Option<nat>)
    requires Shaped(s) && CanTake(s) && s.skbuff[s.driverNext].Some?
    ensures var length, t := s.ring[s.driverNext].actualLength % 0x1_0000, TakeOne(s, alloc);
            && (t.delivered == s.delivered <==> length < 56 || length >= 0x8000 || alloc == None)
            && (t.delivered != s.delivered ==>
                  && |t.delivered| == |s.delivered| + 1 && t.delivered[|s.delivered|].length == length
                  && (t.delivered[|s.delivered|].length > PKT_BUF_SZ <==> 1537 <= length <= 32767))
  {
    SeenExactly(s.ring[s.driverNext].actualLength);
  }

  lemma SeenExactly(length: uint32)
    ensures var low := length % 0x1_0000; SeenLength(length) == if low < 0x8000 then low else low - 0x1_0000
  {
    LowHalf(length, length / 0x1_0000, length % 0x1_0000);
  }

  /** No frame is longer than the buffer it is put into. */
  predicate Fitting(events: seq<RxEvent>) {
    forall k | 0 <= k < |events| && events[k].DevPut? :: events[k].frame.length <= PKT_BUF_SZ
  }

  ghost predicate FittingFrames(frames: seq<Option<Frame>>) {
    forall k | 0 <= k < |frames| && frames[k].Some? :: frames[k].value.length <= PKT_BUF_SZ
  }

  lemma {:induction false} HistoryFits(s: RxState, events: seq<RxEvent>)
    requires Shaped(s) && Fitting(events)
    ensures FittingFrames(HistoryOf(s, events).fetches)
  {
    if events != [] {
      hide Possible, Run;
      HistoryFits(s, events[..|events| - 1]);
    }
  }

  lemma {:induction false} KeptFits(frames: seq<Option<Frame>>, ok: seq<bool>, i: nat)
    requires FittingFrames(frames) && |ok| <= |frames| && i < |Kept(frames, ok)|
    ensures MIN_LENGTH <= Kept(frames, ok)[i].0 <= PKT_BUF_SZ
  {
    var n := |ok| - 1;
    if i < |Kept(frames, ok[..n])| {
      KeptFits(frames, ok[..n], i);
    } else {
      SeenExactly(frames[n].value.length);
    }
  }

  /** With a device that respects the buffer length, no delivered frame is longer than its buffer. */
  lemma FittingFramesFit(s: RxState, events: seq<RxEvent>)
    requires Initial(s) && Fitting(events)
    ensures var t := Run(s, events);
            forall i | 0 <= i < |t.delivered| :: MIN_LENGTH <= t.delivered[i].length <= PKT_BUF_SZ
  {
    hide Run, HistoryOf, Kept, SlotOk, OwnBuffers, GoRound, Fitting;
    var t, h := Run(s, events), HistoryOf(s, events);
    EveryRun(s, events);
    HistoryFits(s, events);
    forall i | 0 <= i < |t.delivered| ensures MIN_LENGTH <= t.delivered[i].length <= PKT_BUF_SZ {
      assert Packets(t.delivered)[i].0 == t.delivered[i].length;
      KeptFits(h.fetches, h.taken, i);
    }
  }

  /** The ring after the device has put its first frame. */
  lemma FirstFrame(s: RxState, f: Frame)
    requires Initial(s)
    ensures s.nicNext !in s.held && GetNextRx(s).1 == FromRing(0) && 0 in GetNextRx(s).0.held
    ensures var t := Put(GetNextRx(s).0, 0, f);
            && t.driverNext == 0 && CanTake(t) && t.ring[0].actualLength == f.length && t.skbuff[0].Some?
            && t.delivered == [] && forall b | Fresh(s, b) :: Fresh(t, b)
  {
  }

  /** A first frame put and then taken with a new buffer at hand. */
  function FirstFrameEvents(f: Frame, alloc: nat): seq<RxEvent> {
    [DevFetch, DevPut(0, f), Intr([Some(alloc)])]
  }

  lemma FirstFrameTaken(s: RxState, f: Frame, alloc: nat)
    requires Initial(s) && Fresh(s, alloc)
    ensures DeviceObeys(s, FirstFrameEvents(f, alloc))
    ensures var u := Put(GetNextRx(s).0, 0, f);
            && CanTake(u) && u.delivered == [] && u.driverNext == 0 && u.skbuff[0].Some?
            && u.ring[0].actualLength == f.length
            && Run(s, FirstFrameEvents(f, alloc)) == TakeOne(u, Some(alloc))
  {
    hide DeviceObeys, Run, HistoryOf, Recorded, Put, GetNextRx, Fresh, TakeOne, CanTake;
    var u := Put(GetNextRx(s).0, 0, f);
    NothingYet(s);
    FirstFrame(s, f);
    assert [] + [DevFetch] == [DevFetch];
    ObeysOneMore(s, [], DevFetch);
    assert [DevFetch] + [DevPut(0, f)] == [DevFetch, DevPut(0, f)];
    ObeysOneMore(s, [DevFetch], DevPut(0, f));
    assert Run(s, [DevFetch, DevPut(0, f)]) == u;
    assert [DevFetch, DevPut(0, f)] + [Intr([Some(alloc)])] == FirstFrameEvents(f, alloc);
    ObeysOneMore(s, [DevFetch, DevPut(0, f)], Intr([Some(alloc)]));
    assert AllFresh(u, [Some(alloc)]);
    OneRound(u, Some(alloc));
  }

  /** A frame of 40000 bytes is dropped although there is a new buffer. */
  lemma NegativeLengthFails(s: RxState, data: Data, alloc: nat)
    requires Initial(s) && Fresh(s, alloc)
    ensures var events := FirstFrameEvents(Frame(40000, true, data), alloc);
            DeviceObeys(s, events) && Run(s, events).delivered == []
  {
    hide Run, DeviceObeys, TakeOne, Fresh, CanTake, Put, GetNextRx;
    var f := Frame(40000, true, data);
    FirstFrameTaken(s, f, alloc);
    DroppedExactly(Put(GetNextRx(s).0, 0, f), Some(alloc));
  }

  /** A frame of 2000 bytes is delivered as longer than the buffer it was put into. */
  lemma LongFrameFails(s: RxState, data: Data, alloc: nat)
    requires Initial(s) && Fresh(s, alloc)
    ensures var events := FirstFrameEvents(Frame(2000, true, data), alloc);
            && DeviceObeys(s, events) && |Run(s, events).delivered| == 1
            && Run(s, events).delivered[0].length == 2000 > PKT_BUF_SZ
  {
    hide Run, DeviceObeys, TakeOne, Fresh, CanTake, Put, GetNextRx;
    var f := Frame(2000, true, data);
    FirstFrameTaken(s, f, alloc);
    DroppedExactly(Put(GetNextRx(s).0, 0, f), Some(alloc));
  }

  lemma OneRound(s: RxState, alloc: Option<nat>)
    requires Shaped(s) && CanTake(s)
    ensures TakeAll(s, [alloc]).0 == TakeOne(s, alloc)
  {
    assert [alloc][1..] == [];
  }

  // ----- buffers -----

  function Paddrs(ring: seq<RxRingEntry>): (r: seq<nat>)
    ensures |r| == |ring|
  {
    seq(|ring|, i requires 0 <= i < |ring| => ring[i].paddr)
  }

  function Handed(ds: seq<Delivery>): (r: seq<nat>)
    ensures |r| == |ds|
  {
    seq(|ds|, k requires 0 <= k < |ds| => ds[k].buffer)
  }

  /** The buffers in the ring are distinct and not with the kernel. */
  lemma RingBuffersAreOwn(s: RxState, h: RxHistory)
    requires RxInv(s, h)
    ensures var mine := Paddrs(s.ring);
            && (forall i, j | 0 <= i < j < |mine| :: mine[i] != mine[j])
            && (forall i | 0 <= i < |mine| :: mine[i] !in Handed(s.delivered))
  {
    var mine := Paddrs(s.ring);
    forall i | 0 <= i < |mine| ensures mine[i] !in Handed(s.delivered) {
      assert mine[i] == s.ring[i].paddr;
    }
  }

  /** Every entry has its buffer. */
  lemma EveryEntryHasBuffer(s: RxState, h: RxHistory)
    requires RxInv(s, h)
    ensures forall i | 0 <= i < |s.ring| :: s.skbuff[i] == Some(s.ring[i].paddr)
  {
    forall i | 0 <= i < |s.ring| ensures s.skbuff[i] == Some(s.ring[i].paddr) {
      assert SlotOk(s, h, i);
    }
  }

  /** The buffers in the ring and those the kernel has been given. */
  function Buffers(s: RxState): multiset<nat> {
    multiset(Paddrs(s.ring))
    + multiset(Handed(s.delivered))
  }

  /** The buffers one call of vmxnet_rx obtains: one for each frame that is not a runt, if there is one. */
  function Obtained(s: RxState, allocs: seq<Option<nat>>): multiset<nat>
    requires Shaped(s)
    decreases |allocs|
  {
    if allocs == [] || !CanTake(s) then multiset{}
    else
      (if SeenLength(s.ring[s.driverNext].actualLength) >= MIN_LENGTH && allocs[0].Some?
       then multiset{allocs[0].value} else multiset{}) + Obtained(TakeOne(s, allocs[0]), allocs[1..])
  }

  lemma TakeOneConserves(s: RxState, alloc: Option<nat>)
    requires Shaped(s) && s.skbuff[s.driverNext] == Some(s.ring[s.driverNext].paddr)
    ensures Buffers(TakeOne(s, alloc)) == Buffers(s) +
              if SeenLength(s.ring[s.driverNext].actualLength) >= MIN_LENGTH && alloc.Some?
              then multiset{alloc.value} else multiset{}
  {
    hide SeenLength, Contents;
    var t := TakeOne(s, alloc);
    var a, b := Paddrs(s.ring), Paddrs(t.ring);
    var c, d := Handed(s.delivered), Handed(t.delivered);
    if SeenLength(s.ring[s.driverNext].actualLength) >= MIN_LENGTH && alloc.Some? {
      assert b == a[s.driverNext := alloc.value] && d == c + [a[s.driverNext]];
    } else {
      assert b == a && d == c;
    }
  }

  /** No buffer is lost or given away twice: the buffers in the ring and with the kernel are those there
      were before and those obtained. */
  lemma {:induction false} TakeAllConserves(s: RxState, h: RxHistory, allocs: seq<Option<nat>>)
    requires RxInv(s, h) && AllFresh(s, allocs)
    ensures Buffers(TakeAll(s, allocs).0) == Buffers(s) + Obtained(s, allocs)
    decreases |allocs|
  {
    if allocs != [] && CanTake(s) {
      hide Buffers, TakeOne, Kept, Packets;
      assert SlotOk(s, h, s.driverNext);
      TakeOneConserves(s, allocs[0]);
      TakeKeeps(s, h, allocs[0]);
      StillFresh(s, h, allocs);
      TakeAllConserves(TakeOne(s, allocs[0]), h.(taken := h.taken + [allocs[0].Some?]), allocs[1..]);
    }
  }

  ghost function ObtainedIn(s: RxState, events: seq<RxEvent>): multiset<nat>
    requires Shaped(s)
  {
    if events == [] then multiset{}
    else
      var before, e := Run(s, events[..|events| - 1]), events[|events| - 1];
      ObtainedIn(s, events[..|events| - 1]) +
        if e.Intr? && Possible(before, e) then Obtained(before, e.allocs) else multiset{}
  }

  lemma {:induction false} RunConserves(s: RxState, events: seq<RxEvent>)
    requires Initial(s)
    ensures Buffers(Run(s, events)) == Buffers(s) + ObtainedIn(s, events)
  {
    if events != [] {
      hide RxInv, Buffers, TakeAll, Obtained;
      var before, e := events[..|events| - 1], events[|events| - 1];
      RunConserves(s, before);
      EveryRun(s, before);
      StepConserves(Run(s, before), HistoryOf(s, before), e);
    }
  }

  lemma StepConserves(s: RxState, h: RxHistory, e: RxEvent)
    requires RxInv(s, h)
    ensures Buffers(Step(s, e)) == Buffers(s) +
              if e.Intr? && Possible(s, e) then Obtained(s, e.allocs) else multiset{}
  {
    hide SlotOk, Kept, Packets, TakeAll, Obtained;
    if Possible(s, e) {
      match e
      case DevFetch => assert GetNextRx(s).0.ring == s.ring;
      case DevPut(slot, frame) => PutConserves(s, slot, frame);
      case Intr(allocs) => TakeAllConserves(s, h, allocs);
    }
  }

  lemma PutConserves(s: RxState, slot: nat, f: Frame)
    requires Shaped(s) && slot < |s.ring|
    ensures Buffers(Put(s, slot, f)) == Buffers(s)
  {
    var t := Put(s, slot, f);
    assert Paddrs(s.ring) == Paddrs(t.ring);
  }
}
