/** The receive side as the driver and the device run it, over arrays changed in place. */
module RxDevice {
  import opened MachineInts
  import opened Packet
  import opened RxRing
  import TxRing

  const MAX_BUFFERS := 128

  class Receiver {
    /** The receive ring, followed by the only entry of the dummy second ring. */
    const ring: array<RxRingEntry>
    const rxSkbuff: array<Option<nat>>
    /** For each entry the place of its buffer in rxSkbuff. */
    const buffPtr: array<Option<nat>>
    const numRxBuffers: nat
    var driverNext: nat
    var nicNext: nat
    var nicNext2: nat
    var open: bool

    ghost var held: set<nat>
    ghost var memory: map<nat, Data>
    ghost var delivered: seq<Delivery>
    ghost var freed: seq<nat>
    ghost var hist: RxHistory

    ghost predicate Allocated()
      reads this, ring, rxSkbuff, buffPtr
    {
      && 0 < numRxBuffers < MAX_BUFFERS && ring.Length == numRxBuffers + 1
      && rxSkbuff.Length == buffPtr.Length == MAX_BUFFERS && rxSkbuff != buffPtr
      && driverNext < numRxBuffers && nicNext < numRxBuffers
    }

    ghost function View(): (s: RxState)
      requires Allocated()
      reads this, ring, rxSkbuff, buffPtr
      ensures Shaped(s) && |s.ring| == numRxBuffers
    {
      RxState(ring[..numRxBuffers], rxSkbuff[..numRxBuffers], ring[numRxBuffers], driverNext, nicNext, nicNext2,
              held, memory, delivered)
    }

    ghost predicate Valid()
      reads this, ring, rxSkbuff, buffPtr
    {
      && Allocated() && (forall i | 0 <= i < numRxBuffers :: buffPtr[i] == Some(i))
      && RxInv(View(), hist)
    }

    /** The number of receive buffers is below the length of the table of buffer pointers, which
        vmxnet_init_ring also writes at that index. */
    constructor (numRxBuffers: nat)
      requires 0 < numRxBuffers < MAX_BUFFERS
      ensures Allocated() && this.numRxBuffers == numRxBuffers && !open
      ensures fresh(ring) && fresh(rxSkbuff) && fresh(buffPtr)
    {
      this.numRxBuffers := numRxBuffers;
      ring := new RxRingEntry[numRxBuffers + 1](_ => RxRingEntry(0, 0, Driver, false));
      rxSkbuff := new Option<nat>[MAX_BUFFERS](_ => None);
      buffPtr := new Option<nat>[MAX_BUFFERS](_ => None);
      driverNext, nicNext, nicNext2, open := 0, 0, 0, false;
    }

    /** The receive part of vmxnet_init_ring; fails as soon as the kernel has no buffer. */
    method InitRing(allocs: seq<Option<nat>>) returns (ok: bool)
      requires Allocated() && |allocs| == numRxBuffers
      requires forall i, j | 0 <= i < j < |allocs| && allocs[i].Some? :: allocs[i] != allocs[j]
      modifies this`driverNext, this`nicNext, this`nicNext2, this`held, this`delivered, this`hist
      modifies ring, rxSkbuff, buffPtr
      ensures Allocated() && (ok <==> forall i | 0 <= i < |allocs| :: allocs[i].Some?)
      ensures ok ==> Valid() && Initial(View()) && hist == RxHistory([], [], []) && rxSkbuff[..numRxBuffers] == allocs
    {
      hide SlotOk, OwnBuffers, Kept, Packets, GoRound;
      var i := 0;
      while i < numRxBuffers
        invariant 0 <= i <= numRxBuffers
        invariant forall k | 0 <= k < i :: allocs[k].Some? && rxSkbuff[k] == allocs[k] && buffPtr[k] == Some(k)
        invariant forall k | 0 <= k < i :: ring[k] == RxRingEntry(allocs[k].value, 0, Nic, ring[k].csumOk)
        modifies ring, rxSkbuff, buffPtr
      {
        rxSkbuff[i] := allocs[i];
        if rxSkbuff[i] == None {
          return false;
        }
        ring[i] := ring[i].(paddr := allocs[i].value, actualLength := 0);
        buffPtr[i] := Some(i);
        ring[i] := ring[i].(ownership := Nic);
        i := i + 1;
      }
      ring[i] := ring[i].(paddr := 0, actualLength := 0, ownership := Driver);
      buffPtr[i] := None;
      driverNext, nicNext, nicNext2 := 0, 0, 0;
      held, delivered, hist := {}, [], RxHistory([], [], []);
      EveryRun(View(), []);
      return true;
    }

    /** The receive part of vmxnet_open: the device is open if the ring could be filled. */
    method Open(allocs: seq<Option<nat>>) returns (ok: bool)
      requires Allocated() && !open && |allocs| == numRxBuffers
      requires forall i, j | 0 <= i < j < |allocs| && allocs[i].Some? :: allocs[i] != allocs[j]
      modifies this`driverNext, this`nicNext, this`nicNext2, this`held, this`delivered, this`hist, this`open
      modifies ring, rxSkbuff, buffPtr
      ensures Allocated() && open == ok && (ok <==> forall i | 0 <= i < |allocs| :: allocs[i].Some?)
      ensures ok ==> Valid() && Initial(View()) && rxSkbuff[..numRxBuffers] == allocs
    {
      hide RxInv, Initial;
      ok := InitRing(allocs);
      if ok {
        open := true;
      }
    }

    /** Vmxnet2_GetNextRx: the slot whose entry the device gets. */
    method NextRx() returns (got: Fetched)
      requires Valid() && nicNext !in held
      modifies this`nicNext, this`held, this`hist
      ensures Valid() && (View(), got) == GetNextRx(old(View())) && !got.FromSecond?
    {
      hide SlotOk, Kept, Packets, OwnBuffers;
      FetchKeeps(View(), hist);
      if ring[nicNext].ownership == Nic {
        got := FromRing(nicNext);
        held := held + {nicNext};
        hist := hist.(slots := hist.slots + [nicNext], fetches := hist.fetches + [None]);
        nicNext := TxRing.Inc(nicNext, numRxBuffers);
      } else {
        got := Nothing;
        if ring[numRxBuffers].ownership == Nic {
          // the dummy ring's entry always belongs to the driver
          assert false;
        }
      }
    }

    /** The device writes a frame into an entry it holds; Vmxnet2_PutRx. */
    method PutRx(slot: nat, f: Frame)
      requires Valid() && slot < numRxBuffers && slot in held
      modifies this`held, this`memory, this`hist, ring
      ensures Valid() && View() == Put(old(View()), slot, f)
    {
      hide SlotOk, Kept, Packets, OwnBuffers;
      PutKeeps(View(), hist, slot, f);
      hist := hist.(fetches := hist.fetches[LatestFetch(hist.slots, slot) := Some(f)]);
      memory := memory[ring[slot].paddr := f.data];
      ring[slot] := ring[slot].(actualLength := f.length, csumOk := f.csumOk);
      ring[slot] := ring[slot].(ownership := Driver);
      held := held - {slot};
      assert View().ring == old(View()).ring[slot := ring[slot]];
      assert View() == Put(old(View()), slot, f);
    }

    /** One round of the loop of vmxnet_rx. */
    method TakeFrame(alloc: Option<nat>)
      requires Valid() && CanTake(View())
      modifies this`driverNext, this`delivered, ring, rxSkbuff
      ensures Allocated() && View() == TakeOne(old(View()), alloc)
    {
      var pktLen := SeenLength(ring[driverNext].actualLength);
      if pktLen >= MIN_LENGTH && alloc.Some? {
        var place := buffPtr[driverNext].value;
        delivered := delivered + DeliveryOf(ring[driverNext], rxSkbuff[place], memory);
        rxSkbuff[place] := alloc;
        ring[driverNext] := ring[driverNext].(paddr := alloc.value);
      }
      ring[driverNext] := ring[driverNext].(ownership := Nic);
      driverNext := TxRing.Inc(driverNext, numRxBuffers);
    }

    /** The loop of vmxnet_rx. */
    method TakeFrames(allocs: seq<Option<nat>>)
      requires Valid() && |allocs| == numRxBuffers && AllFresh(View(), allocs)
      modifies this`driverNext, this`delivered, this`hist, ring, rxSkbuff
      ensures Valid() && View() == TakeAll(old(View()), allocs).0 && !CanTake(View())
    {
      hide Taking, TakeOne, RxInv, AllFresh, TakeAll;
      ghost var s := View();
      TakingStarts(s, hist, allocs);
      var n := 0;
      while true
        invariant Allocated() && (forall i | 0 <= i < numRxBuffers :: buffPtr[i] == Some(i))
        invariant Taking(s, View(), hist, allocs, n)
        decreases |allocs| - n
      {
        TakingIsValid(s, View(), hist, allocs, n);
        if ring[driverNext].ownership != Driver {
          break;
        }
        TakingGoesOn(s, View(), hist, allocs, n);
        TakeFrame(allocs[n]);
        hist := hist.(taken := hist.taken + [allocs[n].Some?]);
        n := n + 1;
      }
      TakingStops(s, View(), hist, allocs, n);
    }

    /** vmxnet_rx: every frame that is ready is taken off the ring. */
    method Rx(allocs: seq<Option<nat>>)
      requires Valid() && |allocs| == numRxBuffers && AllFresh(View(), allocs)
      modifies this`driverNext, this`delivered, this`hist, ring, rxSkbuff
      ensures Valid()
      ensures View() == if open then TakeAll(old(View()), allocs).0 else old(View())
      ensures open ==> !CanTake(View())
    {
      if !open {
        return;
      }
      TakeFrames(allocs);
    }

    /** The receive part of vmxnet_close: a closed device takes no frames, and its buffers are freed. Every
        buffer it ever had has then been freed or handed to the kernel, once. */
    method Close()
      requires Valid()
      modifies this`open, this`freed, rxSkbuff
      ensures !open && Allocated() && freed == old(freed) + Paddrs(ring[..numRxBuffers])
      ensures multiset(Paddrs(ring[..numRxBuffers])) + multiset(Handed(delivered)) == Buffers(old(View()))
      ensures forall i, j | 0 <= i < j < numRxBuffers :: ring[i].paddr != ring[j].paddr
      ensures forall i | 0 <= i < numRxBuffers :: ring[i].paddr !in Handed(delivered)
      ensures forall i | 0 <= i < numRxBuffers :: rxSkbuff[i] == None
    {
      hide RxInv;
      ghost var s := View();
      RingBuffersAreOwn(s, hist);
      assert forall i | 0 <= i < numRxBuffers :: Paddrs(s.ring)[i] == ring[i].paddr;
      open := false;
      FreeBuffers();
    }

    /** The loop of vmxnet_close over the receive buffers. */
    method FreeBuffers()
      requires Valid()
      modifies this`freed, rxSkbuff
      ensures freed == old(freed) + Paddrs(ring[..numRxBuffers])
      ensures forall i | 0 <= i < numRxBuffers :: rxSkbuff[i] == None
    {
      hide RxInv;
      EveryEntryHasBuffer(View(), hist);
      assert forall k | 0 <= k < numRxBuffers :: rxSkbuff[k] == View().skbuff[k] && ring[k] == View().ring[k];
      var i := 0;
      while i < numRxBuffers
        invariant 0 <= i <= numRxBuffers
        invariant forall k | i <= k < numRxBuffers :: rxSkbuff[k] == Some(ring[k].paddr)
        invariant forall k | 0 <= k < i :: rxSkbuff[k] == None
        invariant freed == old(freed) + Paddrs(ring[..i])
      {
        if rxSkbuff[i] != None {
          assert Paddrs(ring[..i + 1]) == Paddrs(ring[..i]) + [ring[i].paddr];
          freed := freed + [rxSkbuff[i].value];
          rxSkbuff[i] := None;
        }
        i := i + 1;
      }
    }
  }

  // ----- the loop of vmxnet_rx -----

  /** From s0, n frames have been taken so far. */
  ghost predicate Taking(s0: RxState, s: RxState, h: RxHistory, allocs: seq<Option<nat>>, n: nat) {
    && RxInv(s, h) && Shaped(s0) && n <= |allocs| && AllFresh(s, allocs[n..])
    && |h.fetches| - |h.taken| <= |allocs| - n
    && TakeAll(s0, allocs).0 == TakeAll(s, allocs[n..]).0
  }

  lemma TakingStarts(s: RxState, h: RxHistory, allocs: seq<Option<nat>>)
    requires RxInv(s, h) && AllFresh(s, allocs) && |allocs| == |s.ring|
    ensures Taking(s, s, h, allocs, 0)
  {
    assert allocs[0..] == allocs;
  }

  lemma TakingIsValid(s0: RxState, s: RxState, h: RxHistory, allocs: seq<Option<nat>>, n: nat)
    requires Taking(s0, s, h, allocs, n)
    ensures RxInv(s, h) && Shaped(s)
  {
  }

  lemma TakingGoesOn(s0: RxState, s: RxState, h: RxHistory, allocs: seq<Option<nat>>, n: nat)
    requires Taking(s0, s, h, allocs, n) && Shaped(s) && CanTake(s)
    ensures n < |allocs|
    ensures Taking(s0, TakeOne(s, allocs[n]), h.(taken := h.taken + [allocs[n].Some?]), allocs, n + 1)
  {
    hide RxInv, TakeOne, Fresh;
    TakeKeeps(s, h, None);
    var rest := allocs[n..];
    assert rest[0] == allocs[n] && rest[1..] == allocs[n + 1..];
    TakeKeeps(s, h, allocs[n]);
    StillFresh(s, h, rest);
  }

  lemma TakingStops(s0: RxState, s: RxState, h: RxHistory, allocs: seq<Option<nat>>, n: nat)
    requires Taking(s0, s, h, allocs, n) && Shaped(s) && !CanTake(s)
    ensures TakeAll(s0, allocs).0 == s && RxInv(s, h)
  {
  }
}
