/** The transmit side as the driver and the device run it: shared arrays and fields changed in place.
    Every operation is proved to do what its specification function says to the abstract state. */
module TxDevice {
  import opened MachineInts
  import opened Packet
  import opened TxMap
  import opened TxChop
  import opened Segmentation
  import opened TxRing
  import opened TxDriver
  import opened TxSafety
  import opened TxRuns
  import opened TxClose

  class Device {
    const cfg: Config
    const ring: array<TxRingEntry>
    const buf: array<TxBuf>
    const headers: array<HeaderSlot>
    var cur: nat
    var next: nat
    var nic: nat
    var pending: int
    var stopped: bool
    var txStopped: bool
    var open: bool
    var deferred: uint32

    // what the kernel has seen: packets given back and DMA mappings held
    ghost var freed: seq<nat>
    ghost var dropped: seq<nat>
    ghost var dma: multiset<Pin>

    // since the device was opened
    ghost var hist: History
    ghost var base: multiset<Pin>

    ghost function View(): TxState
      reads this, ring, buf, headers
    {
      TxState(ring[..], buf[..], headers[..], cur, next, nic, pending, stopped, txStopped, open, deferred,
              freed, dropped, dma)
    }

    ghost predicate Allocated()
      reads this, ring, buf, headers
    {
      ValidConfig(cfg) && ValidRing(View())
    }

    ghost predicate Valid()
      reads this, ring, buf, headers
    {
      ValidConfig(cfg) && DriverInv(cfg, base, View(), hist)
    }

    constructor (cfg: Config, length: nat)
      requires ValidConfig(cfg) && length > 0
      ensures Allocated() && this.cfg == cfg && ring.Length == length && pending == 0
      ensures fresh(ring) && fresh(buf) && fresh(headers)
    {
      this.cfg := cfg;
      ring := new TxRingEntry[length](_ => TxRingEntry({}, Driver, 0, 0, seq(SG_LENGTH, _ => SgElem(Linear(0), 0))));
      buf := new TxBuf[length](_ => TxBuf(None, 0, 0, false));
      headers := new HeaderSlot[length](_ => HeaderSlot([], [], TcpFields(0, false, false, 0)));
      cur, next, nic, pending, deferred := 0, 0, 0, 0, 0;
      stopped, txStopped, open := false, false, false;
    }

    // ----- opening -----

    /** The transmit part of vmxnet_init_ring. */
    method InitRing()
      requires Allocated()
      modifies this`cur, this`next, this`nic, this`txStopped, ring, buf
      ensures Initial(View()) && !txStopped
    {
      var i := 0;
      while i < ring.Length
        invariant 0 <= i <= ring.Length
        invariant forall k | 0 <= k < ring.Length :: ValidEntry(ring[k])
        invariant forall k | 0 <= k < i :: buf[k].skb == None && ring[k].ownership == Driver
        modifies ring, buf
      {
        ring[i] := ring[i].(ownership := Driver);
        buf[i] := buf[i].(skb := None, eop := false);
        i := i + 1;
      }
      cur, next, nic := 0, 0, 0;
      txStopped := false;
    }

    /** The transmit part of vmxnet_open. */
    method Open()
      requires Allocated() && pending == 0
      modifies this, ring, buf
      ensures Valid() && Opened(View()) && hist == History([], 0, 0) && base == dma == old(dma)
      ensures deferred == old(deferred)
    {
      hide CoreInv, DriverInv;
      InitRing();
      txStopped, stopped, open := false, false, true;
      freed, dropped, base, hist := [], [], dma, History([], 0, 0);
      OpenedHolds(cfg, View());
    }

    // ----- check_tx_queue and the interrupt -----

    /** One round of check_tx_queue. */
    method TakeBack()
      requires Allocated() && CanReap(View()) && ReleasesDefined(cfg, View())
      modifies this`cur, this`freed, this`dma, buf
      ensures View() == ReapOne(cfg, old(View()))
    {
      hide PinsOf, Releases;
      var b := buf[cur];
      if cfg.zeroCopy {
        var released := UnmapBuf(ring[cur], b);
        dma := dma - PinsOf(b.skb.value.id, released);
      }
      if b.eop {
        freed := freed + [b.skb.value.id];
      }
      buf[cur] := b.(skb := None);
      cur := Inc(cur, ring.Length);
    }

    /** The loop of check_tx_queue. */
    method TakeBackAll() returns (completed: nat)
      requires ValidConfig(cfg) && CoreInv(cfg, base, View(), hist)
      modifies this`cur, this`freed, this`dma, this`hist, buf
      ensures (View(), completed) == Reap(cfg, old(View()), ring.Length)
      ensures hist == old(hist).(reaped := old(hist.reaped) + completed)
    {
      hide CoreInv, Reaping, ReapOne, Reap;
      ghost var s := View();
      ReapingStarts(cfg, base, s, hist);
      completed := 0;
      while true
        invariant Reaping(cfg, base, s, old(hist), View(), hist, completed)
        decreases |hist.submitted| - hist.reaped
      {
        ReapingIsValid(cfg, base, s, old(hist), View(), hist, completed);
        if ring[cur].ownership != Driver || buf[cur].skb == None {
          break;
        }
        ReapingGoesOn(cfg, base, s, old(hist), View(), hist, completed);
        TakeBack();
        hist := hist.(reaped := hist.reaped + 1);
        completed := completed + 1;
      }
      ReapingStops(cfg, base, s, old(hist), View(), hist, completed);
    }

    method CheckTxQueue()
      requires ValidConfig(cfg) && CoreInv(cfg, base, View(), hist)
      modifies this`cur, this`freed, this`dma, this`pending, this`stopped, this`txStopped, this`hist, buf
      ensures View() == TxDriver.CheckTxQueue(cfg, old(View()))
      ensures hist == old(hist).(reaped := old(hist.reaped) + Completed(cfg, old(View())))
    {
      hide SlotOk, ValidFilled, EopIds, AllPins, Reap;
      var completed := TakeBackAll();
      if completed > 0 {
        pending := pending - completed;
        if stopped {
          stopped := false;
          txStopped := false;
        }
      }
    }

    /** The transmit part of vmxnet_interrupt. */
    method Interrupt()
      requires Valid() && open
      modifies this`cur, this`freed, this`dma, this`pending, this`stopped, this`txStopped, this`hist, buf
      ensures Valid() && View() == TxDriver.Interrupt(cfg, old(View()))
      ensures hist.submitted == old(hist.submitted)
    {
      hide SlotOk, ValidFilled, EopIds, AllPins, TxDriver.CheckTxQueue, Completed;
      ghost var h := InterruptKeeps(cfg, base, View(), hist);
      if pending > 0 {
        CheckTxQueue();
      }
      if stopped && !txStopped {
        stopped := false;
      }
    }

    // ----- filling ring entries -----

    /** Copies the headers into the next entry's slot, which becomes its first gather element. */
    method CopyHeaders(header: HeaderSlot)
      requires Allocated() && |header.raw| <= 0xFFFF
      modifies ring, headers
      ensures headers[..] == old(headers[..])[next := header]
      ensures ring[..] == old(ring[..])[next := WithHeader(old(ring[next]), Some(|header.raw|), next)]
    {
      headers[next] := header;
      var elem := SgElem(HeaderCopy(next), |header.raw|);
      OverwriteOne(ring[next].sg, 0, elem);
      ring[next] := ring[next].(sg := ring[next].sg[0 := elem], sgLength := 1);
    }

    /** Maps the packet from the context's position into the next entry and records it. */
    method MapNext(p: Skb, tmc: MapContext) returns (eop: bool)
      requires Allocated() && ring[next].sgLength <= 1 && ValidSkb(p) && Resumable(p, tmc.Pos())
      requires buf[next].skb == None
      modifies this`dma, ring, buf, tmc
      ensures var m := MapEntry(p, old(ring[next].sgLength), old(tmc.Pos()));
              && ring[..] == old(ring[..])[next := WithData(old(ring[next]), m.sg)]
              && buf[..] == old(buf[..])[next := TxBuf(Some(p), m.sgForLinear, m.firstSgForFrag, m.eop)]
              && dma == old(dma) + PinsOf(p.id, m.pins) && tmc.Pos() == m.pos && eop == m.eop
    {
      hide MapEntry, Overwrite, PinsOf;
      buf[next] := buf[next].(skb := Some(p));
      var pins;
      eop, pins := MapBuf(p, ring, buf, next, tmc);
      dma := dma + PinsOf(p.id, pins);
    }

    /** Gives the next entry, filled as `f` since state `s`, to the device. */
    method HandOver(ghost s: TxState, ghost f: Filled)
      requires Allocated() && ValidRing(s) && Fits(f)
      requires ring[next].(ownership := Nic) == FilledEntry(s.ring[s.next], f, s.next)
      requires ring[..] == s.ring[s.next := ring[next]] && buf[..] == s.buf[s.next := f.buf]
      requires headers[..] == if f.header.Some? then s.headers[s.next := f.header.value] else s.headers
      requires dma == s.dma + PinsOf(f.buf.skb.value.id, f.pins)
      requires View().(ring := s.ring, buf := s.buf, headers := s.headers, dma := s.dma, pending := s.pending) == s
      modifies this`next, ring
      ensures View() == Submit(s, f).(pending := pending)
    {
      hide FilledEntry, PinsOf;
      ring[next] := ring[next].(ownership := Nic);
      next := Inc(next, ring.Length);
    }

    /** Writes the flags of an entry for a whole packet, and counts it as pending. */
    method StartEntry(p: Skb, tso: bool) returns (low: bool)
      requires Allocated()
      modifies this`pending, ring
      ensures low == RingIsLow(old(View()), 1) && pending == old(pending) + 1
      ensures ring[..] == old(ring[..])[next := old(ring[next]).(flags := Flags(p, tso, low),
                                          tsoMss := if tso then p.tsoSize else old(ring[next]).tsoMss)]
    {
      var e := ring[next].(flags := if p.partialChecksum then {HwXsum, CanKeep} else {CanKeep});
      if tso {
        e := e.(flags := e.flags + {Tso}, tsoMss := p.tsoSize);
      }
      pending := pending + 1;
      low := pending > (ring.Length - 5) % 0x1_0000_0000;
      if low {
        e := e.(flags := e.flags + {RingLow});
      }
      assert e.flags == Flags(p, tso, low);
      ring[next] := e;
    }

    /** Writes the flags and the copied headers of an entry for a whole packet, and counts it as pending. */
    method StartSingle(p: Skb, ghost giant: bool) returns (low: bool)
      requires Allocated() && cfg.zeroCopy && ValidSkb(p) && HeaderSize(p.headers) <= |p.linear|
      modifies this`pending, ring, headers
      ensures low == RingIsLow(old(View()), 1) && pending == old(pending) + 1
      ensures var f := SingleEntry(cfg, p, giant, low);
              && ring[..] == old(ring[..])[next := WithHeader(Flagged(old(ring[next]), f), HeaderLength(f), next)]
              && headers[..] == if f.header.Some? then old(headers[..])[next := f.header.value] else old(headers[..])
    {
      hide MapEntry, Overwrite, Flags;
      low := StartEntry(p, p.tsoSize > 0);
      if cfg.copyHeaders {
        CopyHeaders(HeaderSlot(p.linear[..Min(HeaderSize(p.headers), cfg.pktMaxSize)], p.headers.ip, p.headers.tcp));
      } else {
        ring[next] := ring[next].(sgLength := 0);
      }
    }

    /** Puts a whole packet into the next entry; `giant` is what was decided about its linear part. */
    method PutSingle(p: Skb, giant: bool) returns (low: bool)
      requires Allocated() && cfg.zeroCopy && ValidSkb(p) && HeaderSize(p.headers) <= |p.linear|
      requires buf[next].skb == None && SingleEntry(cfg, p, giant, false).buf.eop
      modifies this`next, this`pending, this`dma, ring, buf, headers
      ensures low == RingIsLow(old(View()), 1) && Fits(SingleEntry(cfg, p, giant, low))
      ensures View() == Submit(old(View()), SingleEntry(cfg, p, giant, low)).(pending := old(pending) + 1)
    {
      hide MapEntry, Overwrite, PinsOf, ValidFilled, FilledEntry, Submit, Flags, Flagged, WithHeader, WithData;
      ghost var s := View();
      low := StartSingle(p, giant);
      ghost var f := SingleEntry(cfg, p, giant, low);
      assert Fits(f) by {
        SingleIsValid(cfg, p, giant, low);
        FitsIfValid(cfg, f);
      }
      EntryBuilt(s.ring[next], f, next);
      assert buf[next].skb == None;
      var offset := if cfg.copyHeaders then Min(HeaderSize(p.headers), cfg.pktMaxSize) else 0;
      var tmc := new MapContext(FRAG_LINEAR, giant, offset);
      var eop := MapNext(p, tmc);
      assert eop;
      HandOver(s, f);
    }

    /** The IP header checksum is patched for a new identifier and length instead of being recomputed. */
    method PatchIp(ip: seq<uint16>, newId: uint16, newLen: uint16) returns (r: seq<uint16>)
      requires |ip| >= 10
      ensures r == Rewritten(ip, newId, newLen)
    {
      var csum: uint32 := 0xFFFF - ip[CHECK];
      csum := csum + (0xFFFF - ip[ID]) + newId + (0xFFFF - ip[TOT_LEN]) + newLen;
      r := ip[ID := newId][TOT_LEN := newLen][CHECK := CsumFold(csum)];
    }

    /** Turns the copied headers of a mapped piece into its own and writes its flags; after the last
        piece the packet's entries count as pending. */
    method StampPiece(p: Skb, ghost k: nat, nextSeq: uint32, nextId: uint16, mappedLen: nat, eop: bool, txEntries: nat)
      returns (low: bool)
      requires Allocated() && Choppable(p) && k < |Pieces(p)| && headers[next].ip == p.headers.ip
      requires headers[next].raw == p.linear[..HeaderSize(p.headers)] && !headers[next].tcp.fin && !headers[next].tcp.psh
      requires mappedLen == Pieces(p)[k].pos.mappedLen && eop == Pieces(p)[k].eop
      requires nextSeq == SeqAt(p.headers, Pieces(p), k) && nextId == IdAt(cfg.le, p.headers, k)
      modifies this`pending, ring, headers
      ensures low == RingIsLow(old(View()), txEntries) && pending == old(pending) + if eop then txEntries else 0
      ensures headers[..] == old(headers[..])[next := HeaderAt(cfg.le, p, k)]
      ensures ring[..] == old(ring[..])[next := Flagged(old(ring[next]), PieceEntry(cfg, p, k, low))]
    {
      hide Chop, Rewritten, SeqAt, IdAt;
      ghost var f := PieceEntry(cfg, p, k, RingIsLow(View(), txEntries));
      var newLen := (mappedLen + TcpIpSize(p.headers)) % 0x1_0000;
      var ip := PatchIp(headers[next].ip, Htons(cfg.le, nextId), Htons(cfg.le, newLen));
      var seed := Seed(cfg.le, headers[next].ip, (mappedLen + 4 * p.headers.tcpWords) % 0x1_0000);
      headers[next] := headers[next].(ip := ip, tcp := headers[next].tcp.(seqNo := nextSeq, check := seed));
      var e := ring[next].(flags := {HwXsum, CanKeep});
      if p.tsoSize > 0 && mappedLen > p.tsoSize {
        e := e.(flags := e.flags + {Tso}, tsoMss := p.tsoSize);
      }
      low := pending + txEntries > (ring.Length - 5) % 0x1_0000_0000;
      if eop {
        headers[next] := headers[next].(tcp := headers[next].tcp.(fin := p.headers.tcp.fin, psh := p.headers.tcp.psh));
        pending := pending + txEntries;
        if low {
          e := e.(flags := e.flags + {RingLow});
        }
      }
      assert e == Flagged(ring[next], f);
      ring[next] := e;
    }

    /** Copies the headers for a piece and maps its data. */
    method MapPiece(p: Skb, tmc: MapContext) returns (eop: bool)
      requires Allocated() && Choppable(p) && Resumable(p, tmc.Pos())
      requires buf[next].skb == None
      modifies this`dma, ring, buf, headers, tmc
      ensures var m := MapEntry(p, 1, old(tmc.Pos()));
              && ring[..] == old(ring[..])[next := WithData(WithHeader(old(ring[next]), Some(HeaderSize(p.headers)), next), m.sg)]
              && buf[..] == old(buf[..])[next := TxBuf(Some(p), m.sgForLinear, m.firstSgForFrag, m.eop)]
              && dma == old(dma) + PinsOf(p.id, m.pins) && tmc.Pos() == m.pos && eop == m.eop
      ensures headers[..] == old(headers[..])[next := HeaderSlot(p.linear[..HeaderSize(p.headers)], p.headers.ip,
                                                                 p.headers.tcp.(fin := false, psh := false))]
    {
      hide MapEntry, Overwrite, PinsOf;
      var h := p.headers;
      CopyHeaders(HeaderSlot(p.linear[..HeaderSize(h)], h.ip, h.tcp.(fin := false, psh := false)));
      eop := MapNext(p, tmc);
    }

    /** Fills the next entry with the k-th piece of a packet, without handing it over. */
    method FillPiece(p: Skb, tmc: MapContext, ghost k: nat, nextSeq: uint32, nextId: uint16, txEntries: nat)
      returns (eop: bool, low: bool)
      requires Allocated() && Choppable(p) && k < |Pieces(p)| && buf[next].skb == None
      requires Resumable(p, tmc.Pos()) && MapEntry(p, 1, tmc.Pos()) == Pieces(p)[k]
      requires nextSeq == SeqAt(p.headers, Pieces(p), k) && nextId == IdAt(cfg.le, p.headers, k)
      modifies this`pending, this`dma, ring, buf, headers, tmc
      ensures tmc.Pos() == Pieces(p)[k].pos && eop == Pieces(p)[k].eop && low == RingIsLow(old(View()), txEntries)
      ensures pending == old(pending) + if eop then txEntries else 0
      ensures var f := PieceEntry(cfg, p, k, low);
              && ring[..] == old(ring[..])[next :=
                   Flagged(WithData(WithHeader(old(ring[next]), Some(HeaderSize(p.headers)), next), f.data), f)]
              && buf[..] == old(buf[..])[next := f.buf] && headers[..] == old(headers[..])[next := f.header.value]
              && dma == old(dma) + PinsOf(p.id, f.pins)
    {
      hide Chop, MapEntry, Overwrite, PinsOf, HeaderAt, SeqAt, IdAt, WithHeader, WithData, Flagged;
      eop := MapPiece(p, tmc);
      low := StampPiece(p, k, nextSeq, nextId, tmc.mappedLen, eop, txEntries);
    }

    /** Puts the k-th piece of a packet into the next entry. */
    method PutPiece(p: Skb, tmc: MapContext, ghost k: nat, nextSeq: uint32, nextId: uint16, txEntries: nat)
      returns (eop: bool, low: bool)
      requires Allocated() && cfg.zeroCopy && Choppable(p) && k < |Pieces(p)| && buf[next].skb == None
      requires Resumable(p, tmc.Pos()) && MapEntry(p, 1, tmc.Pos()) == Pieces(p)[k]
      requires nextSeq == SeqAt(p.headers, Pieces(p), k) && nextId == IdAt(cfg.le, p.headers, k)
      modifies this`next, this`pending, this`dma, ring, buf, headers, tmc
      ensures tmc.Pos() == Pieces(p)[k].pos && eop == Pieces(p)[k].eop && low == RingIsLow(old(View()), txEntries)
      ensures Fits(PieceEntry(cfg, p, k, low))
      ensures View() == Submit(old(View()), PieceEntry(cfg, p, k, low)).(pending := pending)
      ensures pending == old(pending) + if eop then txEntries else 0
    {
      hide Chop, MapEntry, Overwrite, PinsOf, ValidFilled, FilledEntry, Submit, SeqAt, IdAt, Releases, PieceEntry;
      hide WithHeader, WithData, Flagged, RingIsLow;
      ghost var s := View();
      eop, low := FillPiece(p, tmc, k, nextSeq, nextId, txEntries);
      ghost var f := PieceEntry(cfg, p, k, low);
      assert Fits(f) by {
        PieceIsValid(cfg, p, k, low);
        FitsIfValid(cfg, f);
      }
      PieceParts(cfg, p, k, low);
      EntryBuilt(s.ring[next], f, next);
      HandOver(s, f);
    }

    /** The loop that chops a packet over several entries; no slot it fills is occupied. */
    method PutPieces(p: Skb) returns (low: bool)
      requires ValidConfig(cfg) && CoreInv(cfg, base, View(), hist) && cfg.zeroCopy && Choppable(p)
      requires InFlight(hist) + |Pieces(p)| <= ring.Length
      modifies this`next, this`pending, this`dma, ring, buf, headers
      ensures low == RingIsLow(old(View()), |Pieces(p)|) && AllFit(PieceEntries(cfg, p, low))
      ensures View() == SubmitAll(old(View()), PieceEntries(cfg, p, low)).(pending := old(pending) + |Pieces(p)|)
    {
      hide Chop, MapEntry, SlotOk, ValidFilled, EopIds, AllPins, Submit, SubmitAll, PieceEntry, PieceEntries;
      hide SeqAt, IdAt, Htons, Chopping, Fits;
      ghost var s := View();
      var nextSeq: int, nextId: int := p.headers.tcp.seqNo, Htons(cfg.le, p.headers.ip[ID]);
      var txEntries := 0;
      var tmc := new MapContext(FRAG_LINEAR, |p.linear| - HeaderSize(p.headers) > MAX_LINEAR, HeaderSize(p.headers));
      ChoppingStarts(cfg, s, p, nextSeq, nextId);
      low := false;
      var eop := false;
      while !eop
        invariant Chopping(cfg, s, p, View(), tmc.Pos(), nextSeq, nextId, txEntries, eop)
        invariant eop ==> low == RingIsLow(s, |Pieces(p)|)
        decreases |Pieces(p)| - txEntries, !eop
      {
        ghost var t, pos, k := View(), tmc.Pos(), txEntries;
        NextSlotFree(cfg, base, s, hist, p, t, pos, nextSeq, nextId, k);
        txEntries := txEntries + 1;
        eop, low := PutPiece(p, tmc, k, nextSeq, nextId, txEntries);
        ChoppingGoesOn(cfg, s, p, t, pos, nextSeq, nextId, k, low);
        nextSeq, nextId := (nextSeq + tmc.mappedLen) % 0x1_0000_0000, (nextId + 1) % 0x1_0000;
      }
      ChoppingStops(cfg, s, p, View(), tmc.Pos(), nextSeq, nextId, txEntries);
    }

    /** Puts a packet into the next entry of an adapter without zero copy. */
    method PutCopied(p: Skb) returns (low: bool)
      requires Allocated() && |p.linear| <= 0xFFFF
      modifies this`next, this`pending, ring, buf
      ensures low == RingIsLow(old(View()), 1)
      ensures View() == Submit(old(View()), CopiedEntry(p, low)).(pending := old(pending) + 1)
    {
      hide Overwrite, FilledEntry, Submit, SgAt, Flags, Flagged;
      ghost var s := View();
      low := StartEntry(p, false);
      ghost var f := CopiedEntry(p, low);
      CopiedBuilt(s.ring[next], f, next);
      ring[next] := ring[next].(sgLength := 1, sg := ring[next].sg[0 := SgElem(Linear(0), |p.linear|)]);
      buf[next] := TxBuf(Some(p), 0, -1, true);
      HandOver(s, f);
    }

    /** The availability scan. */
    method HasRoom(txEntries: nat) returns (ok: bool)
      requires Allocated() && txEntries <= ring.Length
      ensures ok == Available(View(), txEntries)
    {
      var i, idx := 0, next;
      while i < txEntries
        invariant 0 <= i <= txEntries
        invariant i < ring.Length ==> idx == Ahead(next, i, ring.Length)
        invariant forall j | 0 <= j < i :: buf[Ahead(next, j, ring.Length)].skb == None
      {
        if buf[idx].skb != None {
          return false;
        }
        idx := Inc(idx, ring.Length);
        i := i + 1;
      }
      return true;
    }

    /** Puts a packet into one entry, as it is or linearized. */
    method PutWhole(p: Skb, q: Skb) returns (low: bool)
      requires Valid() && open && Transmittable(cfg, ring.Length, p) && Available(View(), Reserved(cfg, p))
      requires PlanFor(cfg, p, true) == OneEntry(q)
      modifies this`next, this`pending, this`dma, ring, buf, headers
      ensures low == RingIsLow(old(View()), EntryCount(cfg, p))
      ensures var es := Entries(cfg, p, PlanFor(cfg, p, true), low);
              AllFit(es) && View() == SubmitAll(old(View()), es).(pending := old(pending) + |es|)
    {
      hide SlotOk, ValidFilled, EopIds, AllPins, Submit, SubmitAll, SingleEntry, Entries, Available;
      hide Chop, RingIsLow, Flags;
      PlanIsPossible(cfg, base, View(), hist, p);
      low := PutSingle(q, |p.linear| - HeaderSize(p.headers) > MAX_LINEAR);
    }

    /** Puts a packet on the ring, in the way its headers and size call for. */
    method PutPacket(p: Skb, linearizeOk: bool) returns (sent: bool, low: bool)
      requires Valid() && open && Transmittable(cfg, ring.Length, p) && Available(View(), Reserved(cfg, p))
      modifies this`next, this`pending, this`dma, this`dropped, ring, buf, headers
      ensures sent <==> !PlanFor(cfg, p, linearizeOk).Dropped?
      ensures sent ==> low == RingIsLow(old(View()), EntryCount(cfg, p))
      ensures !sent ==> View() == old(View()).(dropped := old(dropped) + [p.id])
      ensures sent ==>
                var es := Entries(cfg, p, PlanFor(cfg, p, true), low);
                AllFit(es) && View() == SubmitAll(old(View()), es).(pending := old(pending) + |es|)
    {
      hide SlotOk, ValidFilled, EopIds, AllPins, Submit, SubmitAll, SingleEntry, CopiedEntry, PieceEntries, Available;
      hide Chop, RingIsLow, Flags;
      sent := true;
      if !cfg.zeroCopy {
        PlanIsPossible(cfg, base, View(), hist, p);
        low := PutCopied(p);
      } else if TxEntries(p, HeaderSize(p.headers), cfg.copyHeaders) == 1 {
        low := PutWhole(p, p);
      } else if !p.headers.kind.Tcp? || !cfg.copyHeaders || HeaderSize(p.headers) > cfg.pktMaxSize {
        if !linearizeOk {
          dropped := dropped + [p.id];
          return false, false;
        }
        low := PutWhole(p, Linearized(p));
      } else {
        PlanIsPossible(cfg, base, View(), hist, p);
        low := PutPieces(p);
      }
    }

    /** The driver has no room: the queue stops, unless something completed in the meantime. */
    method Refuse(ghost p: Skb)
      requires Valid() && open && Transmittable(cfg, ring.Length, p) && !Available(View(), Reserved(cfg, p))
      modifies this`cur, this`freed, this`dma, this`pending, this`stopped, this`txStopped, this`hist, buf
      ensures Valid() && View() == TxDriver.CheckTxQueue(cfg, old(View()).(txStopped := true, stopped := true))
      ensures hist.submitted == old(hist.submitted)
    {
      hide SlotOk, ValidFilled, EopIds, AllPins, TxDriver.CheckTxQueue, Completed, Transmittable, Available;
      ghost var h := RefusingKeeps(cfg, base, View(), hist, p);
      txStopped, stopped := true, true;
      CheckTxQueue();
    }

    /** How many segments the packet counts for. */
    method CountSegments(p: Skb) returns (n: nat)
      requires HeaderSize(p.headers) <= |p.linear|
      ensures n == Segments(cfg, p, PlanFor(cfg, p, true))
    {
      if cfg.zeroCopy && p.tsoSize > 0 {
        var headerSize := HeaderSize(p.headers);
        if PlanFor(cfg, p, true).OneEntry? && headerSize > cfg.pktMaxSize {
          headerSize := cfg.pktMaxSize;
        }
        n := (|Bytes(p)| - headerSize + p.tsoSize - 1) / p.tsoSize;
      } else {
        n := 1;
      }
    }

    /** Counts a packet whose entries were put on the ring, in state `s` before that. */
    method CountPacket(p: Skb, low: bool, ghost s: TxState, ghost es: seq<Filled>) returns (status: TxStatus)
      requires ValidRing(s) && AllFit(es) && |s.ring| == ring.Length && low == RingIsLow(s, |es|) && deferred == s.deferred
      requires HeaderSize(p.headers) <= |p.linear|
      requires View() == SubmitAll(s, es).(pending := s.pending + |es|)
      modifies this`deferred
      ensures (View(), status) == SubmitPacket(cfg, s, p, PlanFor(cfg, p, true), es)
    {
      hide SubmitAll, Segments, PlanFor;
      status := if low then CallTransmit else DeferTransmit;
      var segments := CountSegments(p);
      deferred := (deferred + segments) % 0x1_0000_0000;
      if deferred >= cfg.clusterLength {
        deferred := 0;
        status := CallTransmit;
      }
    }

    /** What vmxnet_tx does after the packet was put on the ring, in state `s` before that. */
    method FinishTx(p: Skb, low: bool, ghost s: TxState, ghost es: seq<Filled>) returns (status: TxStatus)
      requires ValidConfig(cfg) && DriverInv(cfg, base, s, hist) && s.open && ValidRing(s) && ring.Length == |s.ring|
      requires Transmittable(cfg, ring.Length, p) && Available(s, Reserved(cfg, p))
      requires low == RingIsLow(s, EntryCount(cfg, p)) && !PlanFor(cfg, p, true).Dropped?
      requires es == Entries(cfg, p, PlanFor(cfg, p, true), low) && AllFit(es)
      requires View() == SubmitAll(s, es).(pending := s.pending + |es|)
      modifies this, buf
      ensures base == old(base) && Valid() && hist.submitted == old(hist.submitted) + es
      ensures var (t, st) := SubmitPacket(cfg, s, p, PlanFor(cfg, p, true), es);
              View() == TxDriver.CheckTxQueue(cfg, t) && status == st
    {
      hide SlotOk, ValidFilled, EopIds, AllPins, TxDriver.CheckTxQueue, Completed, Entries, Available, SubmitPacket;
      hide SubmitAll, DriverInv, CoreInv, RingIsLow, Segments;
      EntriesAreValid(cfg, p, ring.Length, low);
      ghost var h := SentKeeps(cfg, base, s, hist, p);
      SubmitAllFrame(s, es);
      status := CountPacket(p, low, s, es);
      hist := hist.(submitted := hist.submitted + es);
      CheckTxQueue();
    }

    /** vmxnet_tx */
    method Tx(p: Skb, linearizeOk: bool) returns (status: TxStatus)
      requires Valid() && open && Transmittable(cfg, ring.Length, p)
      modifies this, ring, buf, headers
      ensures Valid()
      ensures (View(), status) == Transmit(cfg, old(View()), p, linearizeOk)
      ensures hist.submitted == old(hist.submitted) + SentEntries(cfg, old(View()), p, linearizeOk)
      ensures status == StopTransmit <==> FateOf(cfg, old(View()), p, linearizeOk).Refused?
      ensures base == old(base)
    {
      hide CoreInv, DriverInv, TxDriver.CheckTxQueue, SubmitPacket, SubmitAll, Entries, Available, RingIsLow;
      ghost var s := View();
      ClosingKeeps(cfg, base, s, hist);
      EntriesAreValid(cfg, p, ring.Length, RingIsLow(s, EntryCount(cfg, p)));
      assert hist.submitted + [] == hist.submitted;
      var room := HasRoom(Reserved(cfg, p));
      if !room {
        Refuse(p);
        return StopTransmit;
      }
      var sent, low := PutPacket(p, linearizeOk);
      if sent {
        status := FinishTx(p, low, s, Entries(cfg, p, PlanFor(cfg, p, true), low));
      } else {
        assert Valid() by { DroppingKeeps(cfg, base, s, hist, p.id); }
        status := DeferTransmit;
      }
    }

    // ----- the device -----

    /** Vmxnet2_GetNextTx */
    method GetNextTx() returns (entry: Option<TxRingEntry>)
      requires Valid()
      ensures entry.Some? <==> hist.fetched < |hist.submitted|
      ensures entry.Some? ==> entry.value == ring[nic] && Holds(View(), nic, hist.submitted[hist.fetched])
    {
      hide SlotOk, ValidFilled, EopIds, AllPins;
      FetchSeesNext(View(), hist);
      entry := if ring[nic].ownership == Nic then Some(ring[nic]) else None;
    }

    /** Vmxnet2_IncNextTx, called after an entry was found. */
    method IncNextTx() returns (prev: nat)
      requires Valid() && ring[nic].ownership == Nic
      modifies this`nic, this`hist, ring
      ensures Valid() && View() == Fetch(old(View())) && prev == old(nic)
      ensures hist == old(hist).(fetched := old(hist.fetched) + 1)
    {
      hide SlotOk, ValidFilled, EopIds, AllPins;
      FetchKeeps(View(), hist);
      prev := nic;
      ring[nic] := ring[nic].(ownership := NicPending);
      nic := Inc(nic, ring.Length);
      hist := hist.(fetched := hist.fetched + 1);
    }

    /** The device hands an entry back. */
    method ReturnTx(slot: nat)
      requires Valid() && slot < ring.Length && ring[slot].ownership == NicPending
      modifies ring
      ensures Valid() && View() == Return(old(View()), slot)
    {
      hide SlotOk, ValidFilled, EopIds, AllPins;
      ReturnKeeps(View(), hist, slot);
      ring[slot] := ring[slot].(ownership := Driver);
    }

    // ----- closing -----

    /** What the device does while the driver waits; a closed device takes no packets or interrupts. */
    method Wait(events: seq<Event>)
      requires Valid() && !open
      modifies this`nic, this`hist, ring
      ensures Valid() && View() == Run(cfg, old(View()), events) && hist.submitted == old(hist.submitted)
    {
      hide SlotOk, ValidFilled, EopIds, AllPins, Step;
      ghost var s := View();
      assert events[..0] == [];
      for i := 0 to |events|
        invariant Valid() && !open && View() == Run(cfg, s, events[..i]) && hist.submitted == old(hist.submitted)
      {
        DeviceEvent(events[i]);
        assert events[..i + 1][..i] == events[..i];
      }
      assert events[..|events|] == events;
    }

    method DeviceEvent(e: Event)
      requires Valid() && !open
      modifies this`nic, this`hist, ring
      ensures Valid() && View() == Step(cfg, old(View()), e) && hist.submitted == old(hist.submitted)
    {
      hide SlotOk, ValidFilled, EopIds, AllPins, Transmit, Transmittable;
      match e {
        case DevFetch =>
          if ring[nic].ownership == Nic {
            var prev := IncNextTx();
          }
        case DevReturn(slot) =>
          if slot < ring.Length && ring[slot].ownership == NicPending {
            ReturnTx(slot);
          }
        case Xmit(_, _) =>
        case Intr =>
      }
    }

    method PollOnce(events: seq<Event>)
      requires Valid() && !open
      modifies this`nic, this`hist, this`cur, this`freed, this`dma, this`pending, this`stopped, this`txStopped, ring, buf
      ensures Valid() && View() == TxDriver.CheckTxQueue(cfg, Run(cfg, old(View()), events))
    {
      hide SlotOk, ValidFilled, EopIds, AllPins, Run, TxDriver.CheckTxQueue, Completed;
      Wait(events);
      ghost var h := CheckKeeps(cfg, base, View(), hist);
      CheckTxQueue();
    }

    /** Waits at most as often as `waits` says for the pending entries to be handed back. */
    method AwaitPending(waits: seq<seq<Event>>)
      requires Valid() && ValidRing(View()) && !open
      modifies this`nic, this`hist, this`cur, this`freed, this`dma, this`pending, this`stopped, this`txStopped, ring, buf
      ensures Valid() && ValidRing(View()) && View() == Polls(cfg, old(View()), waits)
    {
      hide CoreInv, DriverInv, Polls, Run, TxDriver.CheckTxQueue;
      ghost var s := View();
      var i := 0;
      assert waits[0..] == waits;
      while i < |waits| && pending > 0
        invariant 0 <= i <= |waits| && Valid() && !open
        invariant ValidRing(s) && ValidRing(View())
        invariant Polls(cfg, s, waits) == Polls(cfg, View(), waits[i..])
      {
        PollsNext(cfg, View(), waits, i);
        PollOnce(waits[i]);
        i := i + 1;
      }
      PollsStop(cfg, View(), waits, i);
    }

    /** Frees the packets that are still in the ring. */
    method FlushRing()
      requires Allocated()
      modifies this`freed, buf
      ensures View() == Flush(old(View()))
    {
      ghost var s := View();
      var i := 0;
      while i < ring.Length
        invariant 0 <= i <= ring.Length
        invariant freed == s.freed + SlotIds(s.buf, 0, i)
        invariant forall k | 0 <= k < buf.Length ::
                    buf[k] == if k < i && EndsPacket(s.buf[k]) then s.buf[k].(skb := None) else s.buf[k]
      {
        if buf[i].skb.Some? && buf[i].eop {
          freed := freed + [buf[i].skb.value.id];
          buf[i] := buf[i].(skb := None);
        }
        i := i + 1;
      }
    }

    /** Waits, gives up on entries that are still pending, and frees their packets. */
    method AwaitAndFlush(waits: seq<seq<Event>>)
      requires Valid() && ValidRing(View()) && !open
      modifies this`nic, this`hist, this`cur, this`freed, this`dma, this`pending, this`stopped, this`txStopped, ring, buf
      ensures var t := Polls(cfg, old(View()), waits);
              View() == Flush(if t.pending > 0 then t.(pending := 0) else t)
    {
      hide CoreInv, DriverInv, Polls, Flush;
      AwaitPending(waits);
      if pending > 0 {
        pending := 0;
      }
      FlushRing();
    }

    /** The transmit part of vmxnet_close. Every packet sent since the device was opened has then been
        given back exactly once, and the device can be opened again. */
    method Close(waits: seq<seq<Event>>)
      requires Valid() && |waits| == CLOSE_POLLS
      modifies this, ring, buf
      ensures View() == TxClose.Close(cfg, old(View()), waits)
      ensures Allocated() && pending == 0 && multiset(freed) == multiset(EopIds(old(hist.submitted)))
    {
      hide CoreInv, DriverInv, EopIds, Polls, Flush, TxClose.Close;
      ghost var s := View();
      ClosingKeeps(cfg, base, s, hist);
      ghost var h := CloseReleases(cfg, base, s, hist, waits);
      CloseIs(cfg, s, waits);
      stopped, open := true, false;
      AwaitAndFlush(waits);
    }
  }

  lemma ClosingKeeps(cfg: Config, base: multiset<Pin>, s: TxState, h: History)
    requires DriverInv(cfg, base, s, h)
    ensures ValidRing(s) && DriverInv(cfg, base, s.(stopped := true, open := false), h)
  {
    hide SlotOk, ValidFilled, EopIds, AllPins;
    SameRing(s, s.(stopped := true, open := false), h);
  }

  lemma PollsNext(cfg: Config, s: TxState, waits: seq<seq<Event>>, i: nat)
    requires ValidConfig(cfg) && ValidRing(s) && i < |waits| && s.pending > 0
    ensures Polls(cfg, s, waits[i..]) == Polls(cfg, TxDriver.CheckTxQueue(cfg, Run(cfg, s, waits[i])), waits[i + 1..])
  {
    hide Run, TxDriver.CheckTxQueue;
    assert waits[i..][0] == waits[i] && waits[i..][1..] == waits[i + 1..];
  }

  lemma PollsStop(cfg: Config, s: TxState, waits: seq<seq<Event>>, i: nat)
    requires ValidConfig(cfg) && ValidRing(s) && i <= |waits| && (i == |waits| || s.pending <= 0)
    ensures Polls(cfg, s, waits[i..]) == s
  {
  }

  lemma CloseIs(cfg: Config, s: TxState, waits: seq<seq<Event>>)
    requires ValidConfig(cfg) && ValidRing(s) && |waits| == CLOSE_POLLS
    ensures var t := Polls(cfg, s.(stopped := true, open := false), waits);
            TxClose.Close(cfg, s, waits) == Flush(if t.pending > 0 then t.(pending := 0) else t)
  {
  }

  // ----- building an entry -----

  /** An entry after its flags and segment size were written. */
  function Flagged(e: TxRingEntry, f: Filled): TxRingEntry {
    e.(flags := f.flags, tsoMss := if f.tsoMss.Some? then f.tsoMss.value else e.tsoMss)
  }

  function HeaderLength(f: Filled): Option<nat> {
    if f.header.Some? then Some(|f.header.value.raw|) else None
  }

  /** An entry after its header element, if any, was written. */
  function WithHeader(e: TxRingEntry, length: Option<nat>, slot: nat): (r: TxRingEntry)
    requires ValidEntry(e) && (length.Some? ==> length.value <= 0xFFFF)
    ensures ValidEntry(r) && r.sgLength == if length.Some? then 1 else 0
  {
    match length
    case None => e.(sgLength := 0)
    case Some(n) => e.(sg := Overwrite(e.sg, 0, [SgElem(HeaderCopy(slot), n)]), sgLength := 1)
  }

  /** An entry after more elements were appended. */
  function WithData(e: TxRingEntry, data: seq<SgElem>): (r: TxRingEntry)
    requires ValidEntry(e) && e.sgLength + |data| <= SG_LENGTH
    ensures ValidEntry(r)
  {
    WithSg(e, data).(sgLength := e.sgLength + |data|)
  }

  lemma EntryBuilt(e: TxRingEntry, f: Filled, slot: nat)
    requires ValidEntry(e) && Fits(f)
    ensures |f.data| + WithHeader(Flagged(e, f), HeaderLength(f), slot).sgLength <= SG_LENGTH
    ensures WithData(WithHeader(Flagged(e, f), HeaderLength(f), slot), f.data).(ownership := Nic) == FilledEntry(e, f, slot)
    ensures Flagged(WithData(WithHeader(e, HeaderLength(f), slot), f.data), f).(ownership := Nic) == FilledEntry(e, f, slot)
  {
    if f.header.Some? {
      OverwriteTwice(e.sg, 0, [SgElem(HeaderCopy(slot), |f.header.value.raw|)], f.data);
    } else {
      assert [] + f.data == f.data;
    }
  }

  lemma PieceParts(cfg: Config, p: Skb, k: nat, low: bool)
    requires Choppable(p) && k < |Pieces(p)|
    ensures var f := PieceEntry(cfg, p, k, low);
            HeaderLength(f) == Some(HeaderSize(p.headers)) && f.buf.skb == Some(p)
  {
  }

  lemma CopiedBuilt(e: TxRingEntry, f: Filled, slot: nat)
    requires ValidEntry(e) && Fits(f) && f.header == None && f.tsoMss == None && |f.data| == 1
    ensures e.(flags := f.flags, sgLength := 1, sg := e.sg[0 := f.data[0]], ownership := Nic) == FilledEntry(e, f, slot)
  {
    OverwriteOne(e.sg, 0, f.data[0]);
    assert SgAt(f, slot) == [f.data[0]];
  }

  /** What the three ways of putting a packet on the ring need, from what the availability scan found,
      and what they amount to. */
  lemma PlanIsPossible(cfg: Config, base: multiset<Pin>, s: TxState, h: History, p: Skb)
    requires ValidConfig(cfg) && DriverInv(cfg, base, s, h) && Transmittable(cfg, |s.ring|, p)
    requires Available(s, Reserved(cfg, p))
    ensures InFlight(h) + Reserved(cfg, p) <= |s.ring| && s.buf[s.next].skb == None
    ensures match PlanFor(cfg, p, true)
            case Copied => forall low :: Amounts(cfg, s, p, low, CopiedEntry(p, low))
            case OneEntry(q) =>
              var giant := StartPos(p, HeaderSize(p.headers)).giantLinear;
              && ValidSkb(q) && HeaderSize(q.headers) <= |q.linear| && SingleEntry(cfg, q, giant, false).buf.eop
              && forall low :: Amounts(cfg, s, p, low, SingleEntry(cfg, q, giant, low))
            case Chopped => Choppable(p) && |Pieces(p)| <= Reserved(cfg, p)
            case Dropped => false
  {
    hide SlotOk, ValidFilled, EopIds, AllPins, Available, Chop, Submit, SubmitAll;
    EntriesAreValid(cfg, p, |s.ring|, false);
    AvailableExactly(s, h, Reserved(cfg, p));
    FreeSlotMeansRoom(s, h);
    if !PlanFor(cfg, p, true).Chopped? {
      forall low ensures Amounts(cfg, s, p, low, Entries(cfg, p, PlanFor(cfg, p, true), low)[0]) {
        EntriesAreValid(cfg, p, |s.ring|, low);
        SubmitSingle(s, Entries(cfg, p, PlanFor(cfg, p, true), low)[0]);
      }
      assert Entries(cfg, p, PlanFor(cfg, p, true), false)[0].buf.eop;
    }
  }

  /** Submitting the entries of a packet amounts to submitting f. */
  predicate Amounts(cfg: Config, s: TxState, p: Skb, low: bool, f: Filled)
    requires ValidConfig(cfg) && ValidRing(s) && Transmittable(cfg, |s.ring|, p)
  {
    var es := Entries(cfg, p, PlanFor(cfg, p, true), low);
    && |es| == 1 && AllFit(es) && Fits(f) && SubmitAll(s, es) == Submit(s, f) && EntryCount(cfg, p) == 1
  }

  lemma SubmitSingle(s: TxState, f: Filled)
    requires ValidRing(s) && Fits(f)
    ensures AllFit([f]) && SubmitAll(s, [f]) == Submit(s, f)
  {
    assert [f][..0] == [] && SubmitAll(s, []) == s;
  }

  lemma RefusingKeeps(cfg: Config, base: multiset<Pin>, s: TxState, h: History, p: Skb) returns (h': History)
    requires DriverInv(cfg, base, s, h) && Transmittable(cfg, |s.ring|, p) && !Available(s, Reserved(cfg, p))
    requires ValidConfig(cfg) && s.open
    ensures var t := s.(txStopped := true, stopped := true);
            && CoreInv(cfg, base, t, h) && h' == h.(reaped := h.reaped + Completed(cfg, t)) && ValidHistory(h')
            && DriverInv(cfg, base, TxDriver.CheckTxQueue(cfg, t), h')
  {
    hide SlotOk, ValidFilled, EopIds, AllPins, TxDriver.CheckTxQueue, Completed, Available;
    var t := s.(txStopped := true, stopped := true);
    EntriesAreValid(cfg, p, |s.ring|, false);
    AvailableExactly(s, h, Reserved(cfg, p));
    SameRing(s, t, h);
    h' := CheckKeeps(cfg, base, t, h);
  }

  lemma DroppingKeeps(cfg: Config, base: multiset<Pin>, s: TxState, h: History, id: nat)
    requires DriverInv(cfg, base, s, h)
    ensures DriverInv(cfg, base, s.(dropped := s.dropped + [id]), h)
  {
    hide SlotOk, ValidFilled, EopIds, AllPins;
    SameRing(s, s.(dropped := s.dropped + [id]), h);
  }

  // ----- the loop that chops a packet -----

  lemma PiecesAreValid(cfg: Config, p: Skb, low: bool)
    requires cfg.zeroCopy && Choppable(p)
    ensures AllValid(cfg, PieceEntries(cfg, p, low))
  {
    hide Chop, ValidFilled;
    forall k | 0 <= k < |Pieces(p)|
      ensures Fits(PieceEntries(cfg, p, low)[k]) && ValidFilled(cfg, PieceEntries(cfg, p, low)[k])
    {
      PieceIsValid(cfg, p, k, low);
      FitsIfValid(cfg, PieceEntry(cfg, p, k, low));
    }
  }

  /** From s, the first k pieces have been submitted. */
  ghost predicate SubmittedUpTo(cfg: Config, s: TxState, p: Skb, t: TxState, k: nat)
    requires ValidRing(s) && Choppable(p)
  {
    var es := PieceEntries(cfg, p, RingIsLow(s, |Pieces(p)|));
    && k <= |es| && AllFit(es) && AllFit(es[..k])
    && t == SubmitAll(s, es[..k]).(pending := s.pending + if k == |es| then k else 0)
  }

  /** The map context and the counters are those of the k-th piece. */
  predicate ReadyFor(cfg: Config, p: Skb, pos: MapPos, nextSeq: int, nextId: int, k: nat)
    requires Choppable(p)
  {
    && k < |Pieces(p)| && Resumable(p, pos) && Chop(p, pos) == Pieces(p)[k..]
    && nextSeq == SeqAt(p.headers, Pieces(p), k) && nextId == IdAt(cfg.le, p.headers, k)
  }

  ghost predicate Chopping(cfg: Config, s: TxState, p: Skb, t: TxState, pos: MapPos, nextSeq: int, nextId: int,
                           k: nat, done: bool) {
    && ValidRing(s) && cfg.zeroCopy && Choppable(p) && (done <==> k == |Pieces(p)|)
    && SubmittedUpTo(cfg, s, p, t, k) && (!done ==> ReadyFor(cfg, p, pos, nextSeq, nextId, k))
  }

  lemma ChoppingStarts(cfg: Config, s: TxState, p: Skb, nextSeq: int, nextId: int)
    requires ValidRing(s) && cfg.zeroCopy && Choppable(p)
    requires nextSeq == p.headers.tcp.seqNo && nextId == Htons(cfg.le, p.headers.ip[ID])
    ensures Chopping(cfg, s, p, s, StartPos(p, HeaderSize(p.headers)), nextSeq, nextId, 0, false)
  {
    hide Chop, ValidFilled;
    PiecesAreValid(cfg, p, RingIsLow(s, |Pieces(p)|));
  }

  lemma ChoppingStops(cfg: Config, s: TxState, p: Skb, t: TxState, pos: MapPos, nextSeq: int, nextId: int, k: nat)
    requires Chopping(cfg, s, p, t, pos, nextSeq, nextId, k, true)
    ensures var es := PieceEntries(cfg, p, RingIsLow(s, |Pieces(p)|));
            AllFit(es) && t == SubmitAll(s, es).(pending := s.pending + |Pieces(p)|)
  {
    hide Chop;
    var es := PieceEntries(cfg, p, RingIsLow(s, |Pieces(p)|));
    assert es[..|es|] == es;
  }

  /** The next slot is free and the next piece is what the mapper produces next. */
  lemma NextSlotFree(cfg: Config, base: multiset<Pin>, s: TxState, h: History, p: Skb, t: TxState, pos: MapPos,
                     nextSeq: int, nextId: int, k: nat)
    requires Chopping(cfg, s, p, t, pos, nextSeq, nextId, k, false)
    requires CoreInv(cfg, base, s, h) && InFlight(h) + |Pieces(p)| <= |s.ring|
    ensures ValidRing(t) && t.buf[t.next].skb == None && k < |Pieces(p)|
    ensures Resumable(p, pos) && MapEntry(p, 1, pos) == Pieces(p)[k] && (Pieces(p)[k].eop <==> k + 1 == |Pieces(p)|)
    ensures nextSeq == SeqAt(p.headers, Pieces(p), k) && nextId == IdAt(cfg.le, p.headers, k)
    ensures t.pending == s.pending
  {
    hide SlotOk, ValidFilled, EopIds, AllPins, SubmitAll, Chop, SeqAt, IdAt;
    var es := PieceEntries(cfg, p, RingIsLow(s, |Pieces(p)|));
    PiecesAreValid(cfg, p, RingIsLow(s, |Pieces(p)|));
    SubmitAllKeeps(cfg, base, s, h, es[..k]);
    SubmitAllFrame(s, es[..k]);
    FreeSlotMeansRoom(SubmitAll(s, es[..k]), h.(submitted := h.submitted + es[..k]));
    NextPiece(p, pos, k);
  }

  lemma ChoppingGoesOn(cfg: Config, s: TxState, p: Skb, t: TxState, pos: MapPos, nextSeq: int, nextId: int, k: nat,
                       low: bool)
    requires Chopping(cfg, s, p, t, pos, nextSeq, nextId, k, false)
    requires k < |Pieces(p)| && Fits(PieceEntry(cfg, p, k, low)) && low == RingIsLow(t, k + 1) && ValidRing(t)
    requires t.pending == s.pending
    ensures var m := Pieces(p)[k];
            Chopping(cfg, s, p,
                     Submit(t, PieceEntry(cfg, p, k, low)).(pending := s.pending + if m.eop then k + 1 else 0), m.pos,
                     (nextSeq + m.pos.mappedLen) % 0x1_0000_0000, (nextId + 1) % 0x1_0000, k + 1, m.eop)
  {
    hide Chop, MapEntry, SeqAt, IdAt, Submit, SubmitAll, Fits, PieceEntry, PieceEntries, RingIsLow;
    hide ReadyFor, SubmittedUpTo;
    NextReady(cfg, p, pos, nextSeq, nextId, k);
    PieceSubmitted(cfg, s, p, t, k, low);
  }

  lemma NextReady(cfg: Config, p: Skb, pos: MapPos, nextSeq: int, nextId: int, k: nat)
    requires Choppable(p) && ReadyFor(cfg, p, pos, nextSeq, nextId, k)
    ensures k < |Pieces(p)|
    ensures var m := Pieces(p)[k];
            && (m.eop <==> k + 1 == |Pieces(p)|)
            && (!m.eop ==> ReadyFor(cfg, p, m.pos, (nextSeq + m.pos.mappedLen) % 0x1_0000_0000,
                                    (nextId + 1) % 0x1_0000, k + 1))
  {
    hide Chop, MapEntry, SeqAt, IdAt;
    NextPiece(p, pos, k);
    RunningCounters(cfg.le, p.headers, Pieces(p), k);
  }

  lemma PieceSubmitted(cfg: Config, s: TxState, p: Skb, t: TxState, k: nat, low: bool)
    requires ValidRing(s) && Choppable(p) && k < |Pieces(p)| && (Pieces(p)[k].eop <==> k + 1 == |Pieces(p)|)
    requires SubmittedUpTo(cfg, s, p, t, k) && ValidRing(t) && low == RingIsLow(t, k + 1) && t.pending == s.pending
    ensures Fits(PieceEntry(cfg, p, k, low))
    ensures SubmittedUpTo(cfg, s, p,
                          Submit(t, PieceEntry(cfg, p, k, low)).(pending := s.pending + if Pieces(p)[k].eop then k + 1 else 0),
                          k + 1)
  {
    hide Chop, Submit, Fits, PieceEntry;
    var es := PieceEntries(cfg, p, RingIsLow(s, |Pieces(p)|));
    if !Pieces(p)[k].eop {
      OnlyLastIsLow(cfg, p, k, low);
    }
    assert es[k] == PieceEntry(cfg, p, k, low);
    SubmitOneMore(s, es, k);
    SubmitAllFrame(s, es[..k]);
  }

  lemma NextPiece(p: Skb, pos: MapPos, k: nat)
    requires Choppable(p) && k < |Pieces(p)| && Resumable(p, pos) && Chop(p, pos) == Pieces(p)[k..]
    ensures MapEntry(p, 1, pos) == Pieces(p)[k] && (Pieces(p)[k].eop <==> k + 1 == |Pieces(p)|)
    ensures !Pieces(p)[k].eop ==> Resumable(p, Pieces(p)[k].pos) && Chop(p, Pieces(p)[k].pos) == Pieces(p)[k + 1..]
  {
    hide MapEntry;
    ChopEop(p, StartPos(p, HeaderSize(p.headers)), k);
    MapEntryProgress(p, 1, pos);
    assert Pieces(p)[k..][0] == Pieces(p)[k] && Pieces(p)[k..][1..] == Pieces(p)[k + 1..];
  }

  lemma OnlyLastIsLow(cfg: Config, p: Skb, k: nat, low: bool)
    requires Choppable(p) && k < |Pieces(p)| && !Pieces(p)[k].eop
    ensures PieceEntry(cfg, p, k, low) == PieceEntry(cfg, p, k, !low)
  {
  }

  lemma SubmitOneMore(s: TxState, es: seq<Filled>, k: nat)
    requires ValidRing(s) && AllFit(es) && k < |es|
    ensures AllFit(es[..k + 1]) && SubmitAll(s, es[..k + 1]) == Submit(SubmitAll(s, es[..k]), es[k])
  {
    assert es[..k + 1][..k] == es[..k];
  }

  // ----- the loop of check_tx_queue -----

  /** From s0, `completed` entries have been taken back so far. */
  ghost predicate Reaping(cfg: Config, base: multiset<Pin>, s0: TxState, h0: History, s: TxState, h: History, completed: nat) {
    && RingInv(s0, h0) && CoreInv(cfg, base, s, h) && |s.ring| == |s0.ring| && completed <= |s.ring|
    && h == h0.(reaped := h0.reaped + completed)
    && var (t, k) := Reap(cfg, s, |s.ring| - completed); Reap(cfg, s0, |s.ring|) == (t, k + completed)
  }

  lemma ReapingStarts(cfg: Config, base: multiset<Pin>, s: TxState, h: History)
    requires CoreInv(cfg, base, s, h)
    ensures Reaping(cfg, base, s, h, s, h, 0)
  {
  }

  lemma ReapingIsValid(cfg: Config, base: multiset<Pin>, s0: TxState, h0: History, s: TxState, h: History, completed: nat)
    requires Reaping(cfg, base, s0, h0, s, h, completed)
    ensures ValidRing(s) && ValidHistory(h)
  {
  }

  lemma ReapingGoesOn(cfg: Config, base: multiset<Pin>, s0: TxState, h0: History, s: TxState, h: History, completed: nat)
    requires Reaping(cfg, base, s0, h0, s, h, completed) && ValidRing(s) && CanReap(s)
    ensures ReleasesDefined(cfg, s) && h.reaped < |h.submitted|
    ensures Reaping(cfg, base, s0, h0, ReapOne(cfg, s), h.(reaped := h.reaped + 1), completed + 1)
  {
    hide SlotOk, ValidFilled, EopIds, AllPins, ReapOne;
    CoreReap(cfg, base, s, h);
  }

  lemma ReapingStops(cfg: Config, base: multiset<Pin>, s0: TxState, h0: History, s: TxState, h: History, completed: nat)
    requires Reaping(cfg, base, s0, h0, s, h, completed) && ValidRing(s) && !CanReap(s)
    ensures Reap(cfg, s0, |s0.ring|) == (s, completed) && h == h0.(reaped := h0.reaped + completed)
  {
    hide SlotOk, ValidFilled, EopIds, AllPins, ReapOne;
  }
}
