/** vmxnet_map_buf and vmxnet_unmap_buf: filling one ring entry's gather list from where the last
    entry stopped, and releasing it. `MapEntry` says what one call does; the in-place method is
    proved against it and the lemmas below say what it means for the packet's bytes. */
module TxMap {
  import opened MachineInts
  import opened Packet

  const FRAG_LINEAR := -1

  /** The mapping position between calls: the next fragment, or FRAG_LINEAR and an offset. */
  datatype MapPos = MapPos(nextFrag: int, giantLinear: bool, offset: nat, mappedLen: nat)

  /** What one call produces. `pins` are the areas handed to the DMA mapper, in order. */
  datatype Mapped = Mapped(sg: seq<SgElem>, pins: seq<SgElem>, pos: MapPos,
                           sgForLinear: int, firstSgForFrag: int, eop: bool)

  class MapContext {
    var nextFrag: int
    var giantLinear: bool
    var offset: nat
    var mappedLen: nat

    constructor (nextFrag: int, giantLinear: bool, offset: nat)
      ensures Pos() == MapPos(nextFrag, giantLinear, offset, 0)
    {
      this.nextFrag, this.giantLinear, this.offset, this.mappedLen := nextFrag, giantLinear, offset, 0;
    }

    function Pos(): MapPos
      reads this
    {
      MapPos(nextFrag, giantLinear, offset, mappedLen)
    }
  }

  function Min(a: int, b: int): int { if a < b then a else b }

  /** Whole fragments i to j as gather elements. */
  function FragElems(p: Skb, i: nat, j: nat): (es: seq<SgElem>)
    requires ValidSkb(p) && i <= j <= |p.frags|
    ensures |es| == j - i
    decreases j - i
  {
    if i == j then [] else FragElems(p, i, j - 1) + [SgElem(Page(j - 1, 0), |p.frags[j - 1]|)]
  }

  function FragLen(p: Skb, i: nat, j: nat): nat
    requires i <= j <= |p.frags|
    decreases j - i
  {
    if i == j then 0 else FragLen(p, i, j - 1) + |p.frags[j - 1]|
  }

  /** The fragment that holds a byte offset, and the offset within it; empty fragments are passed over. */
  function SkipCopied(frags: seq<seq<byte>>, offset: nat): (nat, nat) {
    if frags == [] || offset < |frags[0]| then (0, offset)
    else var (i, rest) := SkipCopied(frags[1..], offset - |frags[0]|); (i + 1, rest)
  }

  /** A position the driver may resume from. */
  predicate Resumable(p: Skb, pos: MapPos) {
    if pos.nextFrag == FRAG_LINEAR then pos.offset <= |Bytes(p)|
    else 0 <= pos.nextFrag < |p.frags|
  }

  /** The elements that come before the whole fragments of an entry. */
  datatype Lead = Lead(sg: seq<SgElem>, pins: seq<SgElem>, nextFrag: int, sgForLinear: int, firstSgForFrag: int)

  function LeadOf(p: Skb, used: nat, pos: MapPos): (l: Lead)
    requires ValidSkb(p) && Resumable(p, pos)
    ensures |l.sg| <= 1 && 0 <= l.nextFrag <= |p.frags|
    ensures pos.nextFrag == FRAG_LINEAR && pos.offset < |p.linear| ==> |l.sg| == 1
  {
    if pos.nextFrag != FRAG_LINEAR then
      Lead([], [], pos.nextFrag, -1, used)
    else if pos.offset < |p.linear| then
      var e := SgElem(Linear(pos.offset), Min(|p.linear| - pos.offset, MAX_LINEAR));
      Lead([e], [e], 0, used, used + 1)
    else
      var (i, rest) := SkipCopied(p.frags, pos.offset - |p.linear|);
      SkipCopiedStops(p.frags, pos.offset - |p.linear|);
      if rest == 0 then Lead([], [], i, -1, used)
      else Lead([SgElem(Page(i, rest), |p.frags[i]| - rest)], [SgElem(Page(i, 0), |p.frags[i]|)],
                i + 1, -1, used)
  }

  /** Where the fragment loop stops: out of fragments or out of gather slots. */
  function FragEnd(p: Skb, first: nat, firstSg: nat): (j: nat)
    requires first <= |p.frags| && firstSg <= SG_LENGTH
    ensures first <= j <= |p.frags|
  {
    first + Min(|p.frags| - first, SG_LENGTH - firstSg)
  }

  /** One call of vmxnet_map_buf on an entry that already uses `used` gather slots. */
  function MapEntry(p: Skb, used: nat, pos: MapPos): (m: Mapped)
    requires ValidSkb(p) && Resumable(p, pos) && used < SG_LENGTH
    ensures used + |m.sg| <= SG_LENGTH
  {
    var l := LeadOf(p, used, pos);
    if pos.nextFrag == FRAG_LINEAR && pos.offset < |p.linear| && pos.giantLinear then
      var len := l.sg[0].length;
      var next := if pos.offset + len == |p.linear| then 0 else FRAG_LINEAR;
      Mapped(l.sg, l.pins, MapPos(next, true, pos.offset + len, len), l.sgForLinear, l.firstSgForFrag,
             next >= |p.frags|)
    else
      var j := FragEnd(p, l.nextFrag, used + |l.sg|);
      var lead := if l.sg == [] then 0 else l.sg[0].length;
      Mapped(l.sg + FragElems(p, l.nextFrag, j), l.pins + FragElems(p, l.nextFrag, j),
             MapPos(j, pos.giantLinear, pos.offset, lead + FragLen(p, l.nextFrag, j)),
             l.sgForLinear, l.firstSgForFrag, j >= |p.frags|)
  }

  lemma {:induction false} SkipCopiedStops(frags: seq<seq<byte>>, offset: nat)
    ensures var (i, rest) := SkipCopied(frags, offset);
            && i <= |frags|
            && |Flat(frags[..i])| + rest == offset
            && (i < |frags| ==> rest < |frags[i]|)
            && (offset <= |Flat(frags)| && i == |frags| ==> rest == 0)
  {
    if frags == [] || offset < |frags[0]| {
      assert frags[..0] == [];
    } else {
      var (i, rest) := SkipCopied(frags[1..], offset - |frags[0]|);
      SkipCopiedStops(frags[1..], offset - |frags[0]|);
      assert frags[..i + 1][1..] == frags[1..][..i];
    }
  }

  // ----- the in-place method -----

  /** A gather array after elements were written from slot `from` on. */
  function Overwrite(sg: seq<SgElem>, from: nat, es: seq<SgElem>): (r: seq<SgElem>)
    requires from + |es| <= |sg|
    ensures |r| == |sg|
  {
    sg[..from] + es + sg[from + |es|..]
  }

  lemma OverwriteOne(sg: seq<SgElem>, from: nat, e: SgElem)
    requires from < |sg|
    ensures Overwrite(sg, from, []) == sg && Overwrite(sg, from, [e]) == sg[from := e]
  {
  }

  lemma OverwriteTwice(sg: seq<SgElem>, from: nat, a: seq<SgElem>, b: seq<SgElem>)
    requires from + |a| + |b| <= |sg|
    ensures Overwrite(Overwrite(sg, from, a), from + |a|, b) == Overwrite(sg, from, a + b)
  {
  }

  lemma OverwriteNext(sg: seq<SgElem>, from: nat, es: seq<SgElem>, e: SgElem)
    requires from + |es| < |sg|
    ensures Overwrite(sg, from, es)[from + |es| := e] == Overwrite(sg, from, es + [e])
  {
  }

  function WithSg(e: TxRingEntry, es: seq<SgElem>): TxRingEntry
    requires e.sgLength + |es| <= |e.sg|
  {
    e.(sg := Overwrite(e.sg, e.sgLength, es))
  }

  lemma WithSgTwice(e: TxRingEntry, a: seq<SgElem>, b: seq<SgElem>)
    requires e.sgLength + |a| + |b| <= |e.sg|
    ensures var mid := WithSg(e, a);
            mid.(sg := Overwrite(mid.sg, e.sgLength + |a|, b)) == WithSg(e, a + b)
  {
    OverwriteTwice(e.sg, e.sgLength, a, b);
  }

  /** The loop that maps whole fragments until fragments or gather slots run out. */
  method MapFrags(p: Skb, ring: array<TxRingEntry>, idx: nat, tmc: MapContext, first: nat, firstSg: nat)
    returns (pins: seq<SgElem>)
    requires idx < ring.Length && |ring[idx].sg| == SG_LENGTH
    requires ValidSkb(p) && first <= |p.frags| && firstSg <= SG_LENGTH
    modifies ring, tmc`mappedLen
    ensures pins == FragElems(p, first, FragEnd(p, first, firstSg))
    ensures ring[..] == old(ring[..])[idx := old(ring[idx]).(sg := Overwrite(old(ring[idx].sg), firstSg, pins))]
    ensures tmc.mappedLen == old(tmc.mappedLen) + FragLen(p, first, FragEnd(p, first, firstSg))
  {
    var nextFrag, nextSg := first, firstSg;
    ghost var start := ring[idx];
    pins := [];
    assert Overwrite(start.sg, firstSg, []) == start.sg;
    while nextFrag < |p.frags| && nextSg < SG_LENGTH
      invariant first <= nextFrag <= |p.frags|
      invariant nextSg == firstSg + (nextFrag - first) <= SG_LENGTH
      invariant pins == FragElems(p, first, nextFrag)
      invariant ring[idx] == start.(sg := Overwrite(start.sg, firstSg, pins))
      invariant ring[..] == old(ring[..])[idx := ring[idx]]
      invariant tmc.mappedLen == old(tmc.mappedLen) + FragLen(p, first, nextFrag)
    {
      var elem := SgElem(Page(nextFrag, 0), |p.frags[nextFrag]|);
      OverwriteNext(start.sg, firstSg, pins, elem);
      pins := pins + [elem];
      ring[idx] := ring[idx].(sg := ring[idx].sg[nextSg := elem]);
      tmc.mappedLen := tmc.mappedLen + elem.length;
      nextFrag, nextSg := nextFrag + 1, nextSg + 1;
    }
  }

  /** The loop that passes over fragments already copied with the headers. */
  method SkipFrags(frags: seq<seq<byte>>, offset: nat) returns (nextFrag: nat, rest: nat)
    ensures (nextFrag, rest) == SkipCopied(frags, offset)
  {
    nextFrag, rest := 0, offset;
    while nextFrag < |frags| && rest >= |frags[nextFrag]|
      invariant 0 <= nextFrag <= |frags|
      invariant var (i, r) := SkipCopied(frags[nextFrag..], rest); SkipCopied(frags, offset) == (nextFrag + i, r)
    {
      rest := rest - |frags[nextFrag]|;
      nextFrag := nextFrag + 1;
    }
  }

  /** What mapping the lead of an entry changes. */
  twostate predicate LeadMapped(p: Skb, ring: array<TxRingEntry>, bufs: array<TxBuf>, idx: nat, tmc: MapContext,
                                nextFrag: nat, nextSg: nat, pins: seq<SgElem>)
    requires idx < ring.Length && idx < bufs.Length
    requires old(ValidEntry(ring[idx]) && ring[idx].sgLength < SG_LENGTH)
    requires ValidSkb(p) && Resumable(p, old(tmc.Pos()))
    reads ring, bufs, tmc
  {
    var l := LeadOf(p, old(ring[idx].sgLength), old(tmc.Pos()));
    && nextFrag == l.nextFrag && nextSg == old(ring[idx].sgLength) + |l.sg| && pins == l.pins
    && ring[..] == old(ring[..])[idx := WithSg(old(ring[idx]), l.sg)]
    && bufs[..] == old(bufs[..])[idx := old(bufs[idx]).(sgForLinear := l.sgForLinear,
                                                     firstSgForFrag := l.firstSgForFrag)]
    && tmc.mappedLen == if l.sg == [] then 0 else l.sg[0].length
  }

  method MapLinear(p: Skb, ring: array<TxRingEntry>, bufs: array<TxBuf>, idx: nat, tmc: MapContext)
    returns (nextSg: nat, pins: seq<SgElem>)
    requires idx < ring.Length && idx < bufs.Length
    requires ValidEntry(ring[idx]) && ring[idx].sgLength < SG_LENGTH && ValidSkb(p)
    requires tmc.nextFrag == FRAG_LINEAR && tmc.offset < |p.linear|
    modifies ring, bufs, tmc`mappedLen
    ensures LeadMapped(p, ring, bufs, idx, tmc, 0, nextSg, pins)
  {
    nextSg := ring[idx].sgLength;
    tmc.mappedLen := 0;
    var len := |p.linear| - tmc.offset;
    if len > MAX_LINEAR {
      len := MAX_LINEAR;
    }
    var elem := SgElem(Linear(tmc.offset), len);
    OverwriteOne(ring[idx].sg, nextSg, elem);
    pins := [elem];
    ring[idx] := ring[idx].(sg := ring[idx].sg[nextSg := elem]);
    tmc.mappedLen := tmc.mappedLen + len;
    bufs[idx] := bufs[idx].(sgForLinear := nextSg);
    nextSg := nextSg + 1;
    bufs[idx] := bufs[idx].(firstSgForFrag := nextSg);
  }

  /** The branch for headers that reach the end of the linear part or beyond it. */
  method MapSkipped(p: Skb, ring: array<TxRingEntry>, bufs: array<TxBuf>, idx: nat, tmc: MapContext)
    returns (nextFrag: nat, nextSg: nat, pins: seq<SgElem>)
    requires idx < ring.Length && idx < bufs.Length
    requires ValidEntry(ring[idx]) && ring[idx].sgLength < SG_LENGTH && ValidSkb(p)
    requires tmc.nextFrag == FRAG_LINEAR && |p.linear| <= tmc.offset <= |Bytes(p)|
    modifies ring, bufs, tmc`mappedLen
    ensures LeadMapped(p, ring, bufs, idx, tmc, nextFrag, nextSg, pins)
  {
    hide Overwrite, SkipCopied, Flat;
    nextSg, pins := ring[idx].sgLength, [];
    tmc.mappedLen := 0;
    bufs[idx] := bufs[idx].(sgForLinear := -1, firstSgForFrag := nextSg);
    var rest;
    nextFrag, rest := SkipFrags(p.frags, tmc.offset - |p.linear|);
    SkipCopiedStops(p.frags, tmc.offset - |p.linear|);
    OverwriteOne(ring[idx].sg, nextSg, SgElem(Page(nextFrag, rest), 0));
    if rest != 0 {
      pins := [SgElem(Page(nextFrag, 0), |p.frags[nextFrag]|)];
      var elem := SgElem(Page(nextFrag, rest), |p.frags[nextFrag]| - rest);
      OverwriteOne(ring[idx].sg, nextSg, elem);
      ring[idx] := ring[idx].(sg := ring[idx].sg[nextSg := elem]);
      tmc.mappedLen := tmc.mappedLen + elem.length;
      nextSg := nextSg + 1;
      nextFrag := nextFrag + 1;
    }
  }

  /** What comes before the fragment loop: the linear part, or the rest of a partly copied fragment. */
  method MapLead(p: Skb, ring: array<TxRingEntry>, bufs: array<TxBuf>, idx: nat, tmc: MapContext)
    returns (nextFrag: nat, nextSg: nat, pins: seq<SgElem>)
    requires idx < ring.Length && idx < bufs.Length
    requires ValidEntry(ring[idx]) && ring[idx].sgLength < SG_LENGTH
    requires ValidSkb(p) && Resumable(p, tmc.Pos())
    modifies ring, bufs, tmc`mappedLen
    ensures LeadMapped(p, ring, bufs, idx, tmc, nextFrag, nextSg, pins)
  {
    nextFrag := 0;
    if tmc.nextFrag != FRAG_LINEAR {
      nextFrag, nextSg, pins := tmc.nextFrag, ring[idx].sgLength, [];
      OverwriteOne(ring[idx].sg, nextSg, ring[idx].sg[nextSg]);
      tmc.mappedLen := 0;
      bufs[idx] := bufs[idx].(sgForLinear := -1, firstSgForFrag := nextSg);
    } else if tmc.offset < |p.linear| {
      nextSg, pins := MapLinear(p, ring, bufs, idx, tmc);
    } else {
      nextFrag, nextSg, pins := MapSkipped(p, ring, bufs, idx, tmc);
    }
  }

  /** What mapping everything that goes into an entry changes. */
  twostate predicate DataMapped(p: Skb, ring: array<TxRingEntry>, bufs: array<TxBuf>, idx: nat, tmc: MapContext,
                                nextSg: nat, pins: seq<SgElem>)
    requires idx < ring.Length && idx < bufs.Length
    requires old(ValidEntry(ring[idx]) && ring[idx].sgLength < SG_LENGTH)
    requires ValidSkb(p) && Resumable(p, old(tmc.Pos()))
    reads ring, bufs, tmc
  {
    var m := MapEntry(p, old(ring[idx].sgLength), old(tmc.Pos()));
    && nextSg == old(ring[idx].sgLength) + |m.sg| && pins == m.pins
    && ring[..] == old(ring[..])[idx := WithSg(old(ring[idx]), m.sg)]
    && bufs[..] == old(bufs[..])[idx := old(bufs[idx]).(sgForLinear := m.sgForLinear,
                                                     firstSgForFrag := m.firstSgForFrag)]
    && tmc.Pos() == m.pos
  }

  /** Entries are dedicated to a giant linear part: no fragment is added to them. */
  method MapGiant(p: Skb, ring: array<TxRingEntry>, bufs: array<TxBuf>, idx: nat, tmc: MapContext)
    returns (nextSg: nat, pins: seq<SgElem>)
    requires idx < ring.Length && idx < bufs.Length
    requires ValidEntry(ring[idx]) && ring[idx].sgLength < SG_LENGTH
    requires ValidSkb(p) && Resumable(p, tmc.Pos()) && InLinear(p, tmc.Pos()) && tmc.giantLinear
    modifies ring, bufs, tmc
    ensures DataMapped(p, ring, bufs, idx, tmc, nextSg, pins)
  {
    hide LeadOf, FragElems, FragLen, FragEnd, Overwrite;
    var nextFrag;
    nextFrag, nextSg, pins := MapLead(p, ring, bufs, idx, tmc);
    tmc.offset := tmc.offset + tmc.mappedLen;
    if tmc.offset == |p.linear| {
      tmc.nextFrag := 0;
    }
  }

  /** Whatever comes first and then whole fragments. */
  method MapMixed(p: Skb, ring: array<TxRingEntry>, bufs: array<TxBuf>, idx: nat, tmc: MapContext)
    returns (nextSg: nat, pins: seq<SgElem>)
    requires idx < ring.Length && idx < bufs.Length
    requires ValidEntry(ring[idx]) && ring[idx].sgLength < SG_LENGTH
    requires ValidSkb(p) && Resumable(p, tmc.Pos()) && !(InLinear(p, tmc.Pos()) && tmc.giantLinear)
    modifies ring, bufs, tmc
    ensures DataMapped(p, ring, bufs, idx, tmc, nextSg, pins)
  {
    hide LeadOf, FragElems, FragLen, FragEnd, Overwrite;
    ghost var start := ring[idx];
    ghost var l, m := LeadOf(p, start.sgLength, tmc.Pos()), MapEntry(p, start.sgLength, tmc.Pos());
    var nextFrag;
    nextFrag, nextSg, pins := MapLead(p, ring, bufs, idx, tmc);
    var fragPins := MapFrags(p, ring, idx, tmc, nextFrag, nextSg);
    assert m.sg == l.sg + fragPins;
    WithSgTwice(start, l.sg, fragPins);
    pins := pins + fragPins;
    nextSg := nextSg + |fragPins|;
    tmc.nextFrag := nextFrag + |fragPins|;
  }

  method MapBuf(p: Skb, ring: array<TxRingEntry>, bufs: array<TxBuf>, idx: nat, tmc: MapContext)
    returns (eop: bool, pins: seq<SgElem>)
    requires idx < ring.Length && idx < bufs.Length
    requires ValidEntry(ring[idx]) && ring[idx].sgLength < SG_LENGTH
    requires ValidSkb(p) && Resumable(p, tmc.Pos())
    modifies ring, bufs, tmc
    ensures var m := MapEntry(p, old(ring[idx].sgLength), old(tmc.Pos()));
            && ring[..] == old(ring[..])[idx := WithSg(old(ring[idx]), m.sg).(sgLength := old(ring[idx].sgLength) + |m.sg|)]
            && bufs[..] == old(bufs[..])[idx := old(bufs[idx]).(sgForLinear := m.sgForLinear,
                                                             firstSgForFrag := m.firstSgForFrag, eop := m.eop)]
            && tmc.Pos() == m.pos && eop == m.eop && pins == m.pins
  {
    hide MapEntry, Overwrite;
    EopExactly(p, ring[idx].sgLength, tmc.Pos());
    var nextSg;
    if tmc.nextFrag == FRAG_LINEAR && tmc.offset < |p.linear| && tmc.giantLinear {
      nextSg, pins := MapGiant(p, ring, bufs, idx, tmc);
    } else {
      nextSg, pins := MapMixed(p, ring, bufs, idx, tmc);
    }
    ring[idx] := ring[idx].(sgLength := nextSg);
    bufs[idx] := bufs[idx].(eop := tmc.nextFrag >= |p.frags|);
    eop := bufs[idx].eop;
  }

  lemma EopExactly(p: Skb, used: nat, pos: MapPos)
    requires ValidSkb(p) && Resumable(p, pos) && used < SG_LENGTH
    ensures var m := MapEntry(p, used, pos); m.eop <==> m.pos.nextFrag >= |p.frags|
  {
  }

  // ----- what a call means for the bytes of the packet -----

  /** A position a call can leave behind: resumable, or past the last fragment. */
  predicate Position(p: Skb, pos: MapPos) {
    Resumable(p, pos) || pos.nextFrag == |p.frags|
  }

  /** The bytes still to be mapped. */
  function Remaining(p: Skb, pos: MapPos): seq<byte>
    requires Position(p, pos)
  {
    if pos.nextFrag == FRAG_LINEAR then Bytes(p)[pos.offset..] else Flat(p.frags[pos.nextFrag..])
  }

  /** The branch that caps the linear part although the call will not come back for the rest. */
  predicate CapsLinear(p: Skb, pos: MapPos) {
    pos.nextFrag == FRAG_LINEAR && !pos.giantLinear && |p.linear| - pos.offset > MAX_LINEAR
  }

  lemma {:induction false} FragElemsInPacket(p: Skb, i: nat, j: nat)
    requires ValidSkb(p) && i <= j <= |p.frags|
    ensures AllInPacket(p, FragElems(p, i, j))
    decreases j - i
  {
    if i < j {
      FragElemsInPacket(p, i, j - 1);
    }
  }

  lemma {:induction false} GatherFrags(p: Skb, i: nat, j: nat)
    requires ValidSkb(p) && i <= j <= |p.frags|
    ensures AllInPacket(p, FragElems(p, i, j)) && Gather(p, FragElems(p, i, j)) == Flat(p.frags[i..j])
    ensures FragLen(p, i, j) == |Flat(p.frags[i..j])|
    decreases j - i
  {
    hide Flat, Gather;
    FragElemsInPacket(p, i, j);
    if i == j {
      FlatOne([]);
      GatherOne(p, SgElem(HeaderCopy(0), 0));
      assert p.frags[i..j] == [];
    } else {
      GatherFrags(p, i, j - 1);
      GatherNextFrag(p, FragElems(p, i, j - 1), i, j - 1);
    }
  }

  lemma GatherNextFrag(p: Skb, es: seq<SgElem>, i: nat, j: nat)
    requires ValidSkb(p) && i <= j < |p.frags| && AllInPacket(p, es)
    requires Gather(p, es) == Flat(p.frags[i..j])
    ensures var last := SgElem(Page(j, 0), |p.frags[j]|);
            && AllInPacket(p, es + [last]) && Gather(p, es + [last]) == Flat(p.frags[i..j + 1])
            && |Flat(p.frags[i..j + 1])| == |Flat(p.frags[i..j])| + |p.frags[j]|
  {
    hide Flat, Gather;
    var f := p.frags[j];
    var last := SgElem(Page(j, 0), |f|);
    GatherOne(p, last);
    GatherConcat(p, es, [last]);
    FlatOne(f);
    FlatConcat(p.frags[i..j], [f]);
    assert p.frags[i..j + 1] == p.frags[i..j] + [f];
    assert Read(p, last) == f;
  }

  lemma FlatSplit(frags: seq<seq<byte>>, i: nat, j: nat)
    requires i <= j <= |frags|
    ensures Flat(frags[i..]) == Flat(frags[i..j]) + Flat(frags[j..])
  {
    assert frags[i..] == frags[i..j] + frags[j..];
    FlatConcat(frags[i..j], frags[j..]);
  }

  predicate InLinear(p: Skb, pos: MapPos) {
    pos.nextFrag == FRAG_LINEAR && pos.offset < |p.linear|
  }

  lemma SkipStream(p: Skb, offset: nat)
    requires |p.linear| <= offset <= |Bytes(p)|
    ensures var (i, rest) := SkipCopied(p.frags, offset - |p.linear|);
            && i <= |p.frags| && (i < |p.frags| ==> rest < |p.frags[i]|) && (i == |p.frags| ==> rest == 0)
            && Bytes(p)[offset..] == Flat(p.frags[i..])[rest..]
  {
    var (i, rest) := SkipCopied(p.frags, offset - |p.linear|);
    SkipCopiedStops(p.frags, offset - |p.linear|);
    FlatSplit(p.frags, 0, i);
    assert p.frags[0..i] == p.frags[..i] && p.frags[0..] == p.frags;
  }

  /** Outside the linear part, the lead element and all later fragments are the remaining bytes. */
  lemma LeadStream(p: Skb, used: nat, pos: MapPos)
    requires ValidSkb(p) && Resumable(p, pos) && !InLinear(p, pos)
    ensures var l := LeadOf(p, used, pos);
            && AllInPacket(p, l.sg)
            && |Gather(p, l.sg)| == (if l.sg == [] then 0 else l.sg[0].length)
            && Gather(p, l.sg) + Flat(p.frags[l.nextFrag..]) == Remaining(p, pos)
  {
    hide Flat, Gather, SkipCopied;
    GatherOne(p, SgElem(HeaderCopy(0), 0));
    if pos.nextFrag == FRAG_LINEAR {
      SkipStream(p, pos.offset);
      var (i, rest) := SkipCopied(p.frags, pos.offset - |p.linear|);
      if rest != 0 {
        GatherOne(p, SgElem(Page(i, rest), |p.frags[i]| - rest));
        FlatTail(p.frags, i, rest);
      }
    }
  }

  /** What the linear element of an entry delivers. */
  lemma LinearLead(p: Skb, used: nat, pos: MapPos)
    requires ValidSkb(p) && InLinear(p, pos)
    ensures var l := LeadOf(p, used, pos);
            && l.nextFrag == 0 && |l.sg| == 1 && AllInPacket(p, l.sg)
            && 0 < l.sg[0].length && pos.offset + l.sg[0].length <= |p.linear|
            && (pos.offset + l.sg[0].length == |p.linear| <==> |p.linear| - pos.offset <= MAX_LINEAR)
            && Gather(p, l.sg) == p.linear[pos.offset..pos.offset + l.sg[0].length]
  {
    GatherOne(p, LeadOf(p, used, pos).sg[0]);
  }

  lemma BytesSplit(p: Skb, a: nat, b: nat)
    requires a <= b <= |p.linear|
    ensures Bytes(p)[a..] == p.linear[a..b] + Bytes(p)[b..]
    ensures b == |p.linear| ==> Bytes(p)[b..] == Flat(p.frags[0..])
  {
    assert p.frags[0..] == p.frags;
  }

  predicate Delivers(p: Skb, pos: MapPos, m: Mapped) {
    && AllInPacket(p, m.sg) && m.pos.mappedLen == |Gather(p, m.sg)|
    && Position(p, pos) && Position(p, m.pos)
  }

  lemma GiantStream(p: Skb, used: nat, pos: MapPos)
    requires ValidSkb(p) && InLinear(p, pos) && pos.giantLinear && used < SG_LENGTH
    ensures var m := MapEntry(p, used, pos);
            Delivers(p, pos, m) && Gather(p, m.sg) + Remaining(p, m.pos) == Remaining(p, pos)
  {
    hide LeadOf, Gather, Flat;
    LinearLead(p, used, pos);
    BytesSplit(p, pos.offset, pos.offset + LeadOf(p, used, pos).sg[0].length);
  }

  /** An entry that goes on to the fragments delivers its lead and then whole fragments. */
  lemma MixedStream(p: Skb, used: nat, pos: MapPos)
    requires ValidSkb(p) && Resumable(p, pos) && used < SG_LENGTH
    requires !(InLinear(p, pos) && pos.giantLinear)
    ensures var m, l := MapEntry(p, used, pos), LeadOf(p, used, pos);
            && Delivers(p, pos, m) && AllInPacket(p, l.sg)
            && Gather(p, m.sg) + Remaining(p, m.pos) == Gather(p, l.sg) + Flat(p.frags[l.nextFrag..])
  {
    hide LeadOf, Gather, Flat;
    var m, l := MapEntry(p, used, pos), LeadOf(p, used, pos);
    if InLinear(p, pos) {
      LinearLead(p, used, pos);
    } else {
      LeadStream(p, used, pos);
    }
    GatherFrags(p, l.nextFrag, m.pos.nextFrag);
    GatherConcat(p, l.sg, FragElems(p, l.nextFrag, m.pos.nextFrag));
    FlatSplit(p.frags, l.nextFrag, m.pos.nextFrag);
  }

  /** One call delivers the next remaining bytes and nothing else, exactly when it does not cap a
      linear part it will not return to; the count it reports is the number of those bytes. */
  lemma MapEntryStreamExactly(p: Skb, used: nat, pos: MapPos)
    requires ValidSkb(p) && Resumable(p, pos) && used < SG_LENGTH
    ensures var m := MapEntry(p, used, pos);
            && Delivers(p, pos, m)
            && (Gather(p, m.sg) + Remaining(p, m.pos) == Remaining(p, pos) <==> !CapsLinear(p, pos))
  {
    hide LeadOf, Gather, Flat, MapEntry;
    var m, l := MapEntry(p, used, pos), LeadOf(p, used, pos);
    if InLinear(p, pos) && pos.giantLinear {
      GiantStream(p, used, pos);
    } else {
      MixedStream(p, used, pos);
      if InLinear(p, pos) {
        LinearLead(p, used, pos);
        BytesSplit(p, pos.offset, |p.linear|);
        assert |Gather(p, l.sg)| == l.sg[0].length;
        assert |Remaining(p, pos)| == |p.linear| - pos.offset + |Flat(p.frags[0..])|;
        assert !CapsLinear(p, pos) ==> Remaining(p, pos) == Gather(p, l.sg) + Flat(p.frags[0..]);
      } else {
        LeadStream(p, used, pos);
      }
    }
  }

  /** Work left, for termination: each call that does not finish the packet reduces it. */
  function WorkLeft(p: Skb, pos: MapPos): nat
    requires Position(p, pos)
  {
    if pos.nextFrag == FRAG_LINEAR then 1 + |p.frags| + (if pos.offset < |p.linear| then |p.linear| - pos.offset else 0)
    else |p.frags| - pos.nextFrag
  }

  lemma MapEntryProgress(p: Skb, used: nat, pos: MapPos)
    requires ValidSkb(p) && Resumable(p, pos) && used < SG_LENGTH
    ensures var m := MapEntry(p, used, pos);
            if m.eop then Position(p, m.pos) && Remaining(p, m.pos) == []
            else Resumable(p, m.pos) && WorkLeft(p, m.pos) < WorkLeft(p, pos)
                 && m.pos.giantLinear == pos.giantLinear
                 && (m.pos.nextFrag == FRAG_LINEAR ==>
                       pos.nextFrag == FRAG_LINEAR && pos.giantLinear && m.pos.offset < |p.linear|)
  {
    MapEntryStreamExactly(p, used, pos);
  }

  // ----- unmapping -----

  /** The areas vmxnet_unmap_buf releases, from the gather list and the driver's record of an entry. */
  function Releases(sg: seq<SgElem>, b: TxBuf): seq<SgElem>
    requires b.sgForLinear < |sg| && 0 <= b.firstSgForFrag <= |sg|
  {
    (if b.sgForLinear >= 0 then [sg[b.sgForLinear]] else []) + sg[b.firstSgForFrag..]
  }

  method UnmapBuf(e: TxRingEntry, b: TxBuf) returns (released: seq<SgElem>)
    requires ValidEntry(e) && b.sgForLinear < e.sgLength && 0 <= b.firstSgForFrag <= e.sgLength
    ensures released == Releases(Used(e), b)
  {
    released := [];
    if b.sgForLinear >= 0 {
      released := [e.sg[b.sgForLinear]];
    }
    ghost var first := released;
    var sgIdx := b.firstSgForFrag;
    while sgIdx < e.sgLength
      invariant b.firstSgForFrag <= sgIdx <= e.sgLength
      invariant released == first + e.sg[b.firstSgForFrag..sgIdx]
    {
      assert e.sg[b.firstSgForFrag..sgIdx + 1] == e.sg[b.firstSgForFrag..sgIdx] + [e.sg[sgIdx]];
      released := released + [e.sg[sgIdx]];
      sgIdx := sgIdx + 1;
    }
    assert Used(e)[b.firstSgForFrag..] == e.sg[b.firstSgForFrag..e.sgLength];
  }

  /** The mapping starts inside a fragment whose first bytes were copied with the headers. */
  predicate SplitsFragment(p: Skb, pos: MapPos) {
    pos.nextFrag == FRAG_LINEAR && pos.offset >= |p.linear| && SkipCopied(p.frags, pos.offset - |p.linear|).1 != 0
  }

  /** A record as one call leaves it. */
  predicate RecordedBy(b: TxBuf, m: Mapped) {
    b.sgForLinear == m.sgForLinear && b.firstSgForFrag == m.firstSgForFrag
  }

  lemma {:induction false} FragElemsArePages(p: Skb, i: nat, j: nat)
    requires ValidSkb(p) && i <= j <= |p.frags|
    ensures forall e | e in FragElems(p, i, j) :: e.addr.Page? && e.addr.frag >= i && e.addr.offset == 0
    decreases j - i
  {
    if i < j {
      FragElemsArePages(p, i, j - 1);
    }
  }

  lemma LeadPins(p: Skb, used: nat, pos: MapPos)
    requires ValidSkb(p) && Resumable(p, pos)
    ensures var l := LeadOf(p, used, pos);
            && (if l.sgForLinear == -1 then l.firstSgForFrag == used
                else l.sgForLinear == used && l.firstSgForFrag == used + 1 && |l.sg| == 1)
            && (forall e | e in l.sg :: !e.addr.HeaderCopy?)
            && (l.pins == [] ==> l.sg == [])
            && if SplitsFragment(p, pos) then
                 |l.sg| == |l.pins| == 1 && l.pins[0].addr == Page(l.nextFrag - 1, 0) && l.pins[0] != l.sg[0]
               else l.pins == l.sg
  {
  }

  /** Releasing an entry gives back exactly the areas that were mapped for it, in order and never the
      copied headers, unless its first element starts inside a fragment: then a different area goes back. */
  lemma UnmapMirrorsMapExactly(p: Skb, head: seq<SgElem>, pos: MapPos, b: TxBuf)
    requires ValidSkb(p) && Resumable(p, pos) && |head| < SG_LENGTH
    requires RecordedBy(b, MapEntry(p, |head|, pos))
    ensures var m := MapEntry(p, |head|, pos);
            && b.sgForLinear < |head + m.sg| && 0 <= b.firstSgForFrag <= |head + m.sg|
            && (Releases(head + m.sg, b) == m.pins <==> !SplitsFragment(p, pos))
            && (multiset(Releases(head + m.sg, b)) == multiset(m.pins) <==> !SplitsFragment(p, pos))
            && forall x | x in Releases(head + m.sg, b) :: !x.addr.HeaderCopy?
  {
    hide LeadOf, SplitsFragment, MapEntry, Releases;
    var m, l := MapEntry(p, |head|, pos), LeadOf(p, |head|, pos);
    LeadPins(p, |head|, pos);
    EntryParts(p, |head|, pos);
    ReleasesMapped(head, b, m);
    if SplitsFragment(p, pos) {
      DifferentAreas(m.pins, m.sg, l.pins[0]);
    }
  }

  /** An entry is its lead followed by whole fragments, which are mapped as they are. */
  lemma EntryParts(p: Skb, used: nat, pos: MapPos)
    requires ValidSkb(p) && Resumable(p, pos) && used < SG_LENGTH
    ensures var m, l := MapEntry(p, used, pos), LeadOf(p, used, pos);
            && |l.sg| <= |m.sg| && m.sg[..|l.sg|] == l.sg && |l.pins| <= |m.pins| && m.pins[..|l.pins|] == l.pins
            && m.sg[|l.sg|..] == m.pins[|l.pins|..]
            && (forall e | e in m.sg :: e in l.sg || (e.addr.Page? && e.addr.frag >= l.nextFrag))
            && (l.pins == l.sg ==> m.pins == m.sg)
            && (l.pins != [] ==> l.pins[0] in m.pins)
            && m.sgForLinear == l.sgForLinear && m.firstSgForFrag == l.firstSgForFrag
  {
    hide LeadOf;
    var m, l := MapEntry(p, used, pos), LeadOf(p, used, pos);
    if l.pins != [] {
      assert m.pins[0] == l.pins[0];
    }
    if !(InLinear(p, pos) && pos.giantLinear) {
      FragElemsArePages(p, l.nextFrag, m.pos.nextFrag);
    }
  }

  lemma DifferentAreas(a: seq<SgElem>, b: seq<SgElem>, x: SgElem)
    requires x in a && x !in b
    ensures a != b && multiset(a) != multiset(b)
  {
    assert x in multiset(a) && x !in multiset(b);
  }

  lemma ReleasesMapped(head: seq<SgElem>, b: TxBuf, m: Mapped)
    requires RecordedBy(b, m)
    requires if m.sgForLinear == -1 then m.firstSgForFrag == |head|
             else m.sgForLinear == |head| && m.firstSgForFrag == |head| + 1 && m.sg != []
    ensures b.sgForLinear < |head + m.sg| && 0 <= b.firstSgForFrag <= |head + m.sg|
    ensures Releases(head + m.sg, b) == m.sg
  {
  }
}
