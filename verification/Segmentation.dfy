/** The headers vmxnet_tx writes in front of each piece of a chopped TCP packet: they make the pieces
    a TCP segmentation of the packet whose IP checksums are right whenever the original one was. */
module Segmentation {
  import opened MachineInts
  import opened OnesComplement
  import opened IcmpChecksum
  import opened Packet
  import opened TxMap
  import opened TxChop
  import EchoReply

  // word indices in the IP header
  const TOT_LEN := 1
  const ID := 2
  const CHECK := 5

  /** What a header-copy slot holds: bytes copied from the packet, with these field values stored in their
      places. The module HeaderBytes says which bytes that makes. */
  datatype HeaderSlot = HeaderSlot(raw: seq<byte>, ip: seq<uint16>, tcp: TcpFields)

  function Htons(le: bool, w: uint16): uint16 { EchoReply.Htons(le, w) }

  lemma HtonsInvolution(le: bool, w: uint16)
    ensures Htons(le, Htons(le, w)) == w
  {
    SwapInvolution(w);
  }

  predicate ValidHeaders(h: Headers) {
    h.kind.Tcp? ==> |h.ip| >= 10 && h.ip[0] != 0
  }

  // ----- the incremental IP checksum -----

  /** csum_fold: two carry folds and the complement. */
  function CsumFold(csum: uint32): uint16 {
    var s := csum / 0x1_0000 + csum % 0x1_0000;
    0xFFFF - (s + s / 0x1_0000) % 0x1_0000
  }

  /** The accumulated difference, which cannot overflow 32 bits. */
  function HeaderDelta(check: uint16, oldId: uint16, newId: uint16, oldLen: uint16, newLen: uint16): uint32 {
    (0xFFFF - check) + ((0xFFFF - oldId) + newId) + ((0xFFFF - oldLen) + newLen)
  }

  /** The IP header with a new identifier, a new length and the patched checksum. */
  function Rewritten(ip: seq<uint16>, newId: uint16, newLen: uint16): (r: seq<uint16>)
    requires |ip| >= 10
    ensures |r| == |ip| && r[ID] == newId && r[TOT_LEN] == newLen
    ensures forall i | 0 <= i < |ip| && i != TOT_LEN && i != ID && i != CHECK :: r[i] == ip[i]
  {
    ip[ID := newId][TOT_LEN := newLen]
      [CHECK := CsumFold(HeaderDelta(ip[CHECK], ip[ID], newId, ip[TOT_LEN], newLen))]
  }

  lemma CsumFoldIs(csum: uint32)
    ensures CsumFold(csum) == 0xFFFF - Normal(csum)
    ensures (csum - Normal(csum) - 2 * 0xFFFF) % 0xFFFF == 0
  {
    TwoFoldsAreEnough(csum);
    Multiples(csum - Normal(csum), 2 * 0xFFFF);
  }

  lemma DeltaIs(check: uint16, oldId: uint16, newId: uint16, oldLen: uint16, newLen: uint16)
    ensures HeaderDelta(check, oldId, newId, oldLen, newLen) == newId - oldId + newLen - oldLen - check + 3 * 0xFFFF
  {
  }

  lemma RewrittenDifference(ip: seq<uint16>, newId: uint16, newLen: uint16)
    requires |ip| >= 10
    ensures var delta := HeaderDelta(ip[CHECK], ip[ID], newId, ip[TOT_LEN], newLen);
            Total(Rewritten(ip, newId, newLen)) - Total(ip) == delta - Normal(delta) - 2 * 0xFFFF
  {
    hide CsumFold, Normal, Total, HeaderDelta;
    var delta := HeaderDelta(ip[CHECK], ip[ID], newId, ip[TOT_LEN], newLen);
    var c := CsumFold(delta);
    var ip1 := ip[ID := newId];
    var ip2 := ip1[TOT_LEN := newLen];
    TotalUpdate(ip, ID, newId);
    TotalUpdate(ip1, TOT_LEN, newLen);
    TotalUpdate(ip2, CHECK, c);
    CsumFoldIs(delta);
    DeltaIs(ip[CHECK], ip[ID], newId, ip[TOT_LEN], newLen);
    assert Rewritten(ip, newId, newLen) == ip2[CHECK := c];
  }

  lemma RewrittenTotal(ip: seq<uint16>, newId: uint16, newLen: uint16)
    requires |ip| >= 10
    ensures (Total(Rewritten(ip, newId, newLen)) - Total(ip)) % 0xFFFF == 0
  {
    hide CsumFold, Normal, Total, HeaderDelta, Rewritten;
    RewrittenDifference(ip, newId, newLen);
    CsumFoldIs(HeaderDelta(ip[CHECK], ip[ID], newId, ip[TOT_LEN], newLen));
  }

  /** The patched header verifies exactly when the original one did, whatever the new values are
      (equation 3 in section 3 of RFC 1624). */
  lemma RewrittenVerifiesExactly(ip: seq<uint16>, newId: uint16, newLen: uint16)
    requires |ip| >= 10 && ip[0] != 0
    ensures Verifies(Rewritten(ip, newId, newLen)) <==> Verifies(ip)
  {
    hide Rewritten, Total;
    var r := Rewritten(ip, newId, newLen);
    var t: int, t': int := Total(ip), Total(r);
    RewrittenTotal(ip, newId, newLen);
    VerifiesExactly(ip);
    VerifiesExactly(r);
    TotalZero(ip);
    TotalZero(r);
    if t % 0xFFFF == 0 {
      Multiples(t, t' - t);
    }
    if t' % 0xFFFF == 0 {
      Multiples(t', t' - t);
    }
  }

  // ----- hosts of either byte order -----

  lemma SwapComplement(w: uint16)
    ensures Swap(0xFFFF - w) == 0xFFFF - Swap(w)
  {
    var lo, hi := w % 0x100, w / 0x100;
    assert 0xFFFF - w == 0x100 * (0xFF - hi) + (0xFF - lo);
  }

  lemma DeltaIsTotal(a: uint16, b: uint16, c: uint16, d: uint16, e: uint16)
    ensures Total([a, b, c, d, e]) == a + b + c + d + e
  {
    TotalAppend([], a);
    TotalAppend([a], b);
    TotalAppend([a, b], c);
    TotalAppend([a, b, c], d);
    TotalAppend([a, b, c, d], e);
    assert [] + [a] == [a] && [a] + [b] == [a, b] && [a, b] + [c] == [a, b, c];
    assert [a, b, c] + [d] == [a, b, c, d] && [a, b, c, d] + [e] == [a, b, c, d, e];
  }

  /** The patched checksum as a ones'-complement sum of five words. */
  lemma PatchIsSum(check: uint16, oldId: uint16, newId: uint16, oldLen: uint16, newLen: uint16)
    ensures CsumFold(HeaderDelta(check, oldId, newId, oldLen, newLen))
         == 0xFFFF - OnesSum([0xFFFF - check, 0xFFFF - oldId, newId, 0xFFFF - oldLen, newLen])
  {
    hide OnesSum, Total, CsumFold, Normal;
    var ws := [0xFFFF - check, 0xFFFF - oldId, newId, 0xFFFF - oldLen, newLen];
    CsumFoldIs(HeaderDelta(check, oldId, newId, oldLen, newLen));
    DeltaIsTotal(0xFFFF - check, 0xFFFF - oldId, newId, 0xFFFF - oldLen, newLen);
    OnesSumIsNormal(ws);
  }

  /** Patching swapped words gives the swapped checksum. */
  lemma PatchSwaps(check: uint16, oldId: uint16, newId: uint16, oldLen: uint16, newLen: uint16)
    ensures CsumFold(HeaderDelta(Swap(check), Swap(oldId), Swap(newId), Swap(oldLen), Swap(newLen)))
         == Swap(CsumFold(HeaderDelta(check, oldId, newId, oldLen, newLen)))
  {
    hide OnesSum, CsumFold, HeaderDelta, Swap;
    var ws := [0xFFFF - check, 0xFFFF - oldId, newId, 0xFFFF - oldLen, newLen];
    PatchIsSum(check, oldId, newId, oldLen, newLen);
    PatchIsSum(Swap(check), Swap(oldId), Swap(newId), Swap(oldLen), Swap(newLen));
    SwapComplement(check);
    SwapComplement(oldId);
    SwapComplement(oldLen);
    assert SwapAll(ws) == [0xFFFF - Swap(check), 0xFFFF - Swap(oldId), Swap(newId), 0xFFFF - Swap(oldLen), Swap(newLen)];
    SwapCommutesWithSum(ws);
    SwapComplement(OnesSum(ws));
  }

  /** Rewriting swapped headers gives the swapped headers. */
  lemma RewrittenSwaps(ip: seq<uint16>, newId: uint16, newLen: uint16)
    requires |ip| >= 10
    ensures Rewritten(SwapAll(ip), Swap(newId), Swap(newLen)) == SwapAll(Rewritten(ip, newId, newLen))
  {
    hide CsumFold, HeaderDelta, Swap;
    PatchSwaps(ip[CHECK], ip[ID], newId, ip[TOT_LEN], newLen);
  }

  lemma SeedSwaps(ip: seq<uint16>, length: uint16)
    requires |ip| >= 10
    ensures Seed(true, SwapAll(ip), length) == Swap(Seed(false, ip, length))
  {
    hide OnesSum, Swap;
    assert PseudoHeader(true, SwapAll(ip), length) == SwapAll(PseudoHeader(false, ip, length));
    SwapCommutesWithSum(PseudoHeader(false, ip, length));
  }

  // ----- the headers of one piece -----

  function TcpIpSize(h: Headers): nat
    requires h.kind.Tcp?
  {
    HeaderSize(h) - IphOffset(h)
  }

  const IPPROTO_TCP := 6

  /** The pseudo header of a TCP segment as 16-bit words: addresses, protocol and length (section 3.1 of
      RFC 793). */
  function PseudoHeader(le: bool, ip: seq<uint16>, length: uint16): seq<uint16>
    requires |ip| >= 10
  {
    ip[6..10] + [Htons(le, IPPROTO_TCP), Htons(le, length)]
  }

  /** What the driver leaves in the TCP checksum field: the sum of the pseudo header, not complemented. */
  function Seed(le: bool, ip: seq<uint16>, length: uint16): uint16
    requires |ip| >= 10
  {
    OnesSum(PseudoHeader(le, ip, length))
  }

  /** The header slot of a piece with the given sequence number, identifier and mapped length. */
  function PieceHeader(le: bool, h: Headers, raw: seq<byte>, seqNo: uint32, id: uint16, m: Mapped): HeaderSlot
    requires h.kind.Tcp? && ValidHeaders(h)
  {
    HeaderSlot(raw,
               Rewritten(h.ip, Htons(le, id), Htons(le, (m.pos.mappedLen + TcpIpSize(h)) % 0x1_0000)),
               TcpFields(seqNo, m.eop && h.tcp.fin, m.eop && h.tcp.psh,
                         Seed(le, h.ip, (m.pos.mappedLen + 4 * h.tcpWords) % 0x1_0000)))
  }

  function SeqAt(h: Headers, ms: seq<Mapped>, k: nat): uint32
    requires k <= |ms|
  {
    (h.tcp.seqNo + Before(ms, k)) % 0x1_0000_0000
  }

  function IdAt(le: bool, h: Headers, k: nat): uint16
    requires |h.ip| >= 10
  {
    (Htons(le, h.ip[ID]) + k) % 0x1_0000
  }

  /** The k-th piece's header. */
  function HeaderAt(le: bool, p: Skb, k: nat): (slot: HeaderSlot)
    requires ValidSkb(p) && p.headers.kind.Tcp? && ValidHeaders(p.headers) && HeaderSize(p.headers) <= |p.linear|
    requires k < |Pieces(p)|
    ensures |slot.raw| == HeaderSize(p.headers)
  {
    PieceHeader(le, p.headers, p.linear[..HeaderSize(p.headers)], SeqAt(p.headers, Pieces(p), k),
                IdAt(le, p.headers, k), Pieces(p)[k])
  }

  /** The loop's running sequence number and identifier follow these closed forms. */
  lemma RunningCounters(le: bool, h: Headers, ms: seq<Mapped>, k: nat)
    requires |h.ip| >= 10 && k < |ms|
    ensures SeqAt(h, ms, k + 1) == (SeqAt(h, ms, k) + ms[k].pos.mappedLen) % 0x1_0000_0000
    ensures IdAt(le, h, k + 1) == (IdAt(le, h, k) + 1) % 0x1_0000
  {
    ModAdd32(h.tcp.seqNo + Before(ms, k), ms[k].pos.mappedLen);
    ModAdd16(Htons(le, h.ip[ID]) + k, 1);
  }

  lemma ModAdd32(a: int, b: int)
    ensures (a % 0x1_0000_0000 + b) % 0x1_0000_0000 == (a + b) % 0x1_0000_0000
  {
  }

  lemma ModAdd16(a: int, b: int)
    ensures (a % 0x1_0000 + b) % 0x1_0000 == (a + b) % 0x1_0000
  {
  }

  /** What piece k of a chopped packet says about itself: its offset as a sequence number, consecutive
      identifiers, its own length, FIN and PSH only on the last piece, an IP checksum as good as the
      original one, the seed of its TCP checksum. The lengths need the IP datagram to be within its
      65535-byte limit. */
  lemma HeaderSays(le: bool, p: Skb, k: nat)
    requires ValidSkb(p) && p.headers.kind.Tcp? && ValidHeaders(p.headers)
    requires HeaderSize(p.headers) <= |p.linear| && |Bytes(p)| - IphOffset(p.headers) <= 0xFFFF
    requires k < |Pieces(p)|
    ensures AllInPacket(p, Pieces(p)[k].sg)
    ensures var h, slot := p.headers, HeaderAt(le, p, k);
            && slot.raw == Bytes(p)[..HeaderSize(h)]
            && (slot.tcp.seqNo - h.tcp.seqNo) % 0x1_0000_0000 == Before(Pieces(p), k)
            && Htons(le, slot.ip[ID]) == (Htons(le, h.ip[ID]) + k) % 0x1_0000
            && Htons(le, slot.ip[TOT_LEN]) == HeaderSize(h) - IphOffset(h) + |Gather(p, Pieces(p)[k].sg)|
            && slot.tcp.fin == (h.tcp.fin && k == |Pieces(p)| - 1)
            && slot.tcp.psh == (h.tcp.psh && k == |Pieces(p)| - 1)
            && slot.tcp.check == Seed(le, slot.ip, 4 * h.tcpWords + |Gather(p, Pieces(p)[k].sg)|)
            && (Verifies(slot.ip) <==> Verifies(h.ip))
  {
    hide HeaderAt, Pieces, Gather, Htons, Bytes, Verifies, Seed, IdAt;
    PieceBounds(p, k);
    HeaderPrefix(p, HeaderSize(p.headers));
    PieceFields(le, p, k);
    SeedSays(le, p, k);
    IpSays(le, p, k);
    SeqSays(le, p, k);
  }

  lemma SeqSays(le: bool, p: Skb, k: nat)
    requires ValidSkb(p) && p.headers.kind.Tcp? && ValidHeaders(p.headers)
    requires HeaderSize(p.headers) <= |p.linear| && |Bytes(p)| - IphOffset(p.headers) <= 0xFFFF
    requires k < |Pieces(p)|
    ensures (HeaderAt(le, p, k).tcp.seqNo - p.headers.tcp.seqNo) % 0x1_0000_0000 == Before(Pieces(p), k)
  {
    hide HeaderAt, Pieces, Gather, Htons, Rewritten, Bytes;
    PieceBounds(p, k);
    PieceFields(le, p, k);
    RelativeSeq(p.headers.tcp.seqNo, Before(Pieces(p), k));
  }

  lemma PieceFields(le: bool, p: Skb, k: nat)
    requires ValidSkb(p) && p.headers.kind.Tcp? && ValidHeaders(p.headers)
    requires HeaderSize(p.headers) <= |p.linear| && k < |Pieces(p)|
    ensures var h, slot, m := p.headers, HeaderAt(le, p, k), Pieces(p)[k];
            && slot.raw == p.linear[..HeaderSize(h)]
            && slot.tcp.seqNo == (h.tcp.seqNo + Before(Pieces(p), k)) % 0x1_0000_0000
            && slot.tcp.fin == (h.tcp.fin && m.eop) && slot.tcp.psh == (h.tcp.psh && m.eop)
            && slot.ip == Rewritten(h.ip, Htons(le, IdAt(le, h, k)),
                                    Htons(le, (m.pos.mappedLen + TcpIpSize(h)) % 0x1_0000))
  {
    hide Chop, Rewritten, Htons, Seed;
  }

  lemma RewrittenSays(le: bool, ip: seq<uint16>, id: uint16, len: uint16)
    requires |ip| >= 10 && ip[0] != 0
    ensures var r := Rewritten(ip, Htons(le, id), Htons(le, len));
            Htons(le, r[ID]) == id && Htons(le, r[TOT_LEN]) == len && (Verifies(r) <==> Verifies(ip))
  {
    hide Rewritten, Htons, Verifies;
    HtonsInvolution(le, id);
    HtonsInvolution(le, len);
    RewrittenVerifiesExactly(ip, Htons(le, id), Htons(le, len));
  }

  lemma IpSays(le: bool, p: Skb, k: nat)
    requires ValidSkb(p) && p.headers.kind.Tcp? && ValidHeaders(p.headers)
    requires HeaderSize(p.headers) <= |p.linear| && |Bytes(p)| - IphOffset(p.headers) <= 0xFFFF
    requires k < |Pieces(p)|
    ensures AllInPacket(p, Pieces(p)[k].sg)
    ensures var h, slot := p.headers, HeaderAt(le, p, k);
            && Htons(le, slot.ip[ID]) == (Htons(le, h.ip[ID]) + k) % 0x1_0000
            && Htons(le, slot.ip[TOT_LEN]) == HeaderSize(h) - IphOffset(h) + |Gather(p, Pieces(p)[k].sg)|
            && (Verifies(slot.ip) <==> Verifies(h.ip))
  {
    hide Pieces, HeaderAt, Gather, Rewritten, Htons, Bytes, Verifies;
    PieceBounds(p, k);
    PieceFields(le, p, k);
    RewrittenSays(le, p.headers.ip, IdAt(le, p.headers, k),
                  (Pieces(p)[k].pos.mappedLen + TcpIpSize(p.headers)) % 0x1_0000);
  }

  lemma SeedSays(le: bool, p: Skb, k: nat)
    requires ValidSkb(p) && p.headers.kind.Tcp? && ValidHeaders(p.headers)
    requires HeaderSize(p.headers) <= |p.linear| && |Bytes(p)| - IphOffset(p.headers) <= 0xFFFF
    requires k < |Pieces(p)|
    ensures AllInPacket(p, Pieces(p)[k].sg) && 4 * p.headers.tcpWords + |Gather(p, Pieces(p)[k].sg)| <= 0xFFFF
    ensures var slot := HeaderAt(le, p, k);
            slot.tcp.check == Seed(le, slot.ip, 4 * p.headers.tcpWords + |Gather(p, Pieces(p)[k].sg)|)
  {
    hide Chop, Gather, Rewritten, Htons, Seed, Bytes;
    PieceBounds(p, k);
    SeedIsKept(le, p.headers.ip, HeaderAt(le, p, k).ip, 4 * p.headers.tcpWords + Pieces(p)[k].pos.mappedLen);
  }

  lemma HeaderPrefix(p: Skb, n: nat)
    requires n <= |p.linear|
    ensures Bytes(p)[..n] == p.linear[..n]
  {
  }

  /** Rewriting leaves the words the seed is made of. */
  lemma SeedIsKept(le: bool, ip: seq<uint16>, ip': seq<uint16>, length: uint16)
    requires |ip| == |ip'| >= 10 && forall i | 6 <= i < 10 :: ip[i] == ip'[i]
    ensures Seed(le, ip, length) == Seed(le, ip', length)
  {
    assert ip[6..10] == ip'[6..10];
  }

  // ----- what the device makes of the seed -----

  /** The device sums the segment, seed included, and stores the complement in place of the seed. */
  function SeedCompleted(segment: seq<uint16>, i: nat): seq<uint16>
    requires i < |segment|
  {
    segment[i := 0xFFFF - OnesSum(segment)]
  }

  /** Whatever the words of a segment are, if its checksum word holds the seed, the completed segment
      verifies together with its pseudo header. */
  lemma SeedCompletes(le: bool, ip: seq<uint16>, length: uint16, segment: seq<uint16>, i: nat)
    requires |ip| >= 10 && i < |segment| && segment[i] == Seed(le, ip, length)
    ensures Verifies(PseudoHeader(le, ip, length) + SeedCompleted(segment, i))
  {
    hide Total;
    var pseudo := PseudoHeader(le, ip, length);
    var t, s := Total(pseudo), Total(segment);
    var c := 0xFFFF - OnesSum(segment);
    OnesSumIsNormal(pseudo);
    OnesSumIsNormal(segment);
    TotalUpdate(segment, i, c);
    TotalConcat(pseudo, SeedCompleted(segment, i));
    var all := Total(pseudo + SeedCompleted(segment, i));
    assert all == (t - Normal(t)) + (s - Normal(s)) + 0xFFFF;
    Multiples(t - Normal(t), s - Normal(s));
    Multiples((t - Normal(t)) + (s - Normal(s)), 0xFFFF);
    VerifiesExactly(pseudo + SeedCompleted(segment, i));
  }

  // ----- the pieces -----

  /** The entries of a chopped packet. */
  function Pieces(p: Skb): seq<Mapped>
    requires ValidSkb(p) && HeaderSize(p.headers) <= |p.linear|
  {
    Chop(p, StartPos(p, HeaderSize(p.headers)))
  }

  lemma PieceBounds(p: Skb, k: nat)
    requires ValidSkb(p) && HeaderSize(p.headers) <= |p.linear| && k < |Pieces(p)|
    ensures var ms := Pieces(p);
            && Before(ms, k + 1) == Before(ms, k) + ms[k].pos.mappedLen <= |Bytes(p)| - HeaderSize(p.headers)
            && AllInPacket(p, ms[k].sg) && ms[k].pos.mappedLen == |Gather(p, ms[k].sg)|
            && (ms[k].eop <==> k == |ms| - 1)
  {
    hide Chop, Gather, Remaining;
    RemainingAtStart(p, HeaderSize(p.headers));
    ChopTiles(p, StartPos(p, HeaderSize(p.headers)), k);
    ChopEop(p, StartPos(p, HeaderSize(p.headers)), k);
  }

  lemma RemainingAtStart(p: Skb, headerSize: nat)
    requires headerSize <= |p.linear|
    ensures Remaining(p, StartPos(p, headerSize)) == Bytes(p)[headerSize..]
    ensures !CapsLinear(p, StartPos(p, headerSize))
  {
  }

  lemma RelativeSeq(first: uint32, off: uint32)
    ensures ((first + off) % 0x1_0000_0000 - first) % 0x1_0000_0000 == off
  {
  }

  // ----- reassembly -----

  datatype Segment = Segment(seqNo: uint32, payload: seq<byte>)

  /** The segments of a chopped packet, one for each entry; the device splits those marked for segmentation
      further. The module HeaderBytes finds them in the frames it reads. */
  function WireSegments(p: Skb, pos: MapPos): (segs: seq<Segment>)
    requires ValidSkb(p) && Resumable(p, pos) && !CapsLinear(p, pos)
    ensures |segs| == |Chop(p, pos)|
  {
    var ms := Chop(p, pos);
    seq(|ms|, k requires 0 <= k < |ms| =>
      ChopTiles(p, pos, k); Segment(SeqAt(p.headers, ms, k), Gather(p, ms[k].sg)))
  }

  function Placed(buf: seq<Option<byte>>, off: nat, payload: seq<byte>): (r: seq<Option<byte>>)
    ensures |r| == |buf|
  {
    seq(|buf|, i requires 0 <= i < |buf| => if off <= i < off + |payload| then Some(payload[i - off]) else buf[i])
  }

  predicate AllBelow(arrivals: seq<nat>, n: nat) {
    forall j | 0 <= j < |arrivals| :: arrivals[j] < n
  }

  /** A receiver that puts every arriving payload where its sequence number says. */
  function Received(first: uint32, n: nat, segs: seq<Segment>, arrivals: seq<nat>): (buf: seq<Option<byte>>)
    requires AllBelow(arrivals, |segs|)
    ensures |buf| == n
  {
    if arrivals == [] then seq(n, i => None)
    else
      var last := |arrivals| - 1;
      var s := segs[arrivals[last]];
      Placed(Received(first, n, segs, arrivals[..last]), (s.seqNo - first) % 0x1_0000_0000, s.payload)
  }

  /** Some arrived piece covers position i. */
  predicate Covered(ms: seq<Mapped>, arrivals: seq<nat>, i: nat)
    requires AllBelow(arrivals, |ms|)
  {
    exists j | 0 <= j < |arrivals| :: Covers(ms, arrivals[j], i)
  }

  predicate Covers(ms: seq<Mapped>, k: nat, i: nat)
    requires k < |ms|
  {
    Before(ms, k) <= i < Before(ms, k + 1)
  }

  /** Whatever subset of the segments has arrived, in whatever order and however often, a position is
      filled exactly when the segment that covers it has arrived, and then with the packet's byte. */
  lemma {:induction false} ReceivedSoFar(p: Skb, pos: MapPos, arrivals: seq<nat>, i: nat)
    requires ValidSkb(p) && Resumable(p, pos) && !CapsLinear(p, pos)
    requires |Remaining(p, pos)| < 0x1_0000_0000 && i < |Remaining(p, pos)|
    requires AllBelow(arrivals, |Chop(p, pos)|)
    ensures var ms, all := Chop(p, pos), Remaining(p, pos);
            Received(p.headers.tcp.seqNo, |all|, WireSegments(p, pos), arrivals)[i]
              == if Covered(ms, arrivals, i) then Some(all[i]) else None
    decreases |arrivals|
  {
    hide Chop, Gather, Remaining, Before, MapEntry;
    if arrivals != [] {
      hide Covers, Covered, WireSegments, Placed;
      var last := |arrivals| - 1;
      var k := arrivals[last];
      var ms := Chop(p, pos);
      ReceivedSoFar(p, pos, arrivals[..last], i);
      CoveredStep(ms, arrivals, i);
      ArrivalPlaced(p, pos, Received(p.headers.tcp.seqNo, |Remaining(p, pos)|, WireSegments(p, pos), arrivals[..last]), k, i);
    }
  }

  lemma CoveredStep(ms: seq<Mapped>, arrivals: seq<nat>, i: nat)
    requires arrivals != [] && AllBelow(arrivals, |ms|)
    ensures var last := |arrivals| - 1;
            Covered(ms, arrivals, i) <==> Covered(ms, arrivals[..last], i) || Covers(ms, arrivals[last], i)
  {
    hide Covers;
    var last := |arrivals| - 1;
    assert forall j | 0 <= j < last :: arrivals[..last][j] == arrivals[j];
  }

  /** An arriving segment fills exactly the positions it covers, with the packet's bytes. */
  lemma ArrivalPlaced(p: Skb, pos: MapPos, buf: seq<Option<byte>>, k: nat, i: nat)
    requires ValidSkb(p) && Resumable(p, pos) && !CapsLinear(p, pos) && k < |Chop(p, pos)|
    requires i < |buf| == |Remaining(p, pos)| < 0x1_0000_0000
    ensures var s := WireSegments(p, pos)[k];
            Placed(buf, (s.seqNo - p.headers.tcp.seqNo) % 0x1_0000_0000, s.payload)[i]
              == if Covers(Chop(p, pos), k, i) then Some(Remaining(p, pos)[i]) else buf[i]
  {
    hide Chop, Gather, Remaining, Before;
    ChopTiles(p, pos, k);
    RelativeSeq(p.headers.tcp.seqNo, Before(Chop(p, pos), k));
  }

  /** Reassembly: once every segment has arrived at least once, in any order, the receiver holds exactly
      the bytes of the packet after its headers. */
  lemma SegmentsReassemble(p: Skb, arrivals: seq<nat>)
    requires ValidSkb(p) && HeaderSize(p.headers) <= |p.linear| && |Bytes(p)| < 0x1_0000_0000
    requires AllBelow(arrivals, |Pieces(p)|) && forall a | 0 <= a < |Pieces(p)| :: a in arrivals
    ensures var pos, all := StartPos(p, HeaderSize(p.headers)), Bytes(p)[HeaderSize(p.headers)..];
            Received(p.headers.tcp.seqNo, |all|, WireSegments(p, pos), arrivals)
              == seq(|all|, i requires 0 <= i < |all| => Some(all[i]))
  {
    hide Chop, Gather, Remaining, Received, WireSegments;
    var pos := StartPos(p, HeaderSize(p.headers));
    RemainingAtStart(p, HeaderSize(p.headers));
    var ms := Chop(p, pos);
    ChopTotal(p, pos);
    forall i | 0 <= i < |Remaining(p, pos)|
      ensures Received(p.headers.tcp.seqNo, |Remaining(p, pos)|, WireSegments(p, pos), arrivals)[i]
           == Some(Remaining(p, pos)[i])
    {
      ReceivedSoFar(p, pos, arrivals, i);
      var k := CoveringPiece(ms, |ms|, i);
      assert k in arrivals;
      var j :| 0 <= j < |arrivals| && arrivals[j] == k;
      assert Covers(ms, arrivals[j], i);
    }
  }

  /** Every position is covered by some piece. */
  lemma {:induction false} CoveringPiece(ms: seq<Mapped>, n: nat, i: nat) returns (k: nat)
    requires n <= |ms| && i < Before(ms, n)
    ensures k < n && Covers(ms, k, i)
  {
    if i >= Before(ms, n - 1) {
      k := n - 1;
    } else {
      k := CoveringPiece(ms, n - 1, i);
    }
  }
}
