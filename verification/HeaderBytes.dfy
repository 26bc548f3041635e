/** The bytes a header-copy slot holds, and that the frames made of a slot and the gathered bytes are the
    packet itself, or for a chopped packet its segments with checksums that verify. */
module HeaderBytes {
  import opened MachineInts
  import opened OnesComplement
  import opened IcmpChecksum
  import opened Packet
  import opened TxMap
  import opened TxChop
  import opened Segmentation
  import opened TxRing
  import opened TxDriver
  import opened TxSafety
  import opened TxRuns
  import opened TxDelivery

  // ----- words and fields as bytes -----

  function WordBytes(le: bool, ws: seq<uint16>): (bs: seq<byte>)
    ensures |bs| == 2 * |ws|
  {
    if ws == [] then [] else HostBytes(le, ws[0]) + WordBytes(le, ws[1..])
  }

  lemma {:induction false} WordsOfBytes(le: bool, ws: seq<uint16>)
    ensures Words(le, WordBytes(le, ws)) == ws
  {
    if ws != [] {
      WordsOfBytes(le, ws[1..]);
      assert WordBytes(le, ws)[2..] == WordBytes(le, ws[1..]);
      assert Word(le, HostBytes(le, ws[0])[0], HostBytes(le, ws[0])[1]) == ws[0];
    }
  }

  lemma {:induction false} BytesOfWords(le: bool, bs: seq<byte>)
    requires |bs| % 2 == 0
    ensures |Words(le, bs)| == |bs| / 2 && WordBytes(le, Words(le, bs)) == bs
  {
    if bs != [] {
      BytesOfWords(le, bs[2..]);
      assert HostBytes(le, Word(le, bs[0], bs[1])) == bs[..2];
      assert Words(le, bs)[1..] == Words(le, bs[2..]);
    }
  }

  function Load32(b0: byte, b1: byte, b2: byte, b3: byte): uint32 {
    0x1_0000 * Word(false, b0, b1) + Word(false, b2, b3)
  }

  /** The TCP fields the driver reads, from the bytes of a TCP header. */
  function TcpFieldsOf(le: bool, t: seq<byte>): TcpFields
    requires |t| >= 20
  {
    TcpFields(Load32(t[4], t[5], t[6], t[7]),
              t[13] % 2 == 1, t[13] / 8 % 2 == 1, Load16(le, t, 16))
  }

  /** The flags byte with FIN and PSH set to given values. */
  function WithFlags(b: byte, fin: bool, psh: bool): byte {
    b / 16 * 16 + (if psh then 8 else 0) + b / 2 % 4 * 2 + (if fin then 1 else 0)
  }

  /** A TCP header with the given fields stored over it. */
  function TcpBytes(le: bool, t: seq<byte>, tcp: TcpFields): (r: seq<byte>)
    requires |t| >= 20
    ensures |r| == |t|
  {
    var hi, lo := tcp.seqNo / 0x1_0000, tcp.seqNo % 0x1_0000;
    Stored16(le, t[4 := HighByte(hi)][5 := LowByte(hi)][6 := HighByte(lo)][7 := LowByte(lo)]
                  [13 := WithFlags(t[13], tcp.fin, tcp.psh)], 16, tcp.check)
  }

  lemma FlagParts(r: byte, hi: int, psh: int, mid: int, fin: int)
    requires r == 16 * hi + 8 * psh + 2 * mid + fin && 0 <= psh < 2 && 0 <= mid < 4 && 0 <= fin < 2
    ensures r / 16 == hi && r / 8 % 2 == psh && r / 2 % 4 == mid && r % 2 == fin
  {
    assert r / 8 == 2 * hi + psh && r / 2 == 4 * (2 * hi + psh) + mid;
  }

  lemma FlagBits(b: byte)
    ensures b == 16 * (b / 16) + 8 * (b / 8 % 2) + 2 * (b / 2 % 4) + b % 2
  {
    assert b == 2 * (b / 2) + b % 2;
    assert b / 2 == 4 * (b / 8) + b / 2 % 4;
    assert b / 8 == 2 * (b / 16) + b / 8 % 2;
  }

  /** The flags byte gets the two flags and keeps its other bits. */
  lemma FlagsRoundTrip(b: byte, fin: bool, psh: bool)
    ensures var r := WithFlags(b, fin, psh);
            && (r % 2 == 1 <==> fin) && (r / 8 % 2 == 1 <==> psh) && r / 16 == b / 16 && r / 2 % 4 == b / 2 % 4
    ensures WithFlags(b, b % 2 == 1, b / 8 % 2 == 1) == b
  {
    FlagParts(WithFlags(b, fin, psh), b / 16, if psh then 1 else 0, b / 2 % 4, if fin then 1 else 0);
    FlagBits(b);
  }

  lemma HalfRoundTrip(w: uint16, hi: byte, lo: byte)
    ensures Word(false, HighByte(w), LowByte(w)) == w
    ensures HighByte(Word(false, hi, lo)) == hi && LowByte(Word(false, hi, lo)) == lo
  {
  }

  lemma SeqRoundTrip(n: uint32, b0: byte, b1: byte, b2: byte, b3: byte)
    ensures var hi, lo := n / 0x1_0000, n % 0x1_0000; Load32(HighByte(hi), LowByte(hi), HighByte(lo), LowByte(lo)) == n
    ensures var v := Load32(b0, b1, b2, b3);
            && HighByte(v / 0x1_0000) == b0 && LowByte(v / 0x1_0000) == b1
            && HighByte(v % 0x1_0000) == b2 && LowByte(v % 0x1_0000) == b3
  {
    hide HighByte, LowByte, Word;
    HalfRoundTrip(n / 0x1_0000, b0, b1);
    HalfRoundTrip(n % 0x1_0000, b2, b3);
    LowHalf(Load32(b0, b1, b2, b3), Word(false, b0, b1), Word(false, b2, b3));
  }

  lemma TcpRoundTrip(le: bool, t: seq<byte>, tcp: TcpFields)
    requires |t| >= 20
    ensures TcpFieldsOf(le, TcpBytes(le, t, tcp)) == tcp
    ensures TcpBytes(le, t, TcpFieldsOf(le, t)) == t
  {
    hide WithFlags, Load32;
    FlagsRoundTrip(t[13], tcp.fin, tcp.psh);
    SeqRoundTrip(tcp.seqNo, t[4], t[5], t[6], t[7]);
  }

  /** The bytes of a TCP header the driver writes into: sequence number, flags and checksum. */
  predicate FieldByte(i: int) {
    4 <= i < 8 || i == 13 || i == 16 || i == 17
  }

  /** Everything but the fields stays as it was. */
  lemma TcpKeepsRest(le: bool, t: seq<byte>, tcp: TcpFields)
    requires |t| >= 20
    ensures var r := TcpBytes(le, t, tcp);
            && (forall i | 0 <= i < |t| && !FieldByte(i) :: r[i] == t[i])
            && r[13] / 16 == t[13] / 16 && r[13] / 2 % 4 == t[13] / 2 % 4
  {
    hide WithFlags;
    FlagsRoundTrip(t[13], tcp.fin, tcp.psh);
  }

  // ----- a slot's bytes -----

  /** The slot holds complete TCP headers, so that fields can have been stored into them. */
  predicate HasFields(h: Headers, slot: HeaderSlot) {
    h.kind.Tcp? && h.tcpWords >= 5 && |slot.raw| == HeaderSize(h) && |slot.ip| == |h.ip|
  }

  function SlotBytes(le: bool, h: Headers, slot: HeaderSlot): (bs: seq<byte>)
    ensures |bs| == |slot.raw|
  {
    if HasFields(h, slot) then
      slot.raw[..IphOffset(h)] + WordBytes(le, slot.ip) + TcpBytes(le, slot.raw[TcphOffset(h)..], slot.tcp)
    else slot.raw
  }

  /** Reading the slot's bytes gives the fields stored there; the MAC header and the other bytes of the TCP
      header are those copied from the packet. */
  lemma SlotSays(le: bool, h: Headers, slot: HeaderSlot)
    requires HasFields(h, slot)
    ensures var bs := SlotBytes(le, h, slot);
            && bs[..IphOffset(h)] == slot.raw[..IphOffset(h)]
            && Words(le, bs[IphOffset(h)..TcphOffset(h)]) == slot.ip
            && TcpFieldsOf(le, bs[TcphOffset(h)..]) == slot.tcp
            && forall i | TcphOffset(h) <= i < |bs| && !FieldByte(i - TcphOffset(h)) :: bs[i] == slot.raw[i]
  {
    hide TcpBytes, TcpFieldsOf, WordBytes, Words;
    var t := slot.raw[TcphOffset(h)..];
    var bs := SlotBytes(le, h, slot);
    assert bs[IphOffset(h)..TcphOffset(h)] == WordBytes(le, slot.ip);
    assert bs[TcphOffset(h)..] == TcpBytes(le, t, slot.tcp);
    WordsOfBytes(le, slot.ip);
    TcpRoundTrip(le, t, slot.tcp);
    TcpKeepsRest(le, t, slot.tcp);
    forall i | TcphOffset(h) <= i < |bs| && !FieldByte(i - TcphOffset(h)) ensures bs[i] == slot.raw[i] {
      assert bs[i] == TcpBytes(le, t, slot.tcp)[i - TcphOffset(h)] && slot.raw[i] == t[i - TcphOffset(h)];
    }
  }

  /** The header fields are those found in the packet's bytes. */
  predicate ReadFrom(le: bool, h: Headers, bytes: seq<byte>) {
    h.kind.Tcp? && h.tcpWords >= 5 ==>
      && HeaderSize(h) <= |bytes|
      && h.ip == Words(le, bytes[IphOffset(h)..TcphOffset(h)])
      && h.tcp == TcpFieldsOf(le, bytes[TcphOffset(h)..HeaderSize(h)])
  }

  /** Storing the packet's own fields changes nothing. */
  lemma OwnFieldsChangeNothing(le: bool, h: Headers, raw: seq<byte>)
    requires ReadFrom(le, h, raw) || |raw| < HeaderSize(h)
    ensures SlotBytes(le, h, HeaderSlot(raw, h.ip, h.tcp)) == raw
  {
    if HasFields(h, HeaderSlot(raw, h.ip, h.tcp)) {
      hide TcpBytes, TcpFieldsOf, WordBytes, Words;
      assert raw[TcphOffset(h)..HeaderSize(h)] == raw[TcphOffset(h)..];
      BytesOfWords(le, raw[IphOffset(h)..TcphOffset(h)]);
      TcpRoundTrip(le, raw[TcphOffset(h)..], h.tcp);
    }
  }

  // ----- finding the headers -----

  const ETH_FRAME_TYPE_LOCATION := 12
  const ETH_TYPE_VLAN_TAG := 0x0081
  const ETH_TYPE_IP := 0x0008

  /** The frame type is VLAN; the constant is compared with what the host loads. */
  predicate HasVlanTag(le: bool, bytes: seq<byte>)
    requires |bytes| >= 14
  {
    Load16(le, bytes, ETH_FRAME_TYPE_LOCATION) == ETH_TYPE_VLAN_TAG
  }

  function IpStart(le: bool, bytes: seq<byte>): nat
    requires |bytes| >= 14
  {
    if HasVlanTag(le, bytes) then 18 else 14
  }

  predicate IsIpv4(le: bool, bytes: seq<byte>)
    requires |bytes| >= 14 && |bytes| >= IpStart(le, bytes)
  {
    || Load16(le, bytes, ETH_FRAME_TYPE_LOCATION) == ETH_TYPE_IP
    || (HasVlanTag(le, bytes) && Load16(le, bytes, ETH_FRAME_TYPE_LOCATION + 4) == ETH_TYPE_IP)
  }

  /** The frame is long enough for the headers it says it has. */
  predicate HoldsHeaders(le: bool, bytes: seq<byte>) {
    && |bytes| >= 14 && |bytes| >= IpStart(le, bytes)
    && (IsIpv4(le, bytes) ==>
          var iph := IpStart(le, bytes);
          && |bytes| >= iph + 20
          && var tcph := iph + bytes[iph] % 16 * 4;
             && |bytes| >= tcph
             && (bytes[iph + 9] == IPPROTO_TCP ==> |bytes| >= tcph + 20 && |bytes| >= tcph + bytes[tcph + 12] / 16 * 4))
  }

  /** The header fields as vmxnet_tx finds them in the packet's bytes. */
  function HeadersOf(le: bool, bytes: seq<byte>): Headers
    requires HoldsHeaders(le, bytes)
  {
    var vlan, iph := HasVlanTag(le, bytes), IpStart(le, bytes);
    var none := TcpFields(0, false, false, 0);
    if !IsIpv4(le, bytes) then Headers(NonIp(vlan), [], 0, none)
    else
      var tcph := iph + bytes[iph] % 16 * 4;
      var ip := Words(le, bytes[iph..tcph]);
      if bytes[iph + 9] != IPPROTO_TCP then Headers(OtherIp(vlan), ip, 0, none)
      else Headers(Tcp(vlan), ip, bytes[tcph + 12] / 16, TcpFieldsOf(le, bytes[tcph..tcph + 20]))
  }

  /** The header size computed from the offsets in the bytes. */
  function SizeIn(le: bool, bytes: seq<byte>): nat
    requires HoldsHeaders(le, bytes)
  {
    var iph := IpStart(le, bytes);
    if !IsIpv4(le, bytes) then iph
    else
      var tcph := iph + bytes[iph] % 16 * 4;
      if bytes[iph + 9] == IPPROTO_TCP then tcph + bytes[tcph + 12] / 16 * 4 else tcph
  }

  /** Headers found in a frame lie in it, have the size the offsets say, and are those stored in its bytes;
      a TCP frame's headers are usable exactly if its IP header has at least five words. */
  lemma HeadersOfExactly(le: bool, bytes: seq<byte>)
    requires HoldsHeaders(le, bytes)
    ensures var h := HeadersOf(le, bytes);
            && HeaderSize(h) == SizeIn(le, bytes) <= |bytes| && IphOffset(h) == IpStart(le, bytes)
            && ReadFrom(le, h, bytes)
            && (ValidHeaders(h) <==> (h.kind.Tcp? ==> bytes[IpStart(le, bytes)] % 16 >= 5))
  {
    hide HeadersOf, HoldsHeaders, ReadFrom, SizeIn;
    HeaderSizes(le, bytes);
    HeadersAreRead(le, bytes);
    HeadersAreUsable(le, bytes);
  }

  lemma HeaderSizes(le: bool, bytes: seq<byte>)
    requires HoldsHeaders(le, bytes)
    ensures |bytes| >= 14 && |bytes| >= IpStart(le, bytes)
    ensures var h := HeadersOf(le, bytes);
            HeaderSize(h) == SizeIn(le, bytes) <= |bytes| && IphOffset(h) == IpStart(le, bytes)
  {
    hide TcpFieldsOf, Words, Load16;
    if IsIpv4(le, bytes) {
      IpWords(le, bytes, IpStart(le, bytes), bytes[IpStart(le, bytes)] % 16);
    }
  }

  lemma HeadersAreUsable(le: bool, bytes: seq<byte>)
    requires HoldsHeaders(le, bytes)
    ensures HeadersOf(le, bytes).kind.Tcp? ==> |bytes| > IpStart(le, bytes)
    ensures var h := HeadersOf(le, bytes);
            ValidHeaders(h) <==> (h.kind.Tcp? ==> bytes[IpStart(le, bytes)] % 16 >= 5)
  {
    hide TcpFieldsOf, Words, Load16;
    if IsIpv4(le, bytes) {
      IpWords(le, bytes, IpStart(le, bytes), bytes[IpStart(le, bytes)] % 16);
    }
  }

  lemma HeadersAreRead(le: bool, bytes: seq<byte>)
    requires HoldsHeaders(le, bytes)
    ensures ReadFrom(le, HeadersOf(le, bytes), bytes)
  {
    hide TcpFieldsOf, Words, Load16;
    if IsIpv4(le, bytes) {
      var iph := IpStart(le, bytes);
      var tcph := iph + bytes[iph] % 16 * 4;
      IpWords(le, bytes, iph, bytes[iph] % 16);
      if bytes[iph + 9] == IPPROTO_TCP && bytes[tcph + 12] / 16 >= 5 {
        TcpPrefix(le, bytes, tcph, tcph + bytes[tcph + 12] / 16 * 4);
      }
    }
  }

  /** The frame type at a place, as its bytes on the wire. The driver's constants are the types as a little-endian
      host loads them; a big-endian one would look for the same bytes reversed. */
  predicate TypeAt(le: bool, bytes: seq<byte>, i: nat, first: byte, second: byte)
    requires i + 1 < |bytes|
  {
    if le then bytes[i] == first && bytes[i + 1] == second else bytes[i] == second && bytes[i + 1] == first
  }

  /** The kind of frame and the sizes of its headers, by its bytes: VLAN if the type is 81 00, IPv4 if the type is
      08 00 or that stands behind the VLAN tag, TCP if the protocol byte is 6. */
  lemma KindInBytes(le: bool, bytes: seq<byte>)
    requires HoldsHeaders(le, bytes)
    ensures var h := HeadersOf(le, bytes);
            && |bytes| >= 14 && (h.kind.vlan <==> TypeAt(le, bytes, 12, 0x81, 0))
            && (h.kind.vlan ==> |bytes| >= 18)
            && (!h.kind.NonIp? <==> TypeAt(le, bytes, 12, 8, 0) || (h.kind.vlan && TypeAt(le, bytes, 16, 8, 0)))
            && var iph := if h.kind.vlan then 18 else 14;
               if h.kind.NonIp? then HeaderSize(h) == iph
               else
                 && |bytes| >= iph + 20 && (h.kind.Tcp? <==> bytes[iph + 9] == 6)
                 && var tcph := iph + 4 * (bytes[iph] % 16);
                    if h.kind.Tcp? then tcph + 12 < |bytes| && HeaderSize(h) == tcph + 4 * (bytes[tcph + 12] / 16)
                    else HeaderSize(h) == tcph
  {
    hide TcpFieldsOf, Words;
    if IsIpv4(le, bytes) {
      IpWords(le, bytes, IpStart(le, bytes), bytes[IpStart(le, bytes)] % 16);
    }
  }

  lemma IpWords(le: bool, bytes: seq<byte>, iph: nat, ihl: nat)
    requires iph + ihl * 4 <= |bytes| && iph < |bytes| && (bytes[iph] == 0 ==> ihl == 0)
    ensures var ws := Words(le, bytes[iph..iph + ihl * 4]); |ws| == 2 * ihl && (ihl > 0 ==> ws[0] != 0)
  {
    hide Words;
    var part := bytes[iph..iph + ihl * 4];
    HalfOf(|part|, 2 * ihl);
    BytesOfWords(le, part);
    if ihl > 0 {
      FirstWord(le, part);
    }
  }

  lemma HalfOf(n: nat, k: nat)
    requires n == 2 * k
    ensures n % 2 == 0 && n / 2 == k
  {
  }

  lemma FirstWord(le: bool, bytes: seq<byte>)
    requires |bytes| >= 2
    ensures |Words(le, bytes)| >= 1 && (Words(le, bytes)[0] == 0 <==> bytes[0] == 0 && bytes[1] == 0)
  {
  }

  lemma TcpPrefix(le: bool, bytes: seq<byte>, i: nat, j: nat)
    requires i + 20 <= j <= |bytes|
    ensures TcpFieldsOf(le, bytes[i..i + 20]) == TcpFieldsOf(le, bytes[i..j])
  {
  }

  // ----- frames -----

  /** On the one-entry paths the copied headers followed by the gathered bytes are the packet. */
  lemma OneEntryIsWholePacket(cfg: Config, p: Skb, ringLength: nat, low: bool)
    requires ValidConfig(cfg) && Transmittable(cfg, ringLength, p) && cfg.copyHeaders
    requires PlanFor(cfg, p, true).OneEntry? && ReadFrom(cfg.le, p.headers, p.linear)
    ensures var es := Entries(cfg, p, PlanFor(cfg, p, true), low);
            && |es| == 1 && es[0].header.Some? && Readable(es)
            && SlotBytes(cfg.le, p.headers, es[0].header.value) + Delivered(es) == Bytes(p)
  {
    hide MapEntry, Delivered, TcpFieldsOf, Words, SlotBytes;
    var raw := p.linear[..HeaderBytes(cfg, p)];
    EntriesDeliver(cfg, p, ringLength, low);
    EntriesCarryHeaders(cfg, p, ringLength, low, 0);
    HeaderPrefix(p, |raw|);
    ReadFromPrefix(cfg.le, p.headers, p.linear, |raw|);
    OwnFieldsChangeNothing(cfg.le, p.headers, raw);
  }

  lemma ReadFromPrefix(le: bool, h: Headers, bytes: seq<byte>, n: nat)
    requires ReadFrom(le, h, bytes) && n <= |bytes| && n <= HeaderSize(h)
    ensures ReadFrom(le, h, bytes[..n]) || n < HeaderSize(h)
  {
    hide TcpFieldsOf, Words;
    if n == HeaderSize(h) && h.kind.Tcp? && h.tcpWords >= 5 {
      assert bytes[..n][IphOffset(h)..TcphOffset(h)] == bytes[IphOffset(h)..TcphOffset(h)];
      assert bytes[..n][TcphOffset(h)..HeaderSize(h)] == bytes[TcphOffset(h)..HeaderSize(h)];
    }
  }

  /** The frame the device reads for piece k. */
  function PieceFrame(le: bool, p: Skb, k: nat): seq<byte>
    requires Choppable(p) && k < |Pieces(p)|
  {
    PieceBounds(p, k);
    SlotBytes(le, p.headers, HeaderAt(le, p, k)) + Gather(p, Pieces(p)[k].sg)
  }

  const TCP_CHECK_WORD := 8

  /** The frame of every piece: the MAC header is the packet's, the IP header verifies if the packet's does,
      and once the device completes the TCP checksum from the seed, the segment verifies with its pseudo
      header. The last needs the datagram to be within its 65535-byte limit. */
  lemma PieceFrameVerifies(le: bool, p: Skb, k: nat)
    requires Choppable(p) && k < |Pieces(p)| && p.headers.tcpWords >= 5
    requires ReadFrom(le, p.headers, p.linear) && |Bytes(p)| - IphOffset(p.headers) <= 0xFFFF
    ensures var h, f := p.headers, PieceFrame(le, p, k);
            && HeaderSize(h) <= |f| <= IphOffset(h) + 0xFFFF
            && f[..IphOffset(h)] == Bytes(p)[..IphOffset(h)]
            && (Verifies(Words(le, f[IphOffset(h)..TcphOffset(h)])) <==>
                  Verifies(Words(le, Bytes(p)[IphOffset(h)..TcphOffset(h)])))
            && var ip, segment := Words(le, f[IphOffset(h)..TcphOffset(h)]), f[TcphOffset(h)..];
               && |ip| >= 10 && TCP_CHECK_WORD < |Words(le, segment)|
               && Verifies(PseudoHeader(le, ip, |segment|) + SeedCompleted(Words(le, segment), TCP_CHECK_WORD))
  {
    hide HeaderAt, Pieces, Gather, SlotBytes, TcpFieldsOf, Words, Verifies, Seed, PseudoHeader, Bytes, SeedCompleted;
    var h, slot, f := p.headers, HeaderAt(le, p, k), PieceFrame(le, p, k);
    var bs := SlotBytes(le, h, slot);
    PieceBounds(p, k);
    HeaderSays(le, p, k);
    PieceFields(le, p, k);
    HeaderPrefix(p, TcphOffset(h));
    HeaderPrefix(p, IphOffset(h));
    SlotSays(le, h, slot);
    assert f[IphOffset(h)..TcphOffset(h)] == bs[IphOffset(h)..TcphOffset(h)];
    assert f[..IphOffset(h)] == bs[..IphOffset(h)];
    assert Bytes(p)[IphOffset(h)..TcphOffset(h)] == p.linear[IphOffset(h)..TcphOffset(h)];
    SegmentSeed(le, h, slot, Gather(p, Pieces(p)[k].sg));
    SeedCompletes(le, slot.ip, |f[TcphOffset(h)..]|, Words(le, f[TcphOffset(h)..]), TCP_CHECK_WORD);
  }

  /** The checksum word of a segment is the seed in its slot. */
  lemma SegmentSeed(le: bool, h: Headers, slot: HeaderSlot, data: seq<byte>)
    requires HasFields(h, slot)
    ensures var ws := Words(le, (SlotBytes(le, h, slot) + data)[TcphOffset(h)..]);
            TCP_CHECK_WORD < |ws| && ws[TCP_CHECK_WORD] == slot.tcp.check
  {
    hide SlotBytes, Words;
    SlotSays(le, h, slot);
    PairsAt(le, (SlotBytes(le, h, slot) + data)[TcphOffset(h)..], false, TCP_CHECK_WORD);
    assert Words(le, (SlotBytes(le, h, slot) + data)[TcphOffset(h)..])
        == Pairs(le, (SlotBytes(le, h, slot) + data)[TcphOffset(h)..], false) by { WordsArePairs(le, (SlotBytes(le, h, slot) + data)[TcphOffset(h)..]); }
  }

  lemma WordsArePairs(le: bool, bs: seq<byte>)
    ensures Words(le, bs) == Pairs(le, bs, false)
  {
  }

  // ----- what a receiver finds in the frames -----

  lemma WordInjective(le: bool, a: byte, b: byte, c: byte, d: byte)
    requires Word(le, a, b) == Word(le, c, d)
    ensures a == c && b == d
  {
  }

  /** Equal words come from equal bytes. */
  lemma SameBytes(le: bool, a: seq<byte>, b: seq<byte>, i: nat)
    requires 2 * i + 1 < |a| == |b| && |Words(le, a)| == |Words(le, b)| > i && Words(le, a)[i] == Words(le, b)[i]
    ensures a[2 * i] == b[2 * i] && a[2 * i + 1] == b[2 * i + 1]
  {
    PairsAt(le, a, false, i);
    PairsAt(le, b, false, i);
    WordInjective(le, a[2 * i], a[2 * i + 1], b[2 * i], b[2 * i + 1]);
  }

  /** Two frames with the same MAC header, the same first and fifth IP word and the same TCP header length
      have their headers in the same places. */
  lemma SamePlaces(le: bool, a: seq<byte>, b: seq<byte>, iph: nat, tcph: nat)
    requires HoldsHeaders(le, a) && HeadersOf(le, a).kind.Tcp? && iph == IpStart(le, a)
    requires tcph == iph + a[iph] % 16 * 4 && SizeIn(le, a) <= |b| && tcph + 20 <= |b| && iph + 20 <= tcph
    requires a[..iph] == b[..iph] && a[iph] == b[iph] && a[iph + 9] == b[iph + 9] && a[tcph + 12] == b[tcph + 12]
    ensures HoldsHeaders(le, b)
    ensures HeadersOf(le, b) == Headers(HeadersOf(le, a).kind, Words(le, b[iph..tcph]), HeadersOf(le, a).tcpWords,
                                        TcpFieldsOf(le, b[tcph..tcph + 20]))
  {
    hide Words, TcpFieldsOf;
    assert forall i | 0 <= i < iph :: a[i] == a[..iph][i] && b[i] == b[..iph][i];
  }

  /** Whoever looks for headers in the frame of piece k finds those of the packet, with the piece's own IP
      words and TCP fields. */
  lemma PieceFrameParses(le: bool, p: Skb, k: nat)
    requires Choppable(p) && k < |Pieces(p)| && p.headers.tcpWords >= 5
    requires HoldsHeaders(le, p.linear) && p.headers == HeadersOf(le, p.linear)
    ensures var f, slot := PieceFrame(le, p, k), HeaderAt(le, p, k);
            HoldsHeaders(le, f) && HeadersOf(le, f) == p.headers.(ip := slot.ip, tcp := slot.tcp)
  {
    hide HeaderAt, Pieces, Gather, SlotBytes, TcpFieldsOf, Words, HeadersOf, HoldsHeaders, SizeIn, Rewritten;
    var h, slot, f := p.headers, HeaderAt(le, p, k), PieceFrame(le, p, k);
    var bs := SlotBytes(le, h, slot);
    PieceBounds(p, k);
    PieceFields(le, p, k);
    SlotSays(le, h, slot);
    HeaderSizes(le, p.linear);
    HeadersAreRead(le, p.linear);
    OffsetsAre(le, p.linear);
    assert f[IphOffset(h)..TcphOffset(h)] == bs[IphOffset(h)..TcphOffset(h)];
    SameIpBytes(le, p.linear[IphOffset(h)..TcphOffset(h)], f[IphOffset(h)..TcphOffset(h)], h.ip, slot.ip);
    SamePrefix(p.linear, f, slot.raw, bs, IphOffset(h), TcphOffset(h));
    SamePlaces(le, p.linear, f, IphOffset(h), TcphOffset(h));
    assert f[TcphOffset(h)..TcphOffset(h) + 20] == bs[TcphOffset(h)..][..20];
    TcpPrefix(le, bs[TcphOffset(h)..], 0, HeaderSize(h) - TcphOffset(h));
    assert bs[TcphOffset(h)..][0..20] == bs[TcphOffset(h)..][..20];
    assert bs[TcphOffset(h)..][0..HeaderSize(h) - TcphOffset(h)] == bs[TcphOffset(h)..];
  }

  lemma OffsetsAre(le: bool, bytes: seq<byte>)
    requires HoldsHeaders(le, bytes) && HeadersOf(le, bytes).kind.Tcp?
    ensures |bytes| >= 14 && IpStart(le, bytes) < |bytes|
    ensures var h := HeadersOf(le, bytes);
            && IphOffset(h) == IpStart(le, bytes) && TcphOffset(h) == IpStart(le, bytes) + bytes[IpStart(le, bytes)] % 16 * 4
            && HeaderSize(h) == SizeIn(le, bytes)
  {
    hide TcpFieldsOf, Words, Load16;
    IpWords(le, bytes, IpStart(le, bytes), bytes[IpStart(le, bytes)] % 16);
  }

  lemma SameIpBytes(le: bool, a: seq<byte>, b: seq<byte>, ip: seq<uint16>, ip': seq<uint16>)
    requires |a| == |b| && |a| >= 20 && Words(le, a) == ip && Words(le, b) == ip' && |ip| == |ip'| >= 10
    requires ip[0] == ip'[0] && ip[4] == ip'[4]
    ensures a[0] == b[0] && a[9] == b[9]
  {
    hide Words;
    SameBytes(le, a, b, 0);
    SameBytes(le, a, b, 4);
  }

  lemma SamePrefix(linear: seq<byte>, f: seq<byte>, raw: seq<byte>, bs: seq<byte>, iph: nat, tcph: nat)
    requires |raw| == |bs| && iph <= tcph && tcph + 20 <= |raw| <= |linear| && |bs| <= |f|
    requires raw == linear[..|raw|] && bs == f[..|bs|] && bs[..iph] == raw[..iph]
    requires forall i | tcph <= i < |bs| && !FieldByte(i - tcph) :: bs[i] == raw[i]
    ensures f[..iph] == linear[..iph] && f[tcph + 12] == linear[tcph + 12]
  {
    assert bs[tcph + 12] == raw[tcph + 12];
    assert f[..iph] == bs[..iph] && linear[..iph] == raw[..iph];
  }

  // ----- the frames in plain bytes -----

  /** Two bytes as a number, the first one high: the order of the network. */
  function Num16(bytes: seq<byte>, i: nat): nat
    requires i + 1 < |bytes|
  {
    0x100 * (bytes[i] as int) + bytes[i + 1]
  }

  function Num32(bytes: seq<byte>, i: nat): nat
    requires i + 3 < |bytes|
  {
    0x1_0000 * Num16(bytes, i) + Num16(bytes, i + 2)
  }

  /** Conversion gives the number the two bytes spell in network order, on either host. */
  lemma HtonsIsNumber(le: bool, b0: byte, b1: byte)
    ensures Htons(le, Word(le, b0, b1)) == 0x100 * (b0 as int) + b1
  {
    if le {
      var w: int := Word(true, b0, b1);
      LowHalf8(w, b1, b0);
    }
  }

  lemma LowHalf8(w: int, q: byte, r: byte)
    requires w == 0x100 * (q as int) + r
    ensures w / 0x100 == q && w % 0x100 == r
  {
  }

  /** The word at an even place of the bytes, converted, is the number there. */
  lemma WordIsNumber(le: bool, bytes: seq<byte>, i: nat, ws: seq<uint16>)
    requires ws == Words(le, bytes) && 2 * i + 1 < |bytes|
    ensures i < |ws| && Htons(le, ws[i]) == Num16(bytes, 2 * i)
  {
    hide Htons, Word;
    PairsAt(le, bytes, false, i);
    HtonsIsNumber(le, bytes[2 * i], bytes[2 * i + 1]);
  }

  lemma NumAt(all: seq<byte>, from: nat, to: nat, i: nat)
    requires from + i + 1 < to <= |all|
    ensures Num16(all[from..to], i) == Num16(all, from + i)
  {
  }

  /** The places in a piece's frame that differ from the packet: length, identifier and checksum of the IP
      header, sequence number, flags and checksum of the TCP header. */
  predicate Rewrites(iph: nat, tcph: nat, i: nat) {
    || iph + 2 <= i < iph + 6 || iph + 10 <= i < iph + 12
    || tcph + 4 <= i < tcph + 8 || i == tcph + 13 || tcph + 16 <= i < tcph + 18
  }

  /** In the bytes of a frame f made of the packet b: the total length is that of the frame from the IP header
      on, the identifier is the packet's plus k. */
  predicate IpNumbers(f: seq<byte>, b: seq<byte>, iph: nat, k: nat) {
    && iph + 20 <= |f| && iph + 20 <= |b|
    && Num16(f, iph + 2) == |f| - iph
    && Num16(f, iph + 4) == (Num16(b, iph + 4) + k) % 0x1_0000
  }

  lemma IpNumbersOf(le: bool, f: seq<byte>, b: seq<byte>, iph: nat, tcph: nat, ip': seq<uint16>, ip: seq<uint16>, k: nat)
    requires iph + 20 <= tcph <= |f| && tcph <= |b| && |ip'| >= 10 && |ip| >= 10
    requires Words(le, f[iph..tcph]) == ip' && Words(le, b[iph..tcph]) == ip
    requires Htons(le, ip'[TOT_LEN]) == |f| - iph && Htons(le, ip'[ID]) == (Htons(le, ip[ID]) + k) % 0x1_0000
    ensures IpNumbers(f, b, iph, k)
  {
    hide Words, Htons, Num16;
    WordIsNumber(le, f[iph..tcph], TOT_LEN, ip');
    WordIsNumber(le, f[iph..tcph], ID, ip');
    WordIsNumber(le, b[iph..tcph], ID, ip);
    NumAt(f, iph, tcph, 2);
    NumAt(f, iph, tcph, 4);
    NumAt(b, iph, tcph, 4);
  }

  /** The IP header of every piece's frame, in its bytes. */
  lemma PieceIpBytes(le: bool, p: Skb, k: nat)
    requires Choppable(p) && k < |Pieces(p)| && p.headers.tcpWords >= 5
    requires ReadFrom(le, p.headers, p.linear) && |Bytes(p)| - IphOffset(p.headers) <= 0xFFFF
    ensures IpNumbers(PieceFrame(le, p, k), Bytes(p), IphOffset(p.headers), k)
  {
    hide HeaderAt, Pieces, Gather, SlotBytes, TcpFieldsOf, Words, Htons, Bytes, Verifies, Seed, IpNumbers;
    var h, slot, f := p.headers, HeaderAt(le, p, k), PieceFrame(le, p, k);
    var iph, tcph := IphOffset(h), TcphOffset(h);
    PieceBounds(p, k);
    PieceFields(le, p, k);
    HeaderSays(le, p, k);
    SlotSays(le, h, slot);
    HeaderPrefix(p, tcph);
    PrefixSlice(Bytes(p), p.linear, iph, tcph);
    assert f[iph..tcph] == SlotBytes(le, h, slot)[iph..tcph];
    IpNumbersOf(le, f, Bytes(p), iph, tcph, slot.ip, h.ip, k);
  }

  lemma PrefixSlice(b: seq<byte>, linear: seq<byte>, i: nat, j: nat)
    requires i <= j <= |linear| && j <= |b| && b[..j] == linear[..j]
    ensures b[i..j] == linear[i..j]
  {
    assert b[i..j] == b[..j][i..] && linear[i..j] == linear[..j][i..];
  }

  /** In the bytes of a frame f made of the packet b: the sequence number is the packet's plus an offset, FIN and
      PSH are the packet's in the last frame and clear in the others, the other flags are the packet's. */
  predicate TcpNumbers(f: seq<byte>, b: seq<byte>, tcph: nat, offset: nat, last: bool) {
    && tcph + 20 <= |f| && tcph + 20 <= |b|
    && Num32(f, tcph + 4) == (Num32(b, tcph + 4) + offset) % 0x1_0000_0000
    && f[tcph + 13] % 2 == (if last then b[tcph + 13] % 2 else 0)
    && f[tcph + 13] / 8 % 2 == (if last then b[tcph + 13] / 8 % 2 else 0)
    && f[tcph + 13] / 2 % 4 == b[tcph + 13] / 2 % 4 && f[tcph + 13] / 16 == b[tcph + 13] / 16
  }

  lemma TcpNumbersOf(le: bool, f: seq<byte>, b: seq<byte>, tcph: nat, size: nat, tcp: TcpFields, offset: nat, last: bool)
    requires tcph + 20 <= size <= |f| && size <= |b|
    requires f[tcph..size] == TcpBytes(le, b[tcph..size], tcp)
    requires var own := TcpFieldsOf(le, b[tcph..size]);
             && tcp.seqNo == (own.seqNo + offset) % 0x1_0000_0000
             && tcp.fin == (own.fin && last) && tcp.psh == (own.psh && last)
    ensures TcpNumbers(f, b, tcph, offset, last) && Load16(le, f, tcph + 16) == tcp.check
  {
    hide WithFlags, Num32, TcpFieldsOf, TcpBytes;
    var t, u := f[tcph..size], b[tcph..size];
    TcpRoundTrip(le, u, tcp);
    FieldsInBytes(le, t);
    FieldsInBytes(le, u);
    TcpFlags(le, u, tcp);
    FieldsAt(f, tcph, size);
    FieldsAt(b, tcph, size);
  }

  /** The TCP header of every piece's frame, in its bytes; the checksum is the seed of the frame's own length. */
  lemma PieceTcpBytes(le: bool, p: Skb, k: nat)
    requires Choppable(p) && k < |Pieces(p)| && p.headers.tcpWords >= 5
    requires ReadFrom(le, p.headers, p.linear) && |Bytes(p)| - IphOffset(p.headers) <= 0xFFFF
    ensures TcpNumbers(PieceFrame(le, p, k), Bytes(p), TcphOffset(p.headers), Before(Pieces(p), k), k == |Pieces(p)| - 1)
    ensures var f, tcph := PieceFrame(le, p, k), TcphOffset(p.headers);
            && tcph + 20 <= |f| <= tcph + 0xFFFF && |HeaderAt(le, p, k).ip| >= 10
            && Load16(le, f, tcph + 16) == Seed(le, HeaderAt(le, p, k).ip, |f| - tcph)
  {
    hide HeaderAt, Pieces, Gather, SlotBytes, Words, Htons, Bytes, Verifies, Seed, TcpNumbers, TcpFieldsOf, TcpBytes,
         PieceFrame;
    var h, slot, f := p.headers, HeaderAt(le, p, k), PieceFrame(le, p, k);
    var tcph, size := TcphOffset(h), HeaderSize(h);
    PieceBounds(p, k);
    PieceFields(le, p, k);
    SeedSays(le, p, k);
    PieceTcpSlice(le, p, k);
    TcpNumbersOf(le, f, Bytes(p), tcph, size, slot.tcp, Before(Pieces(p), k), k == |Pieces(p)| - 1);
  }

  /** The TCP header of a piece's frame is the packet's with the slot's fields stored over it. */
  lemma PieceTcpSlice(le: bool, p: Skb, k: nat)
    requires Choppable(p) && k < |Pieces(p)| && p.headers.tcpWords >= 5
    ensures var f, tcph, size := PieceFrame(le, p, k), TcphOffset(p.headers), HeaderSize(p.headers);
            && tcph + 20 <= size <= |f| && size <= |Bytes(p)| && |f| == size + Pieces(p)[k].pos.mappedLen
            && f[tcph..size] == TcpBytes(le, Bytes(p)[tcph..size], HeaderAt(le, p, k).tcp)
            && Bytes(p)[tcph..size] == p.linear[tcph..size]
  {
    hide HeaderAt, Pieces, Gather, SlotBytes, Bytes, TcpBytes;
    var h, slot, f := p.headers, HeaderAt(le, p, k), PieceFrame(le, p, k);
    var tcph, size := TcphOffset(h), HeaderSize(h);
    PieceBounds(p, k);
    PieceFields(le, p, k);
    HeaderPrefix(p, size);
    PrefixSlice(Bytes(p), p.linear, tcph, size);
    SlotTcp(le, h, slot);
    assert f[tcph..size] == SlotBytes(le, h, slot)[tcph..];
    assert slot.raw[tcph..] == Bytes(p)[tcph..size];
  }

  lemma SlotTcp(le: bool, h: Headers, slot: HeaderSlot)
    requires HasFields(h, slot)
    ensures SlotBytes(le, h, slot)[TcphOffset(h)..] == TcpBytes(le, slot.raw[TcphOffset(h)..], slot.tcp)
  {
    hide TcpBytes, WordBytes;
  }

  lemma TcpFlags(le: bool, t: seq<byte>, tcp: TcpFields)
    requires |t| >= 20
    ensures TcpBytes(le, t, tcp)[13] / 16 == t[13] / 16 && TcpBytes(le, t, tcp)[13] / 2 % 4 == t[13] / 2 % 4
  {
    TcpKeepsRest(le, t, tcp);
  }

  lemma FieldsInBytes(le: bool, t: seq<byte>)
    requires |t| >= 20
    ensures var tcp := TcpFieldsOf(le, t);
            && tcp.seqNo == Num32(t, 4) && (tcp.fin <==> t[13] % 2 == 1) && (tcp.psh <==> t[13] / 8 % 2 == 1)
            && tcp.check == Load16(le, t, 16)
  {
  }

  lemma FieldsAt(all: seq<byte>, from: nat, to: nat)
    requires from + 20 <= to <= |all|
    ensures Num32(all[from..to], 4) == Num32(all, from + 4) && all[from..to][13] == all[from + 13]
    ensures all[from..to][16] == all[from + 16] && all[from..to][17] == all[from + 17]
  {
  }

  /** Every other byte of the headers is the packet's. */
  lemma PieceKeepsRest(le: bool, p: Skb, k: nat, i: nat)
    requires Choppable(p) && k < |Pieces(p)| && p.headers.tcpWords >= 5
    requires ReadFrom(le, p.headers, p.linear) && |Bytes(p)| - IphOffset(p.headers) <= 0xFFFF
    requires i < HeaderSize(p.headers) && !Rewrites(IphOffset(p.headers), TcphOffset(p.headers), i)
    ensures i < |PieceFrame(le, p, k)| && i < |Bytes(p)| && PieceFrame(le, p, k)[i] == Bytes(p)[i]
  {
    hide HeaderAt, Pieces, Gather, SlotBytes, TcpFieldsOf, Words, Htons, Bytes, Seed, Rewritten;
    var h, slot, f := p.headers, HeaderAt(le, p, k), PieceFrame(le, p, k);
    var iph, tcph, size := IphOffset(h), TcphOffset(h), HeaderSize(h);
    PieceBounds(p, k);
    PieceFields(le, p, k);
    SlotSays(le, h, slot);
    HeaderPrefix(p, size);
    var bs := SlotBytes(le, h, slot);
    assert f[i] == bs[i] && slot.raw[i] == Bytes(p)[..size][i];
    if i < iph {
      assert bs[..iph][i] == slot.raw[..iph][i];
    } else if i < tcph {
      var j := (i - iph) / 2;
      assert bs[iph..tcph][i - iph] == bs[i] && p.linear[iph..tcph][i - iph] == p.linear[i];
      SameBytes(le, bs[iph..tcph], p.linear[iph..tcph], j);
    }
  }

  lemma {:induction false} SwappedWordBytes(ws: seq<uint16>)
    ensures WordBytes(true, SwapAll(ws)) == WordBytes(false, ws)
  {
    if ws != [] {
      SwappedWordBytes(ws[1..]);
      assert SwapAll(ws)[1..] == SwapAll(ws[1..]);
      SwappedHostBytes(ws[0]);
    }
  }

  lemma SwappedHostBytes(w: uint16)
    ensures HostBytes(true, Swap(w)) == HostBytes(false, w)
  {
    BytesOf(w, w / 0x100, w % 0x100);
    BytesOf(Swap(w), w % 0x100, w / 0x100);
  }

  lemma SwappedStore(t: seq<byte>, off: nat, w: uint16)
    requires off + 1 < |t|
    ensures Stored16(true, t, off, Swap(w)) == Stored16(false, t, off, w)
  {
    BytesOf(w, w / 0x100, w % 0x100);
    BytesOf(Swap(w), w % 0x100, w / 0x100);
  }

  /** Headers found in the same bytes by hosts of either order are each other's with swapped words. */
  lemma HeadersSwap(h: Headers, g: Headers, bytes: seq<byte>)
    requires h.kind == g.kind && h.kind.Tcp? && h.tcpWords == g.tcpWords >= 5 && |h.ip| == |g.ip|
    requires ReadFrom(true, h, bytes) && ReadFrom(false, g, bytes)
    ensures h.ip == SwapAll(g.ip) && h.tcp.(check := g.tcp.check) == g.tcp
  {
    hide Words;
    SwappedPairs(bytes[IphOffset(h)..TcphOffset(h)]);
  }

  lemma SwappedSlot(h: Headers, g: Headers, slot: HeaderSlot, other: HeaderSlot)
    requires HasFields(h, slot) && HasFields(g, other) && h.kind == g.kind && h.tcpWords == g.tcpWords && |h.ip| == |g.ip|
    requires slot.raw == other.raw && slot.ip == SwapAll(other.ip)
    requires slot.tcp == other.tcp.(check := Swap(other.tcp.check))
    ensures SlotBytes(true, h, slot) == SlotBytes(false, g, other)
  {
    hide WordBytes, Stored16, WithFlags, Swap;
    SwappedWordBytes(other.ip);
    var t := slot.raw[TcphOffset(h)..];
    var hi, lo := slot.tcp.seqNo / 0x1_0000, slot.tcp.seqNo % 0x1_0000;
    SwappedStore(t[4 := HighByte(hi)][5 := LowByte(hi)][6 := HighByte(lo)][7 := LowByte(lo)]
                  [13 := WithFlags(t[13], slot.tcp.fin, slot.tcp.psh)], 16, other.tcp.check);
  }

  /** Hosts of either byte order, each finding the headers in the packet's bytes, produce the same frames. */
  lemma HostsAgree(p: Skb, g: Headers, k: nat)
    requires Choppable(p) && k < |Pieces(p)| && p.headers.tcpWords >= 5
    requires p.headers.kind == g.kind && p.headers.tcpWords == g.tcpWords && |p.headers.ip| == |g.ip|
    requires ReadFrom(true, p.headers, p.linear) && ReadFrom(false, g, p.linear)
    ensures var q := p.(headers := g);
            && Choppable(q) && Pieces(q) == Pieces(p)
            && PieceFrame(true, p, k) == PieceFrame(false, q, k)
  {
    hide Chop, Gather, SlotBytes, Words, TcpFieldsOf, Rewritten, Seed, Swap;
    var q := p.(headers := g);
    HeadersSwap(p.headers, g, p.linear);
    UsableAlike(p.headers, g);
    SameChop(p, g, StartPos(p, HeaderSize(g)));
    PieceBounds(p, k);
    SameGather(p, g, Pieces(p)[k].sg);
    SlotsSwap(p, g, k);
    SwappedSlot(p.headers, g, HeaderAt(true, p, k), HeaderAt(false, q, k));
  }

  lemma UsableAlike(h: Headers, g: Headers)
    requires ValidHeaders(h) && h.kind.Tcp? && h.ip == SwapAll(g.ip)
    ensures ValidHeaders(g)
  {
    SwapInvolution(g.ip[0]);
  }

  lemma SlotsSwap(p: Skb, g: Headers, k: nat)
    requires Choppable(p) && k < |Pieces(p)| && Choppable(p.(headers := g)) && Pieces(p.(headers := g)) == Pieces(p)
    requires p.headers.kind == g.kind && p.headers.tcpWords == g.tcpWords >= 5
    requires p.headers.ip == SwapAll(g.ip) && p.headers.tcp.(check := g.tcp.check) == g.tcp
    ensures var slot, other := HeaderAt(true, p, k), HeaderAt(false, p.(headers := g), k);
            && HasFields(p.headers, slot) && HasFields(g, other)
            && slot.raw == other.raw && slot.ip == SwapAll(other.ip)
            && slot.tcp == other.tcp.(check := Swap(other.tcp.check))
  {
    hide Chop, Rewritten, Seed, Swap;
    var m, h := Pieces(p)[k], p.headers;
    var id, len := IdAt(false, g, k), (m.pos.mappedLen + TcpIpSize(g)) % 0x1_0000;
    SwapInvolution(g.ip[ID]);
    RewrittenSwaps(g.ip, id, len);
    SeedSwaps(g.ip, (m.pos.mappedLen + 4 * g.tcpWords) % 0x1_0000);
  }

  /** The pseudo header of the TCP segment in a frame, in bytes: source and destination address, a zero byte, the
      protocol, and the length of the segment. */
  function PseudoBytes(f: seq<byte>, iph: nat, tcph: nat): (r: seq<byte>)
    requires iph + 20 <= |f| && tcph <= |f| <= tcph + 0xFFFF
    ensures |r| == 12
  {
    f[iph + 12..iph + 20] + [0, 6, (|f| - tcph) / 0x100, (|f| - tcph) % 0x100]
  }

  lemma PseudoInBytes(le: bool, ip: seq<byte>, length: uint16)
    requires |ip| >= 20
    ensures |Words(le, ip)| >= 10
    ensures Words(le, ip[12..20] + [0, 6, length / 0x100, length % 0x100]) == PseudoHeader(le, Words(le, ip), length)
  {
    hide Word, Htons;
    var tail := [0, 6, length / 0x100, length % 0x100];
    var bytes := ip[12..20] + tail;
    PairsAt(le, ip, false, 6);
    PairsAt(le, ip, false, 7);
    PairsAt(le, ip, false, 8);
    PairsAt(le, ip, false, 9);
    PairsAt(le, bytes, false, 0);
    PairsAt(le, bytes, false, 1);
    PairsAt(le, bytes, false, 2);
    PairsAt(le, bytes, false, 3);
    PairsAt(le, bytes, false, 4);
    PairsAt(le, bytes, false, 5);
    HtonsOfNumber(le, 6, 0, 6);
    HtonsOfNumber(le, length, length / 0x100, length % 0x100);
  }

  lemma HtonsOfNumber(le: bool, n: uint16, hi: byte, lo: byte)
    requires n == 0x100 * (hi as int) + lo
    ensures Htons(le, n) == Word(le, hi, lo)
  {
    HtonsIsNumber(le, hi, lo);
    HtonsInvolution(le, Word(le, hi, lo));
  }

  /** A frame after the device has completed its TCP checksum: the sum over the segment, seed included, is
      complemented and stored in place of the seed. */
  function CompletedFrame(le: bool, f: seq<byte>, tcph: nat): (r: seq<byte>)
    requires tcph + 18 <= |f|
    ensures |r| == |f|
  {
    f[..tcph] + Stored16(le, f[tcph..], 16, 0xFFFF - OnesSum(Words(le, f[tcph..])))
  }

  /** On the wire the TCP checksum of every piece's frame verifies: the pseudo header and the segment, as bytes,
      sum to all ones. */
  lemma CompletedFrameVerifies(le: bool, p: Skb, k: nat)
    requires Choppable(p) && k < |Pieces(p)| && p.headers.tcpWords >= 5
    requires ReadFrom(le, p.headers, p.linear) && |Bytes(p)| - IphOffset(p.headers) <= 0xFFFF
    ensures var iph, tcph, f := IphOffset(p.headers), TcphOffset(p.headers), PieceFrame(le, p, k);
            && iph + 20 <= tcph && tcph + 20 <= |f| <= tcph + 0xFFFF
            && var done := CompletedFrame(le, f, tcph);
               Verifies(Words(le, PseudoBytes(done, iph, tcph) + done[tcph..]))
  {
    hide HeaderAt, Pieces, Gather, SlotBytes, TcpFieldsOf, Words, Verifies, Seed, PseudoHeader, Bytes, SeedCompleted,
         PieceFrame, OnesSum, Stored16;
    var h, f := p.headers, PieceFrame(le, p, k);
    var iph, tcph := IphOffset(h), TcphOffset(h);
    PieceTcpBytes(le, p, k);
    PieceFrameVerifies(le, p, k);
    CompletedVerifies(le, f, iph, tcph);
  }

  lemma CompletedVerifies(le: bool, f: seq<byte>, iph: nat, tcph: nat)
    requires iph + 20 <= tcph && tcph + 20 <= |f| <= tcph + 0xFFFF
    requires var ip, segment := Words(le, f[iph..tcph]), f[tcph..];
             && |ip| >= 10 && 8 < |Words(le, segment)|
             && Verifies(PseudoHeader(le, ip, |segment|) + SeedCompleted(Words(le, segment), 8))
    ensures var done := CompletedFrame(le, f, tcph);
            Verifies(Words(le, PseudoBytes(done, iph, tcph) + done[tcph..]))
  {
    hide Words, Verifies, PseudoHeader, OnesSum, Stored16;
    var segment, done := f[tcph..], CompletedFrame(le, f, tcph);
    var c := 0xFFFF - OnesSum(Words(le, segment));
    var pseudo, stored := PseudoBytes(done, iph, tcph), Stored16(le, segment, 16, c);
    assert done[tcph..] == stored;
    assert pseudo == f[iph..tcph][12..20] + [0, 6, |segment| / 0x100, |segment| % 0x100] by {
      assert done[iph + 12..iph + 20] == f[iph..tcph][12..20];
    }
    PseudoInBytes(le, f[iph..tcph], |segment|);
    WordsOfStored(le, segment, c);
    WordsSplit(le, pseudo + stored, 6);
    assert (pseudo + stored)[..12] == pseudo && (pseudo + stored)[12..] == stored;
  }

  lemma WordsOfStored(le: bool, segment: seq<byte>, c: uint16)
    requires |segment| >= 20
    ensures 8 < |Words(le, segment)| && Words(le, Stored16(le, segment, 16, c)) == Words(le, segment)[8 := c]
  {
    hide Stored16, Pairs;
    WordsStore(le, segment, 8, c, false);
  }

  // ----- reassembly from frames -----

  /** The segment a receiver finds in a frame with headers like h. */
  function FrameSegment(le: bool, h: Headers, f: seq<byte>): Segment
    requires TcphOffset(h) + 20 <= HeaderSize(h) <= |f|
  {
    Segment(TcpFieldsOf(le, f[TcphOffset(h)..HeaderSize(h)]).seqNo, f[HeaderSize(h)..])
  }

  /** The sequence number in the bytes of frame k and the bytes after its headers are segment k. */
  lemma FrameIsSegment(le: bool, p: Skb, k: nat)
    requires Choppable(p) && k < |Pieces(p)| && p.headers.tcpWords >= 5
    ensures HeaderSize(p.headers) <= |PieceFrame(le, p, k)|
    ensures !CapsLinear(p, StartPos(p, HeaderSize(p.headers)))
    ensures FrameSegment(le, p.headers, PieceFrame(le, p, k)) == WireSegments(p, StartPos(p, HeaderSize(p.headers)))[k]
  {
    hide HeaderAt, Chop, Gather, SlotBytes, TcpFieldsOf, Words, Rewritten;
    var h, slot, f := p.headers, HeaderAt(le, p, k), PieceFrame(le, p, k);
    PieceBounds(p, k);
    PieceFields(le, p, k);
    SlotSays(le, h, slot);
    RemainingAtStart(p, HeaderSize(h));
    assert f[TcphOffset(h)..HeaderSize(h)] == SlotBytes(le, h, slot)[TcphOffset(h)..];
  }

  /** The frame the device reads at a look: the slot's bytes and what the gather list delivers. */
  function FrameRead(le: bool, p: Skb, look: Look): seq<byte>
    requires AllInPacket(p, if ValidEntry(look.entry) then Used(look.entry) else [])
  {
    SlotBytes(le, p.headers, look.header) + if ValidEntry(look.entry) then Gather(p, Used(look.entry)) else []
  }

  /** Reading an entry that holds piece k gives frame k. */
  lemma LookIsFrame(cfg: Config, p: Skb, k: nat, low: bool, look: Look)
    requires Choppable(p) && k < |Pieces(p)| && ReadsFilled(look, PieceEntry(cfg, p, k, low))
    ensures AllInPacket(p, Used(look.entry)) && FrameRead(cfg.le, p, look) == PieceFrame(cfg.le, p, k)
  {
    hide HeaderAt, Chop, Gather, SlotBytes, AllInPacket, ReadsFilled;
    PieceBounds(p, k);
    LookIsReadable(look, PieceEntry(cfg, p, k, low));
    LookHeader(look, PieceEntry(cfg, p, k, low));
  }

  lemma LookHeader(look: Look, f: Filled)
    requires ReadsFilled(look, f) && f.header.Some?
    ensures ValidEntry(look.entry) && look.header == f.header.value
  {
  }

  /** The looks found the pieces of a packet, one after the other. */
  ghost predicate FoundPieces(cfg: Config, p: Skb, low: bool, looks: seq<Look>)
    requires Choppable(p)
  {
    |looks| == |Pieces(p)| && forall k | 0 <= k < |looks| :: ReadsFilled(looks[k], PieceEntry(cfg, p, k, low))
  }

  /** The segments in the frames the device reads. */
  ghost function SegmentsRead(cfg: Config, p: Skb, low: bool, looks: seq<Look>): (segs: seq<Segment>)
    requires Choppable(p) && p.headers.tcpWords >= 5 && FoundPieces(cfg, p, low, looks)
    ensures |segs| == |looks|
  {
    seq(|looks|, k requires 0 <= k < |looks| =>
      LookIsFrame(cfg, p, k, low, looks[k]);
      FrameIsSegment(cfg.le, p, k);
      FrameSegment(cfg.le, p.headers, FrameRead(cfg.le, p, looks[k])))
  }

  lemma SegmentsReadAre(cfg: Config, p: Skb, low: bool, looks: seq<Look>)
    requires Choppable(p) && p.headers.tcpWords >= 5 && FoundPieces(cfg, p, low, looks)
    ensures !CapsLinear(p, StartPos(p, HeaderSize(p.headers)))
    ensures SegmentsRead(cfg, p, low, looks) == WireSegments(p, StartPos(p, HeaderSize(p.headers)))
  {
    hide Chop, WireSegments, ReadsFilled, FrameRead, FrameSegment, PieceFrame;
    RemainingAtStart(p, HeaderSize(p.headers));
    forall k | 0 <= k < |looks|
      ensures SegmentsRead(cfg, p, low, looks)[k] == WireSegments(p, StartPos(p, HeaderSize(p.headers)))[k]
    {
      LookIsFrame(cfg, p, k, low, looks[k]);
      FrameIsSegment(cfg.le, p, k);
    }
  }

  /** Reassembly from what the device reads: if the frames at its looks arrive at least once each, in any order,
      the receiver holds exactly the bytes of the packet after its headers. */
  lemma FramesReassemble(cfg: Config, p: Skb, low: bool, looks: seq<Look>, arrivals: seq<nat>)
    requires Choppable(p) && p.headers.tcpWords >= 5 && FoundPieces(cfg, p, low, looks)
    requires |Bytes(p)| < 0x1_0000_0000
    requires AllBelow(arrivals, |looks|) && forall a | 0 <= a < |looks| :: a in arrivals
    ensures var all := Bytes(p)[HeaderSize(p.headers)..];
            Received(p.headers.tcp.seqNo, |all|, SegmentsRead(cfg, p, low, looks), arrivals)
              == seq(|all|, i requires 0 <= i < |all| => Some(all[i]))
  {
    hide Chop, WireSegments, SegmentsRead, Received, ReadsFilled;
    SegmentsReadAre(cfg, p, low, looks);
    SegmentsReassemble(p, arrivals);
  }

  // ----- in a run -----

  lemma {:induction false} EntriesGrow(cfg: Config, s: TxState, a: seq<Event>, b: seq<Event>)
    requires ValidConfig(cfg) && ValidRing(s)
    ensures EntriesOf(cfg, s, a) <= EntriesOf(cfg, s, a + b)
    decreases |b|
  {
    if b == [] {
      assert a + b == a;
    } else {
      hide EntriesIn, Run;
      var n := |b| - 1;
      assert (a + b)[..|a + b| - 1] == a + b[..n];
      EntriesGrow(cfg, s, a, b[..n]);
    }
  }

  /** A packet is sent in pieces after the events `before`, and the device fetches them by the end of `after`. */
  ghost predicate SentAndFetched(cfg: Config, s: TxState, before: seq<Event>, p: Skb, ok: bool, after: seq<Event>)
    requires ValidConfig(cfg) && ValidRing(s)
  {
    && FateIn(cfg, Run(cfg, s, before), Xmit(p, ok)).Sent?
    && HeaderSize(p.headers) <= |p.linear| && PlanFor(cfg, p, true).Chopped? && Choppable(p)
    && |ReadIn(cfg, s, before + [Xmit(p, ok)] + after)| >= |EntriesOf(cfg, s, before)| + |Pieces(p)|
  }

  /** What the device found at the fetches of the packet's entries. */
  ghost function LooksFor(cfg: Config, s: TxState, before: seq<Event>, p: Skb, ok: bool, after: seq<Event>): seq<Look>
    requires ValidConfig(cfg) && ValidRing(s) && SentAndFetched(cfg, s, before, p, ok, after)
  {
    var first := |EntriesOf(cfg, s, before)|;
    ReadIn(cfg, s, before + [Xmit(p, ok)] + after)[first..first + |Pieces(p)|]
  }

  /** Those are the packet's pieces. */
  lemma RunFindsPieces(cfg: Config, s: TxState, before: seq<Event>, p: Skb, ok: bool, after: seq<Event>)
    requires ValidConfig(cfg) && Opened(s) && SentAndFetched(cfg, s, before, p, ok, after)
    ensures FoundPieces(cfg, p, RingIsLow(Run(cfg, s, before), EntryCount(cfg, p)),
                        LooksFor(cfg, s, before, p, ok, after))
  {
    hide Pieces, PieceEntries, FoundPieces, SameOrder, ReadIn, Run, EntriesIn, EntriesOf;
    var e, t := Xmit(p, ok), Run(cfg, s, before);
    var looks := ReadIn(cfg, s, before + [e] + after);
    RunPrefix(cfg, s, before, e, after);
    ChoppedEntries(cfg, t, p, ok);
    PiecesAmong(looks, EntriesOf(cfg, s, before + [e] + after), EntriesOf(cfg, s, before), EntriesIn(cfg, t, e));
    FoundFrom(cfg, p, RingIsLow(t, EntryCount(cfg, p)), LooksFor(cfg, s, before, p, ok, after));
  }

  lemma RunPrefix(cfg: Config, s: TxState, before: seq<Event>, e: Event, after: seq<Event>)
    requires ValidConfig(cfg) && Opened(s)
    ensures EntriesOf(cfg, s, before) + EntriesIn(cfg, Run(cfg, s, before), e) <= EntriesOf(cfg, s, before + [e] + after)
    ensures SameOrder(ReadIn(cfg, s, before + [e] + after), EntriesOf(cfg, s, before + [e] + after))
  {
    hide DriverInv, ReadIn, Run, EntriesIn, SameOrder, EntriesOf;
    var h := EveryRun(cfg, s, before + [e] + after);
    EntriesGrow(cfg, s, before + [e], after);
    OneMoreEvent(cfg, s, before, e);
  }

  lemma FoundFrom(cfg: Config, p: Skb, low: bool, looks: seq<Look>)
    requires Choppable(p) && |looks| == |Pieces(p)|
    requires forall k | 0 <= k < |looks| :: ReadsFilled(looks[k], PieceEntries(cfg, p, low)[k])
    ensures FoundPieces(cfg, p, low, looks)
  {
    hide Pieces, PieceEntry, ReadsFilled;
    forall k | 0 <= k < |looks| ensures ReadsFilled(looks[k], PieceEntry(cfg, p, k, low)) {
      assert PieceEntries(cfg, p, low)[k] == PieceEntry(cfg, p, k, low);
    }
  }

  lemma PiecesAmong(looks: seq<Look>, es: seq<Filled>, before: seq<Filled>, mine: seq<Filled>)
    requires SameOrder(looks, es) && before + mine <= es && |looks| >= |before| + |mine|
    ensures forall k | 0 <= k < |mine| :: ReadsFilled(looks[|before|..|before| + |mine|][k], mine[k])
  {
    hide ReadsFilled;
    forall k | 0 <= k < |mine| ensures ReadsFilled(looks[|before|..|before| + |mine|][k], mine[k]) {
      assert es[|before| + k] == mine[k];
      assert ReadsFilled(looks[|before| + k], es[|before| + k]);
    }
  }

  lemma OneMoreEvent(cfg: Config, s: TxState, before: seq<Event>, e: Event)
    requires ValidConfig(cfg) && ValidRing(s)
    ensures EntriesOf(cfg, s, before + [e]) == EntriesOf(cfg, s, before) + EntriesIn(cfg, Run(cfg, s, before), e)
  {
    hide EntriesIn, Run;
    assert (before + [e])[..|before|] == before;
  }

  lemma ChoppedEntries(cfg: Config, s: TxState, p: Skb, ok: bool)
    requires ValidConfig(cfg) && ValidRing(s) && FateIn(cfg, s, Xmit(p, ok)).Sent?
    requires HeaderSize(p.headers) <= |p.linear| && PlanFor(cfg, p, true).Chopped? && Choppable(p)
    ensures EntriesIn(cfg, s, Xmit(p, ok)) == PieceEntries(cfg, p, RingIsLow(s, EntryCount(cfg, p)))
  {
    hide PieceEntries, Available;
  }

  /** From the frames at these looks, arriving as listed, the receiver gets the packet's bytes after its headers. */
  ghost predicate Reassembled(cfg: Config, p: Skb, low: bool, looks: seq<Look>, arrivals: seq<nat>)
    requires Choppable(p) && p.headers.tcpWords >= 5
  {
    var all := Bytes(p)[HeaderSize(p.headers)..];
    && FoundPieces(cfg, p, low, looks) && AllBelow(arrivals, |looks|)
    && Received(p.headers.tcp.seqNo, |all|, SegmentsRead(cfg, p, low, looks), arrivals)
         == seq(|all|, i requires 0 <= i < |all| => Some(all[i]))
  }

  /** Hence every chopped packet sent in a run is reassembled from the frames the device reads in that run,
      whatever else happens before and after, and in whatever order and however often they arrive. */
  lemma RunReassembles(cfg: Config, s: TxState, before: seq<Event>, p: Skb, ok: bool, after: seq<Event>,
                       arrivals: seq<nat>)
    requires ValidConfig(cfg) && Opened(s) && SentAndFetched(cfg, s, before, p, ok, after)
    requires p.headers.tcpWords >= 5
    requires AllBelow(arrivals, |Pieces(p)|) && forall a | 0 <= a < |Pieces(p)| :: a in arrivals
    ensures Reassembled(cfg, p, RingIsLow(Run(cfg, s, before), EntryCount(cfg, p)),
                        LooksFor(cfg, s, before, p, ok, after), arrivals)
  {
    hide Chop, SegmentsRead, Received, FoundPieces, ReadIn, Run, EntriesOf, LooksFor;
    RunFindsPieces(cfg, s, before, p, ok, after);
    SentIsShort(cfg, Run(cfg, s, before), p, ok);
    FoundAll(cfg, p, RingIsLow(Run(cfg, s, before), EntryCount(cfg, p)), LooksFor(cfg, s, before, p, ok, after));
    FramesReassemble(cfg, p, RingIsLow(Run(cfg, s, before), EntryCount(cfg, p)),
                     LooksFor(cfg, s, before, p, ok, after), arrivals);
  }

  lemma FoundAll(cfg: Config, p: Skb, low: bool, looks: seq<Look>)
    requires Choppable(p) && FoundPieces(cfg, p, low, looks)
    ensures |looks| == |Pieces(p)|
  {
  }

  lemma SentIsShort(cfg: Config, s: TxState, p: Skb, ok: bool)
    requires ValidConfig(cfg) && ValidRing(s) && FateIn(cfg, s, Xmit(p, ok)).Sent?
    requires HeaderSize(p.headers) <= |p.linear| && PlanFor(cfg, p, true).Chopped?
    ensures |Bytes(p)| < 0x1_0000_0000 && Choppable(p)
  {
  }
}
