/** Socket buffers and the shared transmit ring entries that describe them to the device. */
module Packet {
  import opened MachineInts

  const PAGE_SIZE := 4096
  const MAX_LINEAR := 53248  // 13 * PAGE_SIZE
  const SG_LENGTH := 6

  /** The protocol headers of a frame, read as fields. `ip` holds the IP header as 16-bit words in
      the order and with the values the host loads. */
  datatype Headers = Headers(kind: FrameKind, ip: seq<uint16>, tcpWords: nat, tcp: TcpFields)

  datatype FrameKind = Tcp(vlan: bool) | OtherIp(vlan: bool) | NonIp(vlan: bool)

  datatype TcpFields = TcpFields(seqNo: uint32, fin: bool, psh: bool, check: uint16)

  /** A socket buffer: a linear part and page fragments. `tsoSize` 0 means no segmentation offload. */
  datatype Skb = Skb(id: nat, linear: seq<byte>, frags: seq<seq<byte>>, headers: Headers,
                     partialChecksum: bool, tsoSize: nat)

  /** Every fragment lies within one page. */
  predicate ValidSkb(p: Skb) {
    forall i | 0 <= i < |p.frags| :: |p.frags[i]| <= PAGE_SIZE
  }

  function Flat(frags: seq<seq<byte>>): seq<byte> {
    if frags == [] then [] else frags[0] + Flat(frags[1..])
  }

  /** The bytes of the frame in order. */
  function Bytes(p: Skb): seq<byte> {
    p.linear + Flat(p.frags)
  }

  /** A DMA address, by what it points at: a slot of the header-copy buffer, the linear part of the
      packet, or a fragment page of the packet. */
  datatype Addr = HeaderCopy(pos: nat) | Linear(offset: nat) | Page(frag: nat, offset: nat)

  datatype SgElem = SgElem(addr: Addr, length: uint16)

  datatype Ownership = Driver | DriverPending | Nic | NicPending

  datatype TxFlag = CanKeep | RingLow | HwXsum | Tso

  /** A transmit ring entry; the first sgLength elements of sg are in use. */
  datatype TxRingEntry = TxRingEntry(flags: set<TxFlag>, ownership: Ownership, tsoMss: nat,
                                     sgLength: nat, sg: seq<SgElem>)

  predicate ValidEntry(e: TxRingEntry) {
    |e.sg| == SG_LENGTH && e.sgLength <= SG_LENGTH
  }

  function Used(e: TxRingEntry): seq<SgElem>
    requires ValidEntry(e)
  {
    e.sg[..e.sgLength]
  }

  /** The driver's private record about a ring entry. */
  datatype TxBuf = TxBuf(skb: Option<Skb>, sgForLinear: int, firstSgForFrag: int, eop: bool)

  predicate InPacket(p: Skb, e: SgElem) {
    match e.addr
    case HeaderCopy(_) => true
    case Linear(off) => off + e.length <= |p.linear|
    case Page(i, off) => i < |p.frags| && off + e.length <= |p.frags[i]|
  }

  /** The packet bytes an element points at; a header copy points outside the packet. */
  function Read(p: Skb, e: SgElem): seq<byte>
    requires InPacket(p, e)
  {
    match e.addr
    case HeaderCopy(_) => []
    case Linear(off) => p.linear[off..off + e.length]
    case Page(i, off) => p.frags[i][off..off + e.length]
  }

  predicate AllInPacket(p: Skb, sg: seq<SgElem>) {
    forall k | 0 <= k < |sg| :: InPacket(p, sg[k])
  }

  /** The packet bytes a gather list delivers. */
  function Gather(p: Skb, sg: seq<SgElem>): seq<byte>
    requires AllInPacket(p, sg)
  {
    if sg == [] then [] else Read(p, sg[0]) + Gather(p, sg[1..])
  }

  lemma {:induction false} GatherConcat(p: Skb, a: seq<SgElem>, b: seq<SgElem>)
    requires AllInPacket(p, a) && AllInPacket(p, b)
    ensures AllInPacket(p, a + b) && Gather(p, a + b) == Gather(p, a) + Gather(p, b)
  {
    if a == [] {
      assert a + b == b;
    } else {
      assert (a + b)[1..] == a[1..] + b;
      GatherConcat(p, a[1..], b);
    }
  }

  lemma {:induction false} FlatConcat(a: seq<seq<byte>>, b: seq<seq<byte>>)
    ensures Flat(a + b) == Flat(a) + Flat(b)
  {
    if a == [] {
      assert a + b == b;
    } else {
      assert (a + b)[1..] == a[1..] + b;
      FlatConcat(a[1..], b);
    }
  }

  lemma FlatOne(f: seq<byte>)
    ensures Flat([f]) == f && Flat([]) == []
  {
    assert [f][1..] == [];
  }

  lemma GatherOne(p: Skb, e: SgElem)
    requires InPacket(p, e)
    ensures Gather(p, [e]) == Read(p, e) && Gather(p, []) == []
  {
    assert [e][1..] == [];
  }

  lemma FlatTail(frags: seq<seq<byte>>, i: nat, rest: nat)
    requires i < |frags| && rest <= |frags[i]|
    ensures Flat(frags[i..])[rest..] == frags[i][rest..] + Flat(frags[i + 1..])
  {
    assert frags[i..][1..] == frags[i + 1..];
  }
}
