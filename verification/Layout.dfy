/** Where the shared rings and the header-copy slots lie in memory. */
module Layout {
  import opened TxChop

  const PAGE := 4096

  /** The sizes of the driver data and of one entry of each kind of ring, and the numbers of entries. */
  datatype Sizes = Sizes(dd: nat, rxEntry: nat, txEntry: nat, rx: nat, tx: nat)

  function DriverDataSize(z: Sizes): nat {
    z.dd + (z.rx + 1) * z.rxEntry + z.tx * z.txEntry
  }

  /** Offsets of the rings from the start of the driver data. */
  datatype Offsets = Offsets(rxRing: nat, rxRing2: nat, txRing: nat)

  /** The offsets vmxnet_init_ring sets up. */
  function RingOffsets(z: Sizes): Offsets {
    var rxRing2 := z.dd + z.rx * z.rxEntry;
    Offsets(z.dd, rxRing2, rxRing2 + z.rxEntry)
  }

  datatype Entry = RxEntry(i: nat) | DummyEntry | TxEntry(i: nat)

  predicate InRing(z: Sizes, e: Entry) {
    match e
    case RxEntry(i) => i < z.rx
    case DummyEntry => true
    case TxEntry(i) => i < z.tx
  }

  function Start(z: Sizes, e: Entry): nat {
    match e
    case RxEntry(i) => RingOffsets(z).rxRing + i * z.rxEntry
    case DummyEntry => RingOffsets(z).rxRing2
    case TxEntry(i) => RingOffsets(z).txRing + i * z.txEntry
  }

  function Size(z: Sizes, e: Entry): nat {
    if e.TxEntry? then z.txEntry else z.rxEntry
  }

  /** The place of an entry among all entries, in memory order. */
  function Rank(z: Sizes, e: Entry): nat {
    match e
    case RxEntry(i) => i
    case DummyEntry => z.rx
    case TxEntry(i) => z.rx + 1 + i
  }

  lemma {:induction false} MulOrder(i: nat, j: nat, size: nat)
    requires i < j
    ensures i * size + size <= j * size
    decreases j
  {
    assert j * size == (j - 1) * size + size;
    if i < j - 1 {
      MulOrder(i, j - 1, size);
    }
  }

  lemma WithinData(z: Sizes, e: Entry)
    requires InRing(z, e)
    ensures z.dd <= Start(z, e) && Start(z, e) + Size(z, e) <= DriverDataSize(z)
  {
    OneMore(z.rx, z.rxEntry);
    if e.RxEntry? {
      MulOrder(e.i, z.rx, z.rxEntry);
    } else if e.TxEntry? {
      MulOrder(e.i, z.tx, z.txEntry);
    }
  }

  lemma OneMore(n: nat, size: nat)
    ensures (n + 1) * size == n * size + size
  {
  }

  lemma NextToEachOther(z: Sizes, a: Entry, b: Entry)
    requires InRing(z, a) && InRing(z, b) && Rank(z, a) < Rank(z, b)
    ensures Start(z, a) + Size(z, a) <= Start(z, b)
  {
    if a.TxEntry? {
      MulOrder(a.i, b.i, z.txEntry);
    } else if a.RxEntry? {
      MulOrder(a.i, z.rx, z.rxEntry);
      if b.RxEntry? {
        MulOrder(a.i, b.i, z.rxEntry);
      }
    }
  }

  /** The entries of the receive ring, the dummy ring and the transmit ring follow each other without
      overlap, after the driver data and within its size. */
  lemma EntriesAreDisjoint(z: Sizes, a: Entry, b: Entry)
    requires InRing(z, a) && InRing(z, b) && a != b
    ensures Start(z, a) + Size(z, a) <= Start(z, b) || Start(z, b) + Size(z, b) <= Start(z, a)
    ensures z.dd <= Start(z, a) && Start(z, a) + Size(z, a) <= DriverDataSize(z)
  {
    WithinData(z, a);
    if Rank(z, a) < Rank(z, b) {
      NextToEachOther(z, a, b);
    } else {
      NextToEachOther(z, b, a);
    }
  }

  /** The last entry ends exactly where the driver data ends, and the entry after the last receive entry,
      which vmxnet_init_ring writes, is the dummy ring's. */
  lemma LayoutIsTight(z: Sizes)
    ensures Start(z, TxEntry(z.tx)) == DriverDataSize(z)
    ensures Start(z, RxEntry(z.rx)) == Start(z, DummyEntry)
    ensures Start(z, DummyEntry) + Size(z, DummyEntry) == Start(z, TxEntry(0))
  {
  }

  // ----- alignment and header-copy slots -----

  /** Rounding an address up to a multiple of 16 or of the page size, as adding and masking does. */
  function AlignUp(address: nat, unit: nat): (r: nat)
    requires unit == 16 || unit == PAGE
    ensures r % unit == 0 && address <= r < address + unit
  {
    (address + unit - 1) / unit * unit
  }

  /** The first byte of the header-copy slot of a ring entry. */
  function HeaderSlotAt(raw: nat, entry: nat): nat {
    AlignUp(raw, PAGE) + entry * TX_PKT_HEADER_SIZE
  }

  /** A header copy lies within its slot, the slots of different entries are disjoint, none crosses a page
      boundary, and all lie in the buffer of `tx` slots and one page that was allocated. */
  lemma HeaderSlotsAreDisjoint(raw: nat, tx: nat, i: nat, j: nat, size: nat)
    requires i < tx && j < tx && size <= TX_PKT_HEADER_SIZE
    ensures var a, b := HeaderSlotAt(raw, i), HeaderSlotAt(raw, j);
            && raw <= a && a + size <= raw + tx * TX_PKT_HEADER_SIZE + PAGE
            && (i != j ==> a + size <= b || b + size <= a)
            && (size > 0 ==> a / PAGE == (a + size - 1) / PAGE)
  {
    assert raw <= AlignUp(raw, PAGE) < raw + PAGE;
  }
}
