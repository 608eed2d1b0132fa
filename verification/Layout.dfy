/** Page layout arithmetic of record files and indexes. */
module Layout {
  import opened Common

  const FILE_HEADER := 20
  const PAGE_HEADER := 8
  const PAGE_HEADER_OFFSET := 4
  const MAX_RECORD_SIZE := 512
  const NODE_HEADER := 24
  const RID_SIZE := 8
  const MAX_COL_LEN := 512

  function SlotsPerPage(size: nat): nat {
    (BITMAP_WIDTH * (PAGE_SIZE - 1 - FILE_HEADER) + 1) / (1 + size * BITMAP_WIDTH)
  }

  function BitmapSize(slots: nat): nat {
    (slots + BITMAP_WIDTH - 1) / BITMAP_WIDTH
  }

  function BitmapStart(): nat {
    PAGE_HEADER_OFFSET + PAGE_HEADER
  }

  function SlotStart(size: nat, slot: nat): nat {
    BitmapStart() + BitmapSize(SlotsPerPage(size)) + slot * size
  }

  lemma QuotientBounds(a: nat, b: nat)
    requires b > 0
    ensures a / b * b <= a < a / b * b + b
  {
  }

  lemma AtLeast(a: nat, b: nat, q: nat)
    requires b > 0 && q * b <= a
    ensures a / b >= q
  {
    QuotientBounds(a, b);
    assert a / b * b + b == (a / b + 1) * b;
    MulCancel(q, a / b + 1, b);
  }

  lemma MulCancel(x: nat, y: nat, b: nat)
    requires x * b < y * b
    ensures x < y
  {
    if y <= x {
      MulMonotone(y, x, b);
    }
  }

  lemma MulMonotone(x: nat, y: nat, b: nat)
    requires x <= y
    ensures x * b <= y * b
  {
  }

  /** A record page has at least 7 slots and a bit for each of them. */
  lemma EnoughSlots(size: nat)
    requires 1 <= size <= MAX_RECORD_SIZE
    ensures SlotsPerPage(size) >= 7 && BITMAP_WIDTH * BitmapSize(SlotsPerPage(size)) >= SlotsPerPage(size)
  {
    AtLeast(32601, 1 + size * 8, 7);
  }

  /** Header, bitmap and slots lie one after the other inside the page. */
  lemma RecordPageFits(size: nat, i: nat, j: nat)
    requires 1 <= size <= MAX_RECORD_SIZE && i < j < SlotsPerPage(size)
    ensures BitmapStart() + BitmapSize(SlotsPerPage(size)) <= SlotStart(size, i)
    ensures SlotStart(size, i) + size <= SlotStart(size, j)
    ensures SlotStart(size, j) + size <= PAGE_SIZE
  {
    var n := SlotsPerPage(size);
    SlotBytes(size, n);
    NextSlot(size, i, j);
    NextSlot(size, j, n);
    AreaFits(n, n * size);
  }

  lemma SlotBytes(size: nat, n: nat)
    requires n == SlotsPerPage(size)
    ensures n + 8 * (n * size) <= 32601
  {
    QuotientBounds(32601, 1 + size * 8);
    assert n * (1 + size * 8) == n + 8 * (n * size);
  }

  lemma NextSlot(size: nat, i: nat, j: nat)
    requires i < j
    ensures i * size + size <= j * size
  {
    MulMonotone(i + 1, j, size);
    assert (i + 1) * size == i * size + size;
  }

  lemma AreaFits(n: nat, bytes: nat)
    requires n + 8 * bytes <= 32601
    ensures BitmapStart() + BitmapSize(n) + bytes <= PAGE_SIZE
  {
  }

  /** What create_file reckons with: the file header's size, the bitmap and the slots. */
  predicate Reckoned(size: nat, slots: nat) {
    FILE_HEADER + BitmapSize(slots) + slots * size <= PAGE_SIZE
  }

  lemma ReckonedInBits(size: nat, slots: nat)
    ensures Reckoned(size, slots) <==> slots + 8 * (slots * size) <= 32608
  {
  }

  /** The number of slots is the largest that is reckoned to fit, or one less: the division
      allows for up to 7 unused bits, so one more slot fits when it uses them. */
  lemma MostSlots(size: nat, slots: nat)
    requires size >= 1
    ensures slots <= SlotsPerPage(size) ==> Reckoned(size, slots)
    ensures slots == SlotsPerPage(size) + 1 ==> (Reckoned(size, slots) <==> slots * (1 + 8 * size) <= 32608)
    ensures slots > SlotsPerPage(size) + 1 ==> !Reckoned(size, slots)
  {
    var n, bits := SlotsPerPage(size), 1 + size * 8;
    ReckonedInBits(size, slots);
    QuotientBounds(32601, bits);
    assert slots * bits == slots + 8 * (slots * size);
    assert n * bits + bits == (n + 1) * bits && n * bits + 2 * bits == (n + 2) * bits;
    if slots <= n {
      MulMonotone(slots, n, bits);
    } else if slots > n + 1 {
      MulMonotone(n + 2, slots, bits);
    }
  }

  /** With records of one byte, a slot more would still be reckoned to fit. */
  lemma OneSlotShort()
    ensures SlotsPerPage(1) == 3622 && Reckoned(1, 3623)
  {
    assert BitmapSize(3623) == 453;
  }

  /** Entries of an index node, header aside, that create_index reckons with. */
  function BtreeOrder(len: nat): int {
    (PAGE_SIZE - NODE_HEADER) / (len + RID_SIZE) - 1
  }

  function RidStart(len: nat): int {
    NODE_HEADER + (BtreeOrder(len) + 1) * len
  }

  /** Every node may overflow by one entry before it is split and still fit its page, though
      not by two, and the order is large enough to split. */
  lemma IndexNodeFits(len: nat)
    requires len <= MAX_COL_LEN
    ensures BtreeOrder(len) > 2
    ensures RidStart(len) + (BtreeOrder(len) + 1) * RID_SIZE <= PAGE_SIZE
    ensures NODE_HEADER + (BtreeOrder(len) + 2) * (len + RID_SIZE) > PAGE_SIZE
  {
    AtLeast(4072, len + 8, 4);
    QuotientBounds(4072, len + 8);
    var m := BtreeOrder(len) + 1;
    assert m * (len + 8) == m * len + m * 8;
    assert (m + 1) * (len + 8) == m * (len + 8) + (len + 8);
  }
}
