/** Where the descriptor table and the two rings lie in memory (section 2.4.2 of Virtio 1.0). */
module QueueLayout {
  import opened Types
  import opened Alignment

  const DESC_SIZE: nat := 16
  const USED_ELEM_SIZE: nat := 8

  /** A half-open byte range of the queue's memory. */
  datatype Region = Region(start: nat, end: nat)

  predicate Inside(inner: Region, outer: Region) {
    outer.start <= inner.start <= inner.end <= outer.end
  }

  predicate Apart(a: Region, b: Region) {
    a.end <= b.start || b.end <= a.start
  }

  datatype Layout = Layout(desc: Region, avail: Region, used: Region, size: nat)

  /** InitializeLegacy: one block, the used ring aligned. */
  function LegacyLayout(q: u16, align: nat): Layout
    requires 0 < align < TWO_64
  {
    var descSize := q * DESC_SIZE;
    var availSize := 4 + q * 2 + 2;
    var usedOffset := AlignUp(descSize + availSize, align);
    var usedSize := 4 + q * USED_ELEM_SIZE + 2;
    Layout(Region(0, descSize), Region(descSize, descSize + availSize),
           Region(usedOffset, usedOffset + usedSize), usedOffset + usedSize)
  }

  // The bytes AddBuf and GetBuf touch, relative to their ring.

  function DescAccess(i: nat): Region {
    Region(i * DESC_SIZE, i * DESC_SIZE + DESC_SIZE)
  }

  /** avail_virt_[1], a 16-bit element. */
  function AvailIdxAccess(): Region {
    Region(2, 4)
  }

  /** avail_virt_[2 + idx % queue_size] */
  function AvailEntryAccess(idx: u16, q: nat): Region
    requires q > 0
  {
    var element := 2 + idx % q;
    Region(2 * element, 2 * element + 2)
  }

  function UsedIdxAccess(): Region {
    Region(2, 4)
  }

  function UsedElemAccess(idx: u16, q: nat): Region
    requires q > 0
  {
    var offset := 4 + (idx % q) * USED_ELEM_SIZE;
    Region(offset, offset + USED_ELEM_SIZE)
  }

  function Shift(r: Region, base: nat): Region {
    Region(r.start + base, r.end + base)
  }

  /** Main result, legacy layout: three disjoint, aligned regions inside the allocation. */
  lemma LegacyRegions(q: u16, align: nat)
    requires q > 0 && PowerOfTwo(align) && 4 <= align <= 0x8000_0000
    ensures var l := LegacyLayout(q, align);
            && l.desc.end <= l.avail.start && l.avail.end <= l.used.start
            && Inside(l.desc, Region(0, l.size)) && Inside(l.avail, Region(0, l.size))
            && Inside(l.used, Region(0, l.size))
            && l.desc.start % 16 == 0 && l.avail.start % 2 == 0 && l.used.start % 4 == 0 && l.used.start % align == 0
            && l.used.start < l.avail.end + align
  {
    hide AlignUp, PowerOfTwo;
    var end := q * DESC_SIZE + (4 + q * 2 + 2);
    AlignUpIsLeast(end, align, 0);
    MultipleOfFour(AlignUp(end, align), align);
    EvenStarts(q);
    assert LegacyLayout(q, align).used.start == AlignUp(end, align);
  }

  lemma EvenStarts(q: nat)
    ensures q * DESC_SIZE % 2 == 0
  {}

  lemma MultipleOfFour(n: nat, align: nat)
    requires PowerOfTwo(align) && align >= 4 && n % align == 0
    ensures n % 4 == 0
  {
    assert PowerOfTwo(align / 2);
    assert align == 4 * (align / 4);
    var d := n / align;
    assert n == align * d == 4 * (align / 4 * d);
    DivModUnique(n, 4, align / 4 * d, 0);
  }

  /** The offsets of section 2.4.2 of Virtio 1.0: the available ring follows the 16-byte
      descriptors, and the used ring starts at the least multiple of the alignment behind it. */
  lemma LegacyOffsets(q: u16, align: nat, multiple: nat)
    requires PowerOfTwo(align) && 4 <= align <= 0x8000_0000
    ensures align > 0 && var l := LegacyLayout(q, align);
            && l.desc == Region(0, 16 * q) && l.avail == Region(16 * q, 18 * q + 6)
            && l.used.start % align == 0 && l.used.start >= 18 * q + 6
            && (multiple % align == 0 && multiple >= 18 * q + 6 ==> l.used.start <= multiple)
            && l.used.end == l.used.start + 8 * q + 6 && l.size == l.used.end
  {
    hide AlignUp, PowerOfTwo;
    AlignUpIsLeast(q * DESC_SIZE + (4 + q * 2 + 2), align, multiple);
    assert q * DESC_SIZE + (4 + q * 2 + 2) == 18 * q + 6;
  }

  /** And inside the rings: 16-bit flags and index, then 2-byte heads or 8-byte used elements. */
  lemma AccessOffsets(q: u16, i: nat, idx: u16)
    requires q > 0
    ensures DescAccess(i) == Region(16 * i, 16 * i + 16)
    ensures AvailIdxAccess() == Region(2, 4) && UsedIdxAccess() == Region(2, 4)
    ensures AvailEntryAccess(idx, q) == Region(4 + 2 * (idx % q), 6 + 2 * (idx % q))
    ensures UsedElemAccess(idx, q) == Region(4 + 8 * (idx % q), 12 + 8 * (idx % q))
  {}

  /** Main result: every ring access of AddBuf and GetBuf, for any descriptor index below q
      and any 16-bit ring index, stays inside its region in the legacy layout, and inside the
      separate allocations 16q, 4 + 2q and 4 + 8q of the modern one. */
  lemma AccessesInside(q: u16, align: nat, i: nat, idx: u16)
    requires q > 0 && PowerOfTwo(align) && 4 <= align <= 0x8000_0000 && i < q
    ensures var l := LegacyLayout(q, align);
            && Inside(Shift(DescAccess(i), l.desc.start), l.desc)
            && Inside(Shift(AvailIdxAccess(), l.avail.start), l.avail)
            && Inside(Shift(AvailEntryAccess(idx, q), l.avail.start), l.avail)
            && Inside(Shift(UsedIdxAccess(), l.used.start), l.used)
            && Inside(Shift(UsedElemAccess(idx, q), l.used.start), l.used)
    ensures Inside(DescAccess(i), Region(0, q * DESC_SIZE))
    ensures Inside(AvailIdxAccess(), Region(0, 4 + q * 2)) && Inside(AvailEntryAccess(idx, q), Region(0, 4 + q * 2))
    ensures Inside(UsedIdxAccess(), Region(0, 4 + q * USED_ELEM_SIZE))
    ensures Inside(UsedElemAccess(idx, q), Region(0, 4 + q * USED_ELEM_SIZE))
    // Different slots never share a byte.
    ensures forall idx': u16 | idx' % q != idx % q ::
              && Apart(AvailEntryAccess(idx, q), AvailEntryAccess(idx', q))
              && Apart(UsedElemAccess(idx, q), UsedElemAccess(idx', q))
  {
    hide AlignUp;
    var slot := idx % q;
    assert 0 <= slot < q;
  }
}
