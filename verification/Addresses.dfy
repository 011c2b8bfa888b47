/** Virtual addresses as four base-512 digits, and the heap cursor that counts
    through them. Shifts and masks are given as division and remainder. */
module Addresses {
  import opened Common

  const RADIX: nat := 512
  const PAGE_NUMBERS: nat := 0x10_0000_0000
  /** The pages below one top-level entry. */
  const SLOT_PAGES: nat := 0x800_0000
  const SIGN_EXTENSION: nat := 0xFFFF_0000_0000_0000

  /** The table indices in bits 47-39, 38-30, 29-21 and 20-12 of an address. */
  function Indices(virt: nat): seq<nat>
  {
    [virt / 0x80_0000_0000 % RADIX, virt / 0x4000_0000 % RADIX, virt / 0x20_0000 % RADIX, virt / PAGE_SIZE % RADIX]
  }

  ghost predicate IsPath(p: seq<nat>)
  {
    |p| == 4 && p[0] < RADIX && p[1] < RADIX && p[2] < RADIX && p[3] < RADIX
  }

  /** The page number that four indices spell out. */
  function Number(p: seq<nat>): nat
    requires |p| == 4
  {
    ((p[0] * RADIX + p[1]) * RADIX + p[2]) * RADIX + p[3]
  }

  function Path(n: nat): (p: seq<nat>)
    ensures IsPath(p)
  {
    [n / 0x800_0000 % RADIX, n / 0x4_0000 % RADIX, n / RADIX % RADIX, n % RADIX]
  }

  /** The canonical address of a page: bit 47 is copied to bits 63-48. */
  function Canonical(n: nat): nat
  {
    n * PAGE_SIZE + if n / 0x800_0000 % RADIX >= 256 then SIGN_EXTENSION else 0
  }

  lemma NumberOfPath(n: nat)
    requires n < PAGE_NUMBERS
    ensures Number(Path(n)) == n
  {
    var a := n / RADIX;
    var b := a / RADIX;
    var c := b / RADIX;
    assert n / 0x4_0000 == b && n / 0x800_0000 == c && c < RADIX;
    assert c % RADIX == c;
    assert b == c * RADIX + b % RADIX;
    assert a == b * RADIX + a % RADIX;
    assert n == a * RADIX + n % RADIX;
  }

  lemma PathOfNumber(p: seq<nat>)
    requires IsPath(p)
    ensures Path(Number(p)) == p && Number(p) < PAGE_NUMBERS
  {
    var n := Number(p);
    assert n / RADIX == (p[0] * RADIX + p[1]) * RADIX + p[2];
    assert n / 0x4_0000 == n / RADIX / RADIX == p[0] * RADIX + p[1];
    assert n / 0x800_0000 == n / RADIX / RADIX / RADIX == p[0];
  }

  /** An address and its page number have the same indices, and so do a
      canonical address and the page it was made for. */
  lemma IndicesOfAddress(virt: nat)
    ensures Indices(virt) == Path(virt / PAGE_SIZE)
  {
  }

  lemma IndicesOfCanonical(n: nat, offset: nat)
    requires n < PAGE_NUMBERS && offset < PAGE_SIZE
    ensures Indices(Canonical(n) + offset) == Path(n)
  {
    IndicesOfAddress(Canonical(n) + offset);
    HighBitsIgnored(n);
    if n / 0x800_0000 % RADIX >= 256 {
      assert Canonical(n) + offset == (n + 0xFFFF * PAGE_NUMBERS) * PAGE_SIZE + offset;
      PageOf(n + 0xFFFF * PAGE_NUMBERS, offset);
    } else {
      PageOf(n, offset);
    }
  }

  lemma PageOf(n: nat, offset: nat)
    requires offset < PAGE_SIZE
    ensures (n * PAGE_SIZE + offset) / PAGE_SIZE == n
  {
  }

  lemma HighBitsIgnored(n: nat)
    ensures Path(n + 0xFFFF * PAGE_NUMBERS) == Path(n)
  {
    DigitKept(n, 0x800_0000, 0xFFFF);
    DigitKept(n, 0x4_0000, 0xFFFF * RADIX);
    DigitKept(n, RADIX, 0xFFFF * RADIX * RADIX);
    DigitKept(n, 1, 0xFFFF * RADIX * RADIX * RADIX);
  }

  lemma DigitKept(n: nat, d: nat, k: nat)
    requires d > 0
    ensures (n + k * (d * RADIX)) / d % RADIX == n / d % RADIX
  {
    var a, b := n / d, n % d;
    assert n + k * (d * RADIX) == (a + k * RADIX) * d + b;
    QuotientIs(n + k * (d * RADIX), d, a + k * RADIX);
  }

  /** The address in page `virt` at the offset of `phys` in its own page. */
  method AtOffset(virt: nat, phys: nat) returns (r: nat)
    requires virt % PAGE_SIZE == 0
    ensures Indices(r) == Indices(virt) && r % PAGE_SIZE == phys % PAGE_SIZE
    ensures r == virt + phys % PAGE_SIZE
  {
    var offset := phys % PAGE_SIZE;
    r := virt + offset;
    IndicesOfAddress(virt);
    IndicesOfAddress(r);
    PageOf(virt / PAGE_SIZE, offset);
    PageOf(virt / PAGE_SIZE, 0);
  }

  /** `virt` lies in the page that its own indices name. */
  ghost predicate InOwnPage(virt: nat)
  {
    var page := Canonical(Number(Indices(virt)));
    page <= virt < page + PAGE_SIZE
  }

  lemma InsidePage(p: seq<nat>, offset: nat)
    requires IsPath(p) && offset < PAGE_SIZE
    ensures Indices(Canonical(Number(p)) + offset) == p && InOwnPage(Canonical(Number(p)) + offset)
  {
    PathOfNumber(p);
    IndicesOfCanonical(Number(p), offset);
  }

  /** Within the upper half, consecutive pages have consecutive addresses. */
  lemma CanonicalStep(n: nat, j: nat)
    requires 0x8_0000_0000 <= n && n + j < PAGE_NUMBERS
    ensures Canonical(n) + j * PAGE_SIZE == Canonical(n + j)
  {
    assert 256 <= n / 0x800_0000 <= (n + j) / 0x800_0000 < RADIX;
  }

  /** The pages that overlap a byte range. */
  function PageCount(virt: nat, bytes: nat): (count: nat)
    ensures virt + bytes <= (virt / PAGE_SIZE + count) * PAGE_SIZE < virt + bytes + PAGE_SIZE
    ensures bytes > 0 ==> count > 0
  {
    (virt + bytes + PAGE_SIZE - 1) / PAGE_SIZE - virt / PAGE_SIZE
  }

  /** `k` is one of the `count` pages from page number `first` on. */
  ghost predicate InRange(p: seq<nat>, first: nat, count: nat)
  {
    IsPath(p) && first <= Number(p) < first + count
  }

  lemma RangeStep(p: seq<nat>, first: nat, count: nat, next: seq<nat>)
    requires IsPath(next) && Number(next) == first + count
    ensures InRange(p, first, count + 1) <==> InRange(p, first, count) || p == next
    ensures !InRange(next, first, count)
  {
    PathOfNumber(next);
    if IsPath(p) {
      PathOfNumber(p);
    }
  }

  method PathOfPage(n: nat, top: nat) returns (p: seq<nat>)
    requires n < top * SLOT_PAGES && top <= RADIX
    ensures IsPath(p) && Number(p) == n && p[0] < top
  {
    assert n < PAGE_NUMBERS;
    NumberOfPath(n);
    p := Path(n);
    assert p[0] == n / 0x800_0000;
  }

  // ---------- The heap cursor ----------

  datatype Heap = Heap(pml4Idx: nat, pdptIdx: nat, pdIdx: nat, ptIdx: nat)
  {
    ghost predicate Valid()
    {
      pdptIdx < RADIX && pdIdx < RADIX && ptIdx < RADIX
    }

    function Path(): seq<nat> { [pml4Idx, pdptIdx, pdIdx, ptIdx] }
  }

  function AdvanceHeap(h: Heap): Heap
  {
    if h.ptIdx + 1 < RADIX then h.(ptIdx := h.ptIdx + 1)
    else if h.pdIdx + 1 < RADIX then h.(ptIdx := 0, pdIdx := h.pdIdx + 1)
    else if h.pdptIdx + 1 < RADIX then h.(ptIdx := 0, pdIdx := 0, pdptIdx := h.pdptIdx + 1)
    else Heap(h.pml4Idx + 1, 0, 0, 0)
  }

  /** The fields are disjoint, so the source's `|=` is a sum. */
  function NextHeapVirtPage(h: Heap): nat
  {
    var low := (h.pml4Idx % RADIX) * 0x80_0000_0000 + (h.pdptIdx % RADIX) * 0x4000_0000
             + (h.pdIdx % RADIX) * 0x20_0000 + (h.ptIdx % RADIX) * PAGE_SIZE;
    if low / 0x8000_0000_0000 % 2 == 1 then low + SIGN_EXTENSION else low
  }

  /** The cursor is a base-512 counter. */
  lemma AdvanceCounts(h: Heap)
    requires h.Valid()
    ensures AdvanceHeap(h).Valid()
    ensures Number(AdvanceHeap(h).Path()) == Number(h.Path()) + 1
  {
  }

  /** The address the cursor spells is the canonical address of its page, and
      it decodes back to the cursor's four indices. */
  lemma CursorAddress(h: Heap)
    requires h.Valid() && h.pml4Idx < RADIX
    ensures NextHeapVirtPage(h) == Canonical(Number(h.Path()))
    ensures Indices(NextHeapVirtPage(h)) == h.Path()
    ensures NextHeapVirtPage(h) % PAGE_SIZE == 0
  {
    CursorCanonical(h);
    PathOfNumber(h.Path());
    CanonicalAligned(Number(h.Path()));
    IndicesOfCanonical(Number(h.Path()), 0);
  }

  lemma CursorCanonical(h: Heap)
    requires h.Valid() && h.pml4Idx < RADIX
    ensures NextHeapVirtPage(h) == Canonical(Number(h.Path()))
  {
    PathOfNumber(h.Path());
    assert Path(Number(h.Path()))[0] == h.pml4Idx;
    TopBit(h);
    assert h.pml4Idx % RADIX == h.pml4Idx && h.pdptIdx % RADIX == h.pdptIdx;
    assert h.pdIdx % RADIX == h.pdIdx && h.ptIdx % RADIX == h.ptIdx;
  }

  lemma CanonicalAligned(n: nat)
    ensures Canonical(n) % PAGE_SIZE == 0
  {
    if n / 0x800_0000 % RADIX >= 256 {
      assert Canonical(n) == (n + 0xFFFF * PAGE_NUMBERS) * PAGE_SIZE;
    }
  }

  lemma TopBit(h: Heap)
    requires h.Valid() && h.pml4Idx < RADIX
    ensures var low := Number(h.Path()) * PAGE_SIZE;
      && low == h.pml4Idx * 0x80_0000_0000 + h.pdptIdx * 0x4000_0000 + h.pdIdx * 0x20_0000 + h.ptIdx * PAGE_SIZE
      && (low / 0x8000_0000_0000 % 2 == 1 <==> h.pml4Idx >= 256)
  {
    var low := Number(h.Path()) * PAGE_SIZE;
    assert low / 0x80_0000_0000 == h.pml4Idx;
    assert low / 0x8000_0000_0000 == low / 0x80_0000_0000 / 256;
  }

  /** Successive cursor positions are adjacent pages, except where the cursor
      steps from the last page below the non-canonical hole to the first above. */
  lemma AdvanceAdjacent(h: Heap)
    requires h.Valid() && h.pml4Idx < RADIX && AdvanceHeap(h).pml4Idx < RADIX
    ensures NextHeapVirtPage(AdvanceHeap(h)) == NextHeapVirtPage(h) + PAGE_SIZE
       <==> h != Heap(255, 511, 511, 511)
  {
    CursorAddress(h);
    AdvanceCounts(h);
    CursorAddress(AdvanceHeap(h));
    PathOfNumber(h.Path());
    PathOfNumber(AdvanceHeap(h).Path());
  }

  /** The address at the cursor and the cursor after it. */
  method StepCursor(h: Heap) returns (virt: nat, next: Heap)
    requires h.Valid() && h.pml4Idx < RADIX
    ensures virt == Canonical(Number(h.Path())) && Indices(virt) == h.Path() && virt % PAGE_SIZE == 0
    ensures next.Valid() && Number(next.Path()) == Number(h.Path()) + 1
    ensures next.pml4Idx == h.pml4Idx || next == Heap(h.pml4Idx + 1, 0, 0, 0)
  {
    CursorAddress(h);
    AdvanceCounts(h);
    virt, next := NextHeapVirtPage(h), AdvanceHeap(h);
  }

  /** The address `i` pages after `virt`, in the upper half. */
  method NthPage(virt: nat, i: nat, ghost n: nat) returns (r: nat, ghost p: seq<nat>)
    requires virt == Canonical(n) && 0x8_0000_0000 <= n && n + i < PAGE_NUMBERS
    ensures r == virt + i * PAGE_SIZE && r % PAGE_SIZE == 0
    ensures Indices(r) == p && IsPath(p) && Number(p) == n + i
  {
    r := virt + i * PAGE_SIZE;
    CanonicalStep(n, i);
    CanonicalAligned(n + i);
    IndicesOfCanonical(n + i, 0);
    NumberOfPath(n + i);
    p := Path(n + i);
  }

  /** Rounding an address down to its page. */
  method PageAlign(virt: nat) returns (r: nat)
    ensures r % PAGE_SIZE == 0 && r <= virt < r + PAGE_SIZE && Indices(r) == Indices(virt)
  {
    var page := virt / PAGE_SIZE;
    r := virt - virt % PAGE_SIZE;
    IndicesOfAddress(virt);
    IndicesOfAddress(r);
    assert r == page * PAGE_SIZE;
    PageOf(page, 0);
  }
}
