/**
 * Virtual address spaces (`kernel/vspace.cpp`, the `VSpace` half).
 *
 * A `VSpace` owns a PML4T root, an `AllocList` of free virtual ranges, and
 * the headers of its live allocations. Every allocation takes one header page
 * followed by the page-rounded buffer: the header stores the buffer's range,
 * so a pointer into the buffer's first page finds its header by rounding
 * down to the page and stepping back one page.
 *
 * The header page's contents (`AllocHeader::buffer_alloc_range`, written in
 * mapped memory) are the map `headers`, keyed by the header's address.
 */
module VirtualSpaces {
  import opened Types
  import opened Bits
  import opened Math
  import opened Range
  import opened PageTableFormat
  import opened KernelDefs
  import opened PageTables
  import opened PhysicalAllocator
  import opened PageTableWalker
  import AL = AllocList
  import Vectors

  /** `alignof(VSpace::AllocHeader)`: the header is one `VRange` of two `u64`s. */
  const HEADER_ALIGN: u64 := 8

  /**
   * `worst_case_size`: room for `size` bytes starting at any address that is
   * `alignment`-aligned inside a page-aligned range, i.e. `size + alignment - 1`
   * rounded up to a whole number of pages.
   */
  function WorstCaseSize(size: u64, alignment: u64): (r: u64)
    ensures var need := size + (if alignment == 0 then 0 else alignment - 1);
      need + 4095 < U64_MOD ==> r % 4096 == 0 && need <= r < need + 4096
  {
    var adjusted := if alignment == 0 then 0 else alignment - 1;
    RoundUpAlign(Add64(size, adjusted), 4096)
  }

  /** The sizes `alloc_vbuffer` derives from the requested alignment before calling `take_range`. */
  datatype Request = Request(pageAlignment: u64, allocAlignment: u64, inPageAlignment: u64, allocSize: u64)

  function RequestFor(size: u64, alignment: u64): Request
  {
    var roundUp := RoundUpAlign(4096, alignment);
    var pageAlignment := (roundUp / 4096) * 4096;
    var allocAlignment := Max(4096, Sub64(pageAlignment, 4096));
    var inPage := roundUp % 4096;
    Request(pageAlignment, allocAlignment, inPage, Add64(WorstCaseSize(size, inPage), 4096))
  }

  /** `VSpace::VBuffer`: the ranges of one allocation and where its header and buffer start. */
  datatype VBuffer = VBuffer(full: Range, header: Range, buffer: Range, hdrStart: u64, bufferStart: u64)

  /** How `alloc_vbuffer` splits the range `take_range` returned. */
  function Carve(full: Range, inPageAlignment: u64): VBuffer
  {
    var header := Range(full.addr, 4096);
    var buffer := SubtractRange(full, header);
    VBuffer(full, header, buffer, RoundUpAlign(header.addr, HEADER_ALIGN), RoundUpAlign(buffer.addr, inPageAlignment))
  }

  /** The checks `alloc_vbuffer` makes on the carved ranges; any that fails is fatal. */
  predicate LayoutChecks(vb: VBuffer, req: Request, size: u64, alignment: u64)
  {
    IsAligned(vb.full.addr, 4096) && IsAligned(OnePastEnd(vb.full), 4096) &&
    IsAligned(vb.full.addr, req.allocAlignment) && vb.full.length == req.allocSize &&
    IsAligned(vb.buffer.addr, req.pageAlignment) &&
    Add64(vb.header.length, vb.buffer.length) == vb.full.length &&
    vb.buffer.length >= size &&
    IsAligned(vb.bufferStart, alignment) &&
    Add64(vb.bufferStart, size) <= OnePastEnd(vb.buffer) &&
    RoundDownAlign(vb.bufferStart, 4096) == vb.buffer.addr
  }

  /** The largest size for which the page-rounded request and its alignment fit in 64 bits. */
  const MAX_SMALL_SIZE: nat := U64_MOD - 4 * 4096

  /**
   * For a power-of-two alignment up to a page, `alloc_vbuffer` asks for one
   * header page plus the size rounded up to whole pages, aligned to a page,
   * and needs no alignment inside the page.
   */
  lemma SmallAlignmentRequest(size: u64, alignment: u64)
    requires IsPowerOf2(alignment) && alignment <= 4096 && size <= MAX_SMALL_SIZE
    ensures RequestFor(size, alignment) == Request(4096, 4096, 0, RoundUpAlign(size, 4096) + 4096)
    ensures RoundUpAlign(size, 4096) % 4096 == 0 && size <= RoundUpAlign(size, 4096) < size + 4096
  {
    var k := PowerOf2Exponent(alignment);
    Pow2Small();
    if k > 12 {
      Pow2Le(13, k);
    }
    Pow2Divides(k, 12);
    AlignFixedPoints(4096, alignment);
  }

  /**
   * Whatever page-aligned range of that size `take_range` returns, every check
   * of `alloc_vbuffer` passes: the header is the first page, the buffer is
   * the rest and starts right after the header, holds `size` bytes and is
   * `alignment`-aligned, and rounding the buffer's start down to its page
   * gives back the buffer's first page.
   */
  lemma SmallAlignmentLayout(full: Range, size: u64, alignment: u64)
    requires IsPowerOf2(alignment) && alignment <= 4096 && 0 < size <= MAX_SMALL_SIZE
    requires full.addr % 4096 == 0 && full.length == RoundUpAlign(size, 4096) + 4096 && NoWrap(full)
    ensures var vb := Carve(full, 0);
      LayoutChecks(vb, RequestFor(size, alignment), size, alignment) &&
      vb.header == Range(full.addr, 4096) && vb.hdrStart == full.addr &&
      vb.buffer == Range(full.addr + 4096, full.length - 4096) && vb.bufferStart == full.addr + 4096
  {
    SmallAlignmentRequest(size, alignment);
    CarvePage(full);
    PageSumAligned(RoundUpAlign(size, 4096), 4096);
    PageChecks(full, size, alignment);
  }

  /** The checks of `alloc_vbuffer` on a carved page-aligned range of one header page plus at least `size` bytes. */
  lemma PageChecks(full: Range, size: u64, alignment: u64)
    requires IsPowerOf2(alignment) && alignment <= 4096
    requires full.addr % 4096 == 0 && full.length % 4096 == 0 && full.length >= size + 4096 && NoWrap(full)
    ensures LayoutChecks(VBuffer(full, Range(full.addr, 4096), Range(full.addr + 4096, full.length - 4096),
      full.addr, full.addr + 4096), Request(4096, 4096, 0, full.length), size, alignment)
  {
    var start := full.addr + 4096;
    PageAlignedIsAligned(start, alignment);
    AL.PageAligned(full.addr);
    PageSumAligned(full.addr, 4096);
    PageSumAligned(full.addr, full.length);
    AlignFixedPoints(start, 4096);
  }

  lemma PageSumAligned(a: u64, b: u64)
    requires a % 4096 == 0 && b % 4096 == 0 && a + b < U64_MOD
    ensures (a + b) % 4096 == 0 && IsAligned(a + b, 4096)
  {
    var q, r := a / 4096, b / 4096;
    assert a + b == (q + r) * 4096;
    MulMod(q + r, 4096);
    AL.PageAligned(a + b);
  }

  /** Carving a page-aligned range with no alignment inside the page: the header is its first page. */
  lemma CarvePage(full: Range)
    requires full.addr % 4096 == 0 && full.length > 4096 && NoWrap(full)
    ensures Carve(full, 0) == VBuffer(full, Range(full.addr, 4096), Range(full.addr + 4096, full.length - 4096),
      full.addr, full.addr + 4096)
  {
    AL.ModOfMultiple(full.addr, 4096, 8);
    AlignFixedPoints(full.addr, HEADER_ALIGN);
  }

  /** A page-aligned address passes `is_aligned` for every power-of-two alignment up to a page. */
  lemma PageAlignedIsAligned(v: u64, alignment: u64)
    requires IsPowerOf2(alignment) && alignment <= 4096 && v % 4096 == 0
    ensures IsAligned(v, alignment)
  {
    var k := PowerOf2Exponent(alignment);
    Pow2Small();
    if k > 12 {
      Pow2Le(13, k);
    }
    Pow2Divides(k, 12);
    AL.ModOfMultiple(v, 4096, alignment);
    IsAlignedPowerOf2(v, alignment);
  }

  /**
   * Above a page the layout breaks, as the source's own comment warns: with
   * alignment 8192 the range is only asked to be page-aligned, and when it
   * starts on an 8192 boundary the buffer after the header page does not,
   * so `alloc_vbuffer` halts.
   */
  lemma LargeAlignmentHalts()
    ensures var full := Range(KERNEL_VSPACE_START, 8192);
      var req := RequestFor(4096, 8192);
      req.allocAlignment == 4096 && req.allocSize == 8192 &&
      IsAligned(full.addr, req.allocAlignment) &&
      !LayoutChecks(Carve(full, req.inPageAlignment), req, 4096, 8192)
  {
    Pow2Small();
    var full := Range(KERNEL_VSPACE_START, 8192);
    var req := RequestFor(4096, 8192);
    assert RoundUpAlign(4096, 8192) == 8192;
    assert req.pageAlignment == 8192 && req.inPageAlignment == 0;
    assert WorstCaseSize(4096, 0) == 4096 by {
      AlignFixedPoints(4096, 4096);
    }
    AL.PageAligned(full.addr);
    assert Carve(full, 0).buffer.addr == KERNEL_VSPACE_START + 4096;
    assert Pow2(13) == 8192;
    MaskIsMod(KERNEL_VSPACE_START + 4096, 13);
  }

  /** `VSpace::AllocedVRanges`: the header range found from a pointer and the buffer range stored in it. */
  datatype AllocedVRanges = AllocedVRanges(header: Range, buffer: Range)

  /** The header page `get_alloc_vranges_from_ptr` assumes: one page below the page of `ptr`. */
  function HeaderOf(ptr: u64): Range
  {
    Range(Sub64(RoundDownAlign(ptr, 4096), 4096), 4096)
  }

  /** Where the `AllocHeader` sits in that page. */
  function HeaderSlot(ptr: u64): u64
  {
    RoundUpAlign(HeaderOf(ptr).addr, HEADER_ALIGN)
  }

  /**
   * `get_alloc_vranges_from_ptr`: the header range below `ptr` and the buffer
   * range read from it. Reading a header that no allocation wrote is
   * undefined in the source; here it is `None`.
   */
  function AllocVRangesFromPtr(ptr: u64, headers: map<u64, Range>): (r: Option<AllocedVRanges>)
    ensures r.Some? <==> HeaderSlot(ptr) in headers
    ensures r.Some? ==> r.value == AllocedVRanges(HeaderOf(ptr), headers[HeaderSlot(ptr)])
  {
    var slot := HeaderSlot(ptr);
    if slot in headers then Some(AllocedVRanges(HeaderOf(ptr), headers[slot])) else None
  }

  /**
   * The header is always at the start of its page, so `HeaderSlot` is the
   * header page itself.
   */
  lemma HeaderSlotIsPage(ptr: u64)
    ensures HeaderOf(ptr).addr % 4096 == 0 && HeaderSlot(ptr) == HeaderOf(ptr).addr
  {
    var base := RoundDownAlign(ptr, 4096);
    var h := HeaderOf(ptr).addr;
    if base >= 4096 {
      assert h == base - 4096;
      assert h % 4096 == 0;
    } else {
      assert base == 0;
      assert h == U64_MOD - 4096;
    }
    AL.ModOfMultiple(h, 4096, 8);
    AlignFixedPoints(h, HEADER_ALIGN);
  }

  /**
   * Any pointer into the first page of a buffer that sits right after its
   * header page finds that header page.
   */
  lemma HeaderFromPtr(hdr: u64, ptr: u64)
    requires hdr % 4096 == 0 && hdr + 4096 <= ptr < hdr + 8192
    ensures HeaderOf(ptr) == Range(hdr, 4096) && HeaderSlot(ptr) == hdr
  {
    MultiplesApart(RoundDownAlign(ptr, 4096), hdr + 4096, 4096);
    HeaderSlotIsPage(ptr);
  }

  /**
   * `share_kernelspace`: the new PML4 entry 0 points at the PDPT that the
   * kernel root's entry 0 points at, and is present and writable. The source
   * clears the entry, sets the address and then the two flags; these are
   * disjoint bits, so the entry is the one `NewEntry` builds.
   */
  function ShareKernelspace(kernelEntry0: u64): (e: u64)
    ensures Present(e) && Writable(e)
    ensures GetPhysAddr(e, PHYS_ADDR_MASK) == GetPhysAddr(kernelEntry0, PHYS_ADDR_MASK)
  {
    var pdpt := GetPhysAddr(kernelEntry0, PHYS_ADDR_MASK);
    PhysAddrField(kernelEntry0);
    NewEntryFacts(pdpt);
    NewEntry(pdpt).value
  }

  /** What `get_phys_addr` returns is always a page-aligned address below 2^48. */
  lemma PhysAddrField(raw: u64)
    ensures GetPhysAddr(raw, PHYS_ADDR_MASK) < 0x1_0000_0000_0000
    ensures GetPhysAddr(raw, PHYS_ADDR_MASK) % 4096 == 0
  {
    MasksAreBands();
    Pow2Small();
    Pow2Large();
    AndBand(raw, 12, 48, 64);
    var hi, lo := raw % Pow2(48), raw % Pow2(12);
    var q := raw / Pow2(48);
    assert raw == Pow2(48) * q + hi;
    assert Pow2(48) == 4096 * Pow2(36) by {
      Pow2Add(12, 36);
    }
    assert raw == 4096 * (Pow2(36) * q) + hi;
    DivModUnique(raw, 4096, Pow2(36) * q + hi / 4096, hi % 4096);
    assert hi - lo == 4096 * (hi / 4096);
    MulMod(hi / 4096, 4096);
  }

  /**
   * `unshare_kernelspace`: the entry must still be present and point at the
   * kernel's PDPT (otherwise fatal, `None`); it is then cleared.
   */
  function UnshareKernelspace(entry0: u64, kernelEntry0: u64): (r: Option<u64>)
    ensures r.Some? <==> Present(entry0) && GetPhysAddr(entry0, PHYS_ADDR_MASK) == GetPhysAddr(kernelEntry0, PHYS_ADDR_MASK)
    ensures r.Some? ==> r.value == CLEARED && !Present(r.value)
  {
    ClearedNotPresent();
    if Present(entry0) && GetPhysAddr(entry0, PHYS_ADDR_MASK) == GetPhysAddr(kernelEntry0, PHYS_ADDR_MASK)
    then Some(CLEARED) else None
  }

  /** Unsharing right after sharing always succeeds and leaves entry 0 not present. */
  lemma ShareThenUnshare(kernelEntry0: u64)
    ensures UnshareKernelspace(ShareKernelspace(kernelEntry0), kernelEntry0) == Some(CLEARED)
  {
  }

  /**
   * The `ASSERT`s at the top of both functions: the kernel span is whole
   * gigabytes and ends inside the one PDPT that PML4 entry 0 points at, so
   * copying entry 0 shares all of kernel space.
   */
  lemma KernelspaceFitsOnePdpt()
    ensures KERNEL_VSPACE_SIZE % GB == 0 && KERNEL_VSPACE_START % GB == 0
    ensures RoundUpDivide(KERNEL_VSPACE_START + KERNEL_VSPACE_SIZE, BYTES_MAPPED_BY_PD) < 512
  {
    TableSizes();
  }

  // ---- the allocation invariant ----

  /** Where a span may lie: page tables are only built from kernel space up to the reach of four-level paging. */
  predicate InWindow(span: Range)
  {
    KERNEL_VSPACE_START <= span.addr && span.addr + span.length <= FOUR_LEVEL_REACH
  }

  /**
   * A live allocation: its header page at `hdr` records `buffer`, which
   * starts right after the header, is a non-empty whole number of pages,
   * and lies with the header inside `span`.
   */
  predicate Allocation(hdr: u64, buffer: Range, span: Range)
  {
    hdr % 4096 == 0 && buffer.addr == hdr + 4096 && 0 < buffer.length && buffer.length % 4096 == 0 &&
    span.addr <= hdr && hdr + 4096 + buffer.length <= span.addr + span.length
  }

  /** The full range of an allocation, rebuilt from its header page and buffer as `free_size` does. */
  function Whole(hdr: u64, buffer: Range): Range
  {
    Range(hdr, Add64(4096, buffer.length))
  }

  /** One past the last address of an allocation: the end of its buffer. */
  function AllocEnd(buffer: Range): int
  {
    buffer.addr + buffer.length
  }

  /** The addresses from `lo` up to `hi` and those of `r` have none in common. */
  predicate Apart(lo: int, hi: int, r: Range)
  {
    hi <= r.addr || r.addr + r.length <= lo
  }

  /**
   * Every recorded allocation is well formed and overlaps neither a free
   * range nor any other allocation.
   */
  ghost predicate Allocations(headers: map<u64, Range>, nodes: seq<Range>, span: Range)
  {
    (forall h | h in headers :: Allocation(h, headers[h], span)) &&
    (forall h | h in headers :: ApartAll(h, AllocEnd(headers[h]), nodes)) &&
    (forall h, g | h in headers && g in headers && h != g :: AllocEnd(headers[h]) <= g || AllocEnd(headers[g]) <= h)
  }

  /** The addresses from `lo` up to `hi` are apart from every range of `nodes`. */
  ghost predicate ApartAll(lo: int, hi: int, nodes: seq<Range>)
  {
    nodes == [] || (ApartAll(lo, hi, nodes[..|nodes| - 1]) && Apart(lo, hi, nodes[|nodes| - 1]))
  }

  /** An allocation apart from every free range holds no free address. */
  lemma {:induction false} NotInFree(lo: int, hi: int, nodes: seq<Range>)
    requires ApartAll(lo, hi, nodes)
    ensures forall x | x in AL.Free(nodes) :: !(lo <= x < hi)
    decreases |nodes|
  {
    if nodes != [] {
      NotInFree(lo, hi, nodes[..|nodes| - 1]);
    }
  }

  /** A non-empty range whose addresses all lie outside the allocation from `lo` to `hi` is apart from it. */
  lemma ApartIfOutside(lo: int, hi: int, r: Range, outside: set<int>)
    requires lo < hi && r.length > 0 && AL.Span(r) <= outside
    requires forall x | x in outside :: !(lo <= x < hi)
    ensures Apart(lo, hi, r)
  {
    var p := if lo < r.addr then r.addr else lo;
    assert p in AL.Span(r) ==> p in outside;
  }

  /** Free ranges whose addresses all lie outside the allocation from `lo` to `hi` are each apart from it. */
  lemma {:induction false} ApartAllIfOutside(lo: int, hi: int, nodes: seq<Range>, outside: set<int>)
    requires lo < hi && AL.Pages(nodes) && AL.Free(nodes) <= outside
    requires forall x | x in outside :: !(lo <= x < hi)
    ensures ApartAll(lo, hi, nodes)
    decreases |nodes|
  {
    if nodes != [] {
      var prefix := nodes[..|nodes| - 1];
      assert AL.Pages(prefix) by {
        forall i | 0 <= i < |prefix|
          ensures prefix[i] == nodes[i]
        {
        }
      }
      ApartAllIfOutside(lo, hi, prefix, outside);
      ApartIfOutside(lo, hi, nodes[|nodes| - 1], outside);
    }
  }

  /** A non-empty range whose addresses all lie in `span` lies between its ends. */
  lemma SpanWithin(r: Range, span: Range)
    requires r.length > 0 && AL.Span(r) <= AL.Span(span)
    ensures span.addr <= r.addr && r.addr + r.length <= span.addr + span.length
  {
    assert r.addr in AL.Span(r);
    assert r.addr + r.length - 1 in AL.Span(r);
  }

  /** An allocation's whole range is its header address onwards, inside the span. */
  lemma WholeFacts(hdr: u64, buffer: Range, span: Range)
    requires Allocation(hdr, buffer, span) && NoWrap(span)
    ensures Whole(hdr, buffer) == Range(hdr, 4096 + buffer.length) && NoWrap(Whole(hdr, buffer))
    ensures Whole(hdr, buffer).length % PAGE_SIZE == 0
    ensures hdr in AL.Span(Whole(hdr, buffer)) && AL.Span(Whole(hdr, buffer)) <= AL.Span(span)
  {
  }

  /**
   * Recording a range just taken from the free ranges as a new allocation
   * keeps the invariant.
   */
  lemma AllocationsAdd(headers: map<u64, Range>, nodes0: seq<Range>, nodes: seq<Range>, span: Range, hdr: u64, buffer: Range)
    requires Allocations(headers, nodes0, span) && Allocation(hdr, buffer, span) && NoWrap(span) && AL.Coalesced(nodes)
    requires AL.Span(Whole(hdr, buffer)) <= AL.Free(nodes0)
    requires AL.Free(nodes) == AL.Free(nodes0) - AL.Span(Whole(hdr, buffer))
    ensures hdr !in headers && Allocations(headers[hdr := buffer], nodes, span)
  {
    WholeFacts(hdr, buffer, span);
    var whole := Whole(hdr, buffer);
    forall h | h in headers
      ensures h != hdr && (AllocEnd(headers[h]) <= hdr || AllocEnd(buffer) <= h)
    {
      NotInFree(h, AllocEnd(headers[h]), nodes0);
      ApartIfOutside(h, AllocEnd(headers[h]), whole, AL.Free(nodes0));
    }
    AllocationsSub(headers, nodes0, nodes, span);
    assert forall x | x in AL.Free(nodes) :: x !in AL.Span(whole);
    ApartAllIfOutside(hdr, AllocEnd(buffer), nodes, AL.Free(nodes));
  }

  /**
   * Returning an allocation's whole range to the free ranges and dropping
   * its header keeps the invariant.
   */
  lemma AllocationsRemove(headers: map<u64, Range>, nodes: seq<Range>, nodes': seq<Range>, span: Range, hdr: u64)
    requires Allocations(headers, nodes, span) && hdr in headers && NoWrap(span) && AL.Coalesced(nodes')
    requires AL.Free(nodes') == AL.Free(nodes) + AL.Span(Whole(hdr, headers[hdr]))
    ensures Allocations(headers - {hdr}, nodes', span)
  {
    WholeFacts(hdr, headers[hdr], span);
    var rest := headers - {hdr};
    forall h | h in rest
      ensures ApartAll(h, AllocEnd(rest[h]), nodes')
    {
      NotInFree(h, AllocEnd(rest[h]), nodes);
      ApartAllIfOutside(h, AllocEnd(rest[h]), nodes', AL.Free(nodes'));
    }
  }

  /** Shrinking the free ranges keeps every allocation apart from them. */
  lemma AllocationsSub(headers: map<u64, Range>, nodes: seq<Range>, nodes': seq<Range>, span: Range)
    requires Allocations(headers, nodes, span) && AL.Coalesced(nodes') && AL.Free(nodes') <= AL.Free(nodes)
    ensures Allocations(headers, nodes', span)
  {
    forall h | h in headers
      ensures ApartAll(h, AllocEnd(headers[h]), nodes')
    {
      NotInFree(h, AllocEnd(headers[h]), nodes);
      ApartAllIfOutside(h, AllocEnd(headers[h]), nodes', AL.Free(nodes));
    }
  }

  /** What `free_size` hands back to `return_range` shares no address with the free ranges. */
  lemma AllocationIsNotFree(headers: map<u64, Range>, nodes: seq<Range>, span: Range, hdr: u64)
    requires Allocations(headers, nodes, span) && hdr in headers && NoWrap(span)
    ensures AL.Span(Whole(hdr, headers[hdr])) !! AL.Free(nodes)
  {
    WholeFacts(hdr, headers[hdr], span);
    NotInFree(hdr, AllocEnd(headers[hdr]), nodes);
  }

  /** Every free range starts on a page, so rounding its start up to a page leaves it where it is. */
  lemma PageNodeStart(nodes: seq<Range>, i: nat)
    requires AL.Coalesced(nodes) && i < |nodes|
    ensures nodes[i].addr % 4096 == 0 && RoundUpAlign(nodes[i].addr, 4096) == nodes[i].addr && NoWrap(nodes[i])
  {
    AlignFixedPoints(nodes[i].addr, 4096);
  }

  /**
   * Whether `take_range` succeeds on the free ranges `nodes` for the request
   * `alloc_vbuffer` derives (after its own guards): the sizes are page
   * multiples and some free range is long enough.
   */
  ghost predicate TakeFits(nodes: seq<Range>, size: u64, alignment: u64)
  {
    0 < size <= MAX_SMALL_SIZE && IsPowerOf2(alignment) &&
    var req := RequestFor(size, alignment);
    req.allocSize + req.allocAlignment < U64_MOD &&
    nodes != [] && IsAligned(req.allocSize, 4096) && IsAligned(req.allocAlignment, 4096) &&
    AL.FirstFit(nodes, AL.Worst(req.allocSize, req.allocAlignment)).Some?
  }

  /** The range `take_range` then returns: the first fitting free range's start, aligned up. */
  ghost function Taken(nodes: seq<Range>, size: u64, alignment: u64): Range
    requires TakeFits(nodes, size, alignment)
  {
    var req := RequestFor(size, alignment);
    Range(RoundUpAlign(nodes[AL.FirstFit(nodes, AL.Worst(req.allocSize, req.allocAlignment)).value].addr, req.allocAlignment), req.allocSize)
  }

  /** Whether `alloc_vbuffer` succeeds: the take succeeds and the carved range passes every check. */
  ghost predicate VBufferFits(nodes: seq<Range>, size: u64, alignment: u64)
  {
    TakeFits(nodes, size, alignment) &&
    LayoutChecks(Carve(Taken(nodes, size, alignment), RequestFor(size, alignment).inPageAlignment),
      RequestFor(size, alignment), size, alignment)
  }

  /**
   * With a power-of-two alignment up to a page, `alloc_vbuffer` succeeds
   * exactly when some free range holds the header page, the page-rounded
   * buffer and a page of slack: once the take succeeds every check passes.
   */
  lemma SmallVBufferFits(nodes: seq<Range>, size: u64, alignment: u64)
    requires AL.Coalesced(nodes) && IsPowerOf2(alignment) && alignment <= 4096 && 0 < size <= MAX_SMALL_SIZE
    ensures VBufferFits(nodes, size, alignment) <==> TakeFits(nodes, size, alignment)
    ensures TakeFits(nodes, size, alignment) <==>
      AL.FirstFit(nodes, AL.Worst(RoundUpAlign(size, 4096) + 4096, 4096)).Some?
  {
    SmallAlignmentRequest(size, alignment);
    PageSumAligned(RoundUpAlign(size, 4096), 4096);
    AL.PageAligned(4096);
    if TakeFits(nodes, size, alignment) {
      var full := Taken(nodes, size, alignment);
      PageNodeStart(nodes, AL.FirstFit(nodes, AL.Worst(RoundUpAlign(size, 4096) + 4096, 4096)).value);
      SmallAlignmentLayout(full, size, alignment);
    }
  }

  /** A carved range that passed the checks and lies in the span is a well-formed allocation. */
  lemma CarvedAllocation(full: Range, size: u64, alignment: u64, span: Range)
    requires 0 < size <= MAX_SMALL_SIZE && NoWrap(full) && AL.Span(full) <= AL.Span(span)
    requires full.length == RequestFor(size, alignment).allocSize
    requires LayoutChecks(Carve(full, RequestFor(size, alignment).inPageAlignment), RequestFor(size, alignment), size, alignment)
    ensures var vb := Carve(full, RequestFor(size, alignment).inPageAlignment);
      vb.hdrStart == full.addr && vb.header == Range(full.addr, 4096) && vb.buffer == Range(full.addr + 4096, full.length - 4096) &&
      Allocation(vb.hdrStart, vb.buffer, span) && full == Whole(vb.hdrStart, vb.buffer)
  {
    CheckedCarve(full, size, alignment);
    SpanWithin(full, span);
  }

  /**
   * What a successful `alloc_vbuffer` carved, whatever the alignment: the
   * header page at the start of a page-aligned range, and the rest of the
   * range as the buffer.
   */
  lemma CheckedCarve(full: Range, size: u64, alignment: u64)
    requires 0 < size <= MAX_SMALL_SIZE && NoWrap(full)
    requires full.length == RequestFor(size, alignment).allocSize
    requires LayoutChecks(Carve(full, RequestFor(size, alignment).inPageAlignment), RequestFor(size, alignment), size, alignment)
    ensures full.addr % 4096 == 0 && full.length % 4096 == 0 && full.length > 4096
    ensures var vb := Carve(full, RequestFor(size, alignment).inPageAlignment);
      vb.header == Range(full.addr, 4096) && vb.hdrStart == full.addr &&
      vb.buffer == Range(full.addr + 4096, full.length - 4096) && Whole(full.addr, vb.buffer) == full
  {
    var req := RequestFor(size, alignment);
    var w := WorstCaseSize(size, req.inPageAlignment);
    assert size <= w && w % 4096 == 0;
    AL.PageAligned(full.addr);
    AL.PageAligned(OnePastEnd(full));
    AL.ModOfMultiple(full.addr, 4096, 8);
    AlignFixedPoints(full.addr, HEADER_ALIGN);
    var q, r := full.addr / 4096, (full.addr + full.length) / 4096;
    assert full.length == (r - q) * 4096;
    MulMod(r - q, 4096);
  }

  /** Forgetting a header just recorded gives back the headers there were before. */
  lemma ForgetRecorded(headers: map<u64, Range>, hdr: u64, buffer: Range)
    requires hdr !in headers
    ensures headers[hdr := buffer] - {hdr} == headers
  {
  }

  /**
   * `hdr` and `buffer` make an allocation whose whole range was just taken
   * from the free ranges `nodes0`, leaving `nodes`; the other allocations
   * were apart from `nodes0`.
   */
  ghost predicate Recordable(headers: map<u64, Range>, nodes0: seq<Range>, nodes: seq<Range>, span: Range, hdr: u64, buffer: Range)
  {
    Allocation(hdr, buffer, span) && Allocations(headers, nodes0, span) &&
    AL.Span(Whole(hdr, buffer)) <= AL.Free(nodes0) && AL.Free(nodes) == AL.Free(nodes0) - AL.Span(Whole(hdr, buffer))
  }

  /**
   * `allocate_pages` asks `alloc_vbuffer` for `n` whole pages. With a
   * power-of-two alignment up to a page the range taken is one header page
   * plus exactly those `n` pages, so the buffer holds exactly as many pages
   * as the vector supplies: the page count already covers the worst case.
   */
  lemma PagesFillBuffer(nodes: seq<Range>, n: nat, alignment: u64)
    requires IsPowerOf2(alignment) && alignment <= 4096 && 0 < n < 0x1_0000_0000
    requires TakeFits(nodes, n * PAGE_SIZE, alignment)
    ensures Taken(nodes, n * PAGE_SIZE, alignment).length == (1 + n) * PAGE_SIZE
  {
    var s := n * PAGE_SIZE;
    Bits.MulMod(n, 4096);
    SmallAlignmentRequest(s, alignment);
    AlignFixedPoints(s, 4096);
    assert (1 + n) * PAGE_SIZE == s + 4096;
  }

  /** The header page is mapped and the buffer's pages map `pages`, one for one. */
  ghost predicate PagesMapped(ts: Tables, root: u64, hdr: u64, buffer: Range, pages: seq<u64>)
  {
    Walk(ts, root, hdr).Some? && |pages| * PAGE_SIZE == buffer.length && MappedBefore(ts, root, buffer, pages)
  }

  /** The page after the header page comes next in page order. */
  lemma NextSlot(hdr: u64, next: u64)
    requires next == hdr + PAGE_SIZE < FOUR_LEVEL_REACH
    ensures Slot(next) == Slot(hdr) + 1
  {
    PageSlot(Range(hdr, PAGE_SIZE), 1);
  }

  /** A run mapped right after another extends it. */
  lemma RunsJoin(t0: Tables, t1: Tables, t2: Tables, root: u64, base: nat, mid: nat, a: seq<u64>, b: seq<u64>)
    requires mid == base + |a|
    requires MapsRun(t0, t1, root, base, a) && MapsRun(t1, t2, root, mid, b)
    ensures MapsRun(t0, t2, root, base, a + b)
  {
    forall w
      ensures Walk(t2, root, w) == if base <= Slot(w) < base + |a + b| then Some((a + b)[Slot(w) - base]) else Walk(t0, root, w)
    {
      var k := Slot(w);
      assert Walk(t1, root, w) == if base <= k < mid then Some(a[k - base]) else Walk(t0, root, w);
      assert Walk(t2, root, w) == if mid <= k < mid + |b| then Some(b[k - mid]) else Walk(t1, root, w);
      if base <= k < mid {
        assert (a + b)[k - base] == a[k - base];
      } else if mid <= k < mid + |b| {
        assert (a + b)[k - base] == b[k - mid];
      }
    }
  }

  /**
   * Mapping the header page to `[f]` and then the buffer right after it to
   * `pages` maps the whole allocation to `[f] + pages`.
   */
  lemma HeaderThenBuffer(t0: Tables, t1: Tables, t2: Tables, root: u64, hdr: u64, buffer: Range, f: u64, pages: seq<u64>)
    requires buffer.addr == hdr + PAGE_SIZE && 0 < |pages| && |pages| * PAGE_SIZE == buffer.length
    requires buffer.addr + buffer.length <= FOUR_LEVEL_REACH
    requires MapsGiven(t0, t1, root, Range(hdr, PAGE_SIZE), [f]) && MapsGiven(t1, t2, root, buffer, pages)
    ensures MapsGiven(t0, t2, root, Whole(hdr, buffer), [f] + pages)
  {
    assert MapsRun(t0, t2, root, Slot(hdr), [f] + pages) by {
      NextSlot(hdr, buffer.addr);
      RunsJoin(t0, t1, t2, root, Slot(hdr), Slot(buffer.addr), [f], pages);
    }
    assert UnmappedBefore(t0, root, Whole(hdr, buffer), 1 + |pages|) by {
      BothUnmappedBefore(t0, t1, root, hdr, buffer, f, |pages|);
    }
  }

  /** The header page and the buffer pages were unmapped before: so was the whole allocation. */
  lemma BothUnmappedBefore(t0: Tables, t1: Tables, root: u64, hdr: u64, buffer: Range, f: u64, n: nat)
    requires buffer.addr == hdr + PAGE_SIZE && n * PAGE_SIZE == buffer.length
    requires buffer.addr + buffer.length <= FOUR_LEVEL_REACH
    requires MapsRun(t0, t1, root, Slot(hdr), [f]) && UnmappedBefore(t0, root, Range(hdr, PAGE_SIZE), 1)
    requires UnmappedBefore(t1, root, buffer, n)
    ensures UnmappedBefore(t0, root, Whole(hdr, buffer), 1 + n)
  {
    var whole := Whole(hdr, buffer);
    assert whole == Range(hdr, PAGE_SIZE + buffer.length);
    forall k | 0 <= k < 1 + n
      ensures Walk(t0, root, PageOf(whole, k)).None?
    {
      if k == 0 {
        assert PageOf(whole, 0) == PageOf(Range(hdr, PAGE_SIZE), 0);
      } else {
        PageSlot(Range(hdr, PAGE_SIZE), 1);
        PageSlot(buffer, k - 1);
        assert PageOf(whole, k) == PageOf(buffer, k - 1);
      }
    }
  }

  /** After the header page alone was unmapped, the buffer's pages translate as before. */
  lemma BufferUntouched(t0: Tables, t1: Tables, root: u64, hdr: u64, buffer: Range, n: nat)
    requires buffer.addr == hdr + PAGE_SIZE && buffer.addr + n * PAGE_SIZE <= FOUR_LEVEL_REACH
    requires UnmapsRun(t0, t1, root, Slot(hdr), 1)
    ensures forall k :: 0 <= k < n ==> Walk(t1, root, PageOf(buffer, k)) == Walk(t0, root, PageOf(buffer, k))
  {
    if n > 0 {
      NextSlot(hdr, buffer.addr);
    }
    forall k | 0 <= k < n
      ensures Walk(t1, root, PageOf(buffer, k)) == Walk(t0, root, PageOf(buffer, k))
    {
      PageSlot(buffer, k);
      assert Slot(PageOf(buffer, k)) != Slot(hdr);
    }
  }

  /** After the header page alone was unmapped, page `k` of the buffer translates as before. */
  lemma BufferPageUntouched(t0: Tables, t1: Tables, root: u64, hdr: u64, buffer: Range, k: nat)
    requires buffer.addr == hdr + PAGE_SIZE && buffer.addr + k * PAGE_SIZE < FOUR_LEVEL_REACH
    requires UnmapsRun(t0, t1, root, Slot(hdr), 1)
    ensures Walk(t1, root, PageOf(buffer, k)) == Walk(t0, root, PageOf(buffer, k))
  {
    NextSlot(hdr, buffer.addr);
    PageSlot(buffer, k);
    assert Slot(PageOf(buffer, k)) != Slot(hdr);
  }

  /** Unmapping the header page and then the buffer after it unmaps the whole allocation. */
  lemma HeaderThenBufferUnmapped(t0: Tables, t1: Tables, t2: Tables, root: u64, hdr: u64, buffer: Range, n: nat)
    requires buffer.addr == hdr + PAGE_SIZE && buffer.addr < FOUR_LEVEL_REACH
    requires UnmapsRun(t0, t1, root, Slot(hdr), 1) && UnmapsRun(t1, t2, root, Slot(buffer.addr), n)
    ensures UnmapsRun(t0, t2, root, Slot(hdr), 1 + n)
  {
    PageSlot(Range(hdr, PAGE_SIZE), 1);
  }

  /** The page of `hdr` and the buffer's pages are the first and the remaining pages of the whole allocation. */
  lemma BufferPages(ts: Tables, root: u64, hdr: u64, buffer: Range, run: seq<u64>)
    requires buffer.addr == hdr + PAGE_SIZE && 0 < |run| && |run| * PAGE_SIZE == PAGE_SIZE + buffer.length
    requires hdr + |run| * PAGE_SIZE <= FOUR_LEVEL_REACH
    requires MappedBefore(ts, root, Whole(hdr, buffer), run)
    ensures Walk(ts, root, hdr) == Some(run[0]) && MappedBefore(ts, root, buffer, run[1..])
  {
    var whole := Whole(hdr, buffer);
    assert whole == Range(hdr, PAGE_SIZE + buffer.length);
    assert PageOf(whole, 0) == hdr;
    forall k | 0 <= k < |run| - 1
      ensures Walk(ts, root, PageOf(buffer, k)) == Some(run[1..][k])
    {
      assert PageOf(buffer, k) == PageOf(whole, k + 1);
    }
  }

  /** Frames freed by unmapping the header page (its frame `f` and emptied tables), then the buffer (emptied tables only). */
  lemma FreedTwice(t0: Tables, t1: Tables, t2: Tables, free0: set<int>, free1: set<int>, free2: set<int>, f: int)
    requires t2.Keys <= t1.Keys <= t0.Keys
    requires free1 == free0 + (t0.Keys - t1.Keys) + {f} && free2 == free1 + (t1.Keys - t2.Keys)
    ensures free2 == free0 + (t0.Keys - t2.Keys) + {f}
  {
  }

  /**
   * Frames that were mapped pages, and taken before an allocation was
   * mapped, are still taken once it is unmapped again with the
   * page-vector `unmap_vrange`: only emptied tables and the header's
   * frame `f`, which was free before, go back.
   */
  lemma SuppliedStayTaken(t1: Tables, t2: Tables, root: u64, buffer: Range, pages: seq<u64>,
                          free0: set<int>, free1: set<int>, free2: set<int>, f: int)
    requires Shape(t1, root) && MappedBefore(t1, root, buffer, pages)
    requires forall k :: 0 <= k < |pages| ==> pages[k] !in free0
    requires free1 <= free0 && f in free0
    requires free2 == free1 + (t1.Keys - t2.Keys) + {f}
    ensures forall k :: 0 <= k < |pages| ==> pages[k] !in free2
  {
    forall k | 0 <= k < |pages|
      ensures pages[k] !in free2
    {
      PathLevels(t1, root, PageOf(buffer, k));
    }
  }

  /** The three facts `allocate_pages` needs once the header page and then the buffer are mapped. */
  lemma AllocationMapped(t0: Tables, t1: Tables, t2: Tables, root: u64, hdr: u64, buffer: Range, f: u64, pages: seq<u64>, n: nat)
    requires buffer.addr == hdr + PAGE_SIZE && 0 < buffer.length && n == |pages| && n * PAGE_SIZE == buffer.length
    requires buffer.addr + buffer.length <= FOUR_LEVEL_REACH
    requires MapsGiven(t0, t1, root, Range(hdr, PAGE_SIZE), [f]) && MapsGiven(t1, t2, root, buffer, pages[..n])
    ensures |pages| * PAGE_SIZE == buffer.length
    ensures MapsGiven(t0, t2, root, Whole(hdr, buffer), [f] + pages)
    ensures PagesMapped(t2, root, hdr, buffer, pages)
  {
    assert pages[..n] == pages;
    HeaderThenBuffer(t0, t1, t2, root, hdr, buffer, f, pages);
    MappedRun(t0, t2, root, Whole(hdr, buffer), [f] + pages);
    BufferPages(t2, root, hdr, buffer, [f] + pages);
    assert ([f] + pages)[1..] == pages;
  }

  /** `map_vrange` on the header page alone: one newly allocated frame, mapped where nothing was. */
  lemma HeaderPageMapped(t0: Tables, free0: set<int>, t1: Tables, free1: set<int>, root: u64, hdr: u64, frames: seq<u64>)
    requires MapProgress(t0, free0, t1, free1, root, Range(hdr, PAGE_SIZE), frames) && |frames| * PAGE_SIZE == PAGE_SIZE
    ensures |frames| == 1 && frames[0] in free0 && frames[0] !in free1
    ensures MapsGiven(t0, t1, root, Range(hdr, PAGE_SIZE), [frames[0]])
  {
    assert frames == [frames[0]];
  }

  /** Frames that were usable stay usable when every unused frame stays unused. */
  lemma UsableKept(ts: Tables, free: set<int>, ts': Tables, free': set<int>, frames: set<int>, pages: seq<u64>)
    requires UsableFrom(ts, free, frames, pages, 0) && KeepsUnused(ts, free, ts', free')
    ensures UsableFrom(ts', free', frames, pages, 0)
  {
    forall i | 0 <= i < |pages|
      ensures pages[i] in frames && Unused(ts', free', pages[i])
    {
    }
  }

  /** `map_vrange` on the header page: a newly allocated frame `f`; the supplied pages stay usable. */
  method MapHeaderPage(mem: PageTableMemory, alloc: PhysicalPageAllocator, root: u64, hdr: u64, ghost pages: seq<u64>)
    returns (ok: bool, ghost f: u64)
    requires mem.Valid(alloc, root)
    requires UsableFrom(mem.tables, alloc.FreeFrames(), FramesOf(alloc.region, alloc.pageCount), pages, 0)
    requires KERNEL_VSPACE_START <= hdr && hdr + PAGE_SIZE <= FOUR_LEVEL_REACH
    modifies mem, alloc, alloc.isAllocated, alloc.next
    ensures mem.Valid(alloc, root) && alloc.FreeFrames() <= old(alloc.FreeFrames())
    ensures UsableFrom(mem.tables, alloc.FreeFrames(), FramesOf(alloc.region, alloc.pageCount), pages, 0)
    ensures ok ==> f in old(alloc.FreeFrames()) && f !in alloc.FreeFrames()
    ensures ok ==> MapsGiven(old(mem.tables), mem.tables, root, Range(hdr, PAGE_SIZE), [f])
  {
    ghost var frames;
    ok, frames := mem.MapVRange(alloc, root, Range(hdr, PAGE_SIZE));
    UsableKept(old(mem.tables), old(alloc.FreeFrames()), mem.tables, alloc.FreeFrames(), FramesOf(alloc.region, alloc.pageCount), pages);
    f := if ok then frames[0] else 0;
    if ok {
      HeaderPageMapped(old(mem.tables), old(alloc.FreeFrames()), mem.tables, alloc.FreeFrames(), root, hdr, frames);
    }
  }

  /**
   * The mapping half of `allocate_pages`: the header page to a newly
   * allocated frame `f`, then the buffer right after it to `pages`.
   */
  method MapHeaderAndPages(mem: PageTableMemory, alloc: PhysicalPageAllocator, root: u64, hdr: u64, buffer: Range,
                           pages: seq<u64>) returns (ok: bool, ghost f: u64)
    requires mem.Valid(alloc, root) && Distinct(pages)
    requires UsableFrom(mem.tables, alloc.FreeFrames(), FramesOf(alloc.region, alloc.pageCount), pages, 0)
    requires buffer.addr == hdr + PAGE_SIZE && 0 < buffer.length
    requires KERNEL_VSPACE_START <= hdr && buffer.addr + buffer.length <= FOUR_LEVEL_REACH
    modifies mem, alloc, alloc.isAllocated, alloc.next
    ensures mem.Valid(alloc, root) && alloc.FreeFrames() <= old(alloc.FreeFrames())
    ensures ok ==> (|pages| * PAGE_SIZE == buffer.length && f in old(alloc.FreeFrames()) && f !in alloc.FreeFrames() &&
      MapsGiven(old(mem.tables), mem.tables, root, Whole(hdr, buffer), [f] + pages))
    ensures ok ==> PagesMapped(mem.tables, root, hdr, buffer, pages)
  {
    ghost var t0 := mem.tables;
    ok, f := MapHeaderPage(mem, alloc, root, hdr, pages);
    if !ok {
      return;
    }
    ghost var t1 := mem.tables;
    ghost var n;
    ok, n := mem.MapVRangePages(alloc, root, buffer, pages);
    if !ok {
      return;
    }
    AllocationMapped(t0, t1, mem.tables, root, hdr, buffer, f, pages, n);
  }

  /**
   * The page-vector `unmap_vrange` stopped after `n` pages of the buffer
   * without a full match, and the header unmapping left the buffer's
   * translation alone: the buffer did not map `pages`.
   */
  lemma BufferMismatch(t0: Tables, t1: Tables, root: u64, hdr: u64, buffer: Range, pages: seq<u64>, n: nat)
    requires n <= |pages| && n * PAGE_SIZE < buffer.length + PAGE_SIZE
    requires !(n == |pages| && n * PAGE_SIZE == buffer.length)
    requires n * PAGE_SIZE < buffer.length ==> n == |pages| || Walk(t1, root, PageOf(buffer, n)) != Some(pages[n])
    requires n * PAGE_SIZE < buffer.length ==> Walk(t1, root, PageOf(buffer, n)) == Walk(t0, root, PageOf(buffer, n))
    ensures !PagesMapped(t0, root, hdr, buffer, pages)
  {
    if |pages| * PAGE_SIZE == buffer.length {
      assert buffer.length / PAGE_SIZE == |pages| && n < |pages|;
      assert n * PAGE_SIZE < buffer.length by {
        assert (|pages| - n) * PAGE_SIZE >= PAGE_SIZE;
      }
      assert Walk(t0, root, PageOf(buffer, n)) != Some(pages[n]);
    }
  }

  /** Fewer than two pages, and not one: none. */
  lemma NoPage(n: nat)
    requires n * PAGE_SIZE < 2 * PAGE_SIZE && n * PAGE_SIZE != PAGE_SIZE
    ensures n == 0
  {
  }

  /** `unmap_vrange` on the header page alone: its one frame, which goes back to the free list with the emptied tables. */
  lemma HeaderPageUnmapped(t0: Tables, free0: set<int>, t1: Tables, free1: set<int>, root: u64, hdr: u64, frames: seq<u64>)
    requires UnmapProgress(t0, free0, t1, free1, root, Range(hdr, PAGE_SIZE), frames, false)
    requires |frames| * PAGE_SIZE == PAGE_SIZE
    ensures |frames| == 1 && Walk(t0, root, hdr) == Some(frames[0])
    ensures UnmapsRun(t0, t1, root, Slot(hdr), 1) && t1.Keys <= t0.Keys
    ensures free1 == free0 + (t0.Keys - t1.Keys) + {frames[0]}
  {
    assert PageOf(Range(hdr, PAGE_SIZE), 0) == hdr;
    assert frames == [frames[0]];
    assert Elems(frames) == {frames[0]};
  }

  /**
   * The buffer after an unmapped header page matched `pages` and is now
   * unmapped too: the allocation mapped `pages` before, its whole run of
   * pages is unmapped, and only the header's frame and emptied tables
   * went back.
   */
  lemma BufferUnmapped(t0: Tables, t1: Tables, t2: Tables, free0: set<int>, free1: set<int>, free2: set<int>,
                       root: u64, hdr: u64, buffer: Range, pages: seq<u64>, f: u64)
    requires buffer.addr == hdr + PAGE_SIZE && buffer.addr < buffer.addr + buffer.length <= FOUR_LEVEL_REACH
    requires Walk(t0, root, hdr) == Some(f) && UnmapsRun(t0, t1, root, Slot(hdr), 1) && t1.Keys <= t0.Keys
    requires free1 == free0 + (t0.Keys - t1.Keys) + {f}
    requires forall k :: 0 <= k < |pages| ==> Walk(t1, root, PageOf(buffer, k)) == Walk(t0, root, PageOf(buffer, k))
    requires |pages| * PAGE_SIZE == buffer.length && UnmapProgress(t1, free1, t2, free2, root, buffer, pages, true)
    ensures PagesMapped(t0, root, hdr, buffer, pages)
    ensures UnmapsRun(t0, t2, root, Slot(hdr), 1 + |pages|)
    ensures free2 == free0 + (t0.Keys - t2.Keys) + {f}
  {
    HeaderThenBufferUnmapped(t0, t1, t2, root, hdr, buffer, |pages|);
    FreedTwice(t0, t1, t2, free0, free1, free2, f);
  }

  /**
   * The unmapping half of `free_pages`: the header page, whose frame goes
   * back to the allocator, then the buffer after it, which must map
   * `pages` (those frames stay taken).
   */
  method UnmapHeaderAndPages(mem: PageTableMemory, alloc: PhysicalPageAllocator, root: u64, hdr: u64, buffer: Range,
                             pages: seq<u64>) returns (ok: bool)
    requires mem.Valid(alloc, root)
    requires buffer.addr == hdr + PAGE_SIZE && 0 < buffer.length
    requires KERNEL_VSPACE_START <= hdr && buffer.addr + buffer.length <= FOUR_LEVEL_REACH
    modifies mem, alloc, alloc.isAllocated, alloc.next
    ensures mem.Valid(alloc, root)
    ensures ok <==> PagesMapped(old(mem.tables), root, hdr, buffer, pages)
    ensures ok ==> UnmapsRun(old(mem.tables), mem.tables, root, Slot(hdr), 1 + |pages|)
    ensures ok ==> (alloc.FreeFrames() ==
      old(alloc.FreeFrames()) + (old(mem.tables).Keys - mem.tables.Keys) + {Walk(old(mem.tables), root, hdr).value})
  {
    ghost var t0, free0 := mem.tables, alloc.FreeFrames();
    ghost var hdrFrames, n;
    ok, hdrFrames := mem.UnmapVRange(alloc, root, Range(hdr, PAGE_SIZE));
    if !ok {
      NoPage(|hdrFrames|);
      assert PageOf(Range(hdr, PAGE_SIZE), 0) == hdr;
      assert Walk(t0, root, hdr).None?;
      return;
    }
    ghost var t1, free1 := mem.tables, alloc.FreeFrames();
    HeaderPageUnmapped(t0, free0, t1, free1, root, hdr, hdrFrames);
    ok, n := mem.UnmapVRangePages(alloc, root, buffer, pages);
    if !ok {
      if n * PAGE_SIZE < buffer.length {
        BufferPageUntouched(t0, t1, root, hdr, buffer, n);
      }
      BufferMismatch(t0, t1, root, hdr, buffer, pages, n);
      return;
    }
    assert pages[..n] == pages;
    BufferUntouched(t0, t1, root, hdr, buffer, n);
    BufferUnmapped(t0, t1, mem.tables, free0, free1, alloc.FreeFrames(), root, hdr, buffer, pages, hdrFrames[0]);
  }

  class VSpace {
    /** The physical address of the PML4T (`m_pml4t`). */
    var root: u64
    /** `m_vrange_allocator`: the free virtual ranges. */
    var ranges: AL.AllocList
    /** The `AllocHeader` of each live allocation, by header address: the buffer range it records. */
    var headers: map<u64, Range>
    /** `mapped_vobjs`: the objects mapped into this space, in no particular order. */
    var mappedVobjs: seq<VObject>

    ghost predicate Valid()
      reads this`ranges, this`headers, ranges
    {
      ranges.Valid() && InWindow(ranges.span) && AL.Free(ranges.nodes) <= AL.Span(ranges.span) &&
      Allocations(headers, ranges.nodes, ranges.span)
    }

    /**
     * `VSpace(alloc_span)`: a space whose whole span is free. The root table
     * is given; the source allocates and clears a fresh page for it.
     */
    constructor (root: u64, span: Range)
      requires IsAligned(span.addr, 4096) && IsAligned(OnePastEnd(span), 4096)
      requires 0 < span.length && InWindow(span)
      ensures Valid() && this.root == root && ranges.span == span && fresh(ranges)
      ensures headers == map[] && mappedVobjs == [] && AL.Free(ranges.nodes) == AL.Span(span)
    {
      this.root := root;
      ranges := new AL.AllocList(span);
      headers := map[];
      mappedVobjs := [];
    }

    /**
     * `alloc_vbuffer`: takes one header page plus the buffer from the free
     * ranges and carves it. Non-power-of-two alignments, a zero size, no
     * fitting range and a failed layout check are fatal (`ok == false`).
     */
    method AllocVBuffer(size: u64, alignment: u64) returns (ok: bool, vb: VBuffer)
      requires Valid()
      modifies ranges
      ensures Valid() && ranges.span == old(ranges.span)
      ensures ok <==> VBufferFits(old(ranges.nodes), size, alignment)
      ensures !TakeFits(old(ranges.nodes), size, alignment) ==> ranges.nodes == old(ranges.nodes)
      ensures ok ==> vb == Carve(Taken(old(ranges.nodes), size, alignment), RequestFor(size, alignment).inPageAlignment)
      ensures ok ==> vb.hdrStart == vb.full.addr && vb.header == Range(vb.full.addr, 4096)
      ensures ok ==> vb.buffer == Range(vb.full.addr + 4096, vb.full.length - 4096)
      ensures ok ==> Allocation(vb.hdrStart, vb.buffer, ranges.span) && vb.full == Whole(vb.hdrStart, vb.buffer)
      ensures ok ==> AL.Span(vb.full) <= old(AL.Free(ranges.nodes))
      ensures ok ==> AL.Free(ranges.nodes) == old(AL.Free(ranges.nodes)) - AL.Span(vb.full)
      ensures ok ==> Recordable(headers, old(ranges.nodes), ranges.nodes, ranges.span, vb.hdrStart, vb.buffer)
    {
      vb := VBuffer(Range(0, 0), Range(0, 0), Range(0, 0), 0, 0);
      if size == 0 || !IsPowerOf2(alignment) || size > MAX_SMALL_SIZE {
        return false, vb;
      }
      var req := RequestFor(size, alignment);
      if req.allocSize + req.allocAlignment >= U64_MOD {
        return false, vb;
      }
      ghost var nodes0 := ranges.nodes;
      var taken, full := ranges.TakeRange(req.allocSize, req.allocAlignment);
      if !taken {
        assert !TakeFits(nodes0, size, alignment);
        return false, vb;
      }
      assert TakeFits(nodes0, size, alignment) && full == Taken(nodes0, size, alignment);
      AllocationsSub(headers, nodes0, ranges.nodes, ranges.span);
      vb := Carve(full, req.inPageAlignment);
      ok := LayoutChecks(vb, req, size, alignment);
      if ok {
        CarvedAllocation(full, size, alignment, ranges.span);
      }
    }

    /**
     * The second half of `allocate_size`: maps the whole range of an
     * allocation just taken from the free ranges, then writes the buffer
     * range into its header.
     */
    method MapAndRecord(mem: PageTableMemory, alloc: PhysicalPageAllocator, hdr: u64, buffer: Range, ghost nodes0: seq<Range>)
      returns (ok: bool, ghost frames: seq<u64>)
      requires Valid() && mem.Valid(alloc, root)
      requires Recordable(headers, nodes0, ranges.nodes, ranges.span, hdr, buffer)
      modifies this, mem, alloc, alloc.isAllocated, alloc.next
      ensures Valid() && mem.Valid(alloc, root) && root == old(root) && ranges == old(ranges)
      ensures mappedVobjs == old(mappedVobjs)
      ensures ok ==> hdr !in old(headers) && headers == old(headers)[hdr := buffer]
      ensures ok ==> (|frames| * PAGE_SIZE == Whole(hdr, buffer).length &&
        MapProgress(old(mem.tables), old(alloc.FreeFrames()), mem.tables, alloc.FreeFrames(), root, Whole(hdr, buffer), frames))
    {
      WholeFacts(hdr, buffer, ranges.span);
      SpanWithin(Whole(hdr, buffer), ranges.span);
      ok, frames := mem.MapVRange(alloc, root, Whole(hdr, buffer));
      assert unchanged(this, ranges);
      if !ok {
        return;
      }
      AllocationsAdd(headers, nodes0, ranges.nodes, ranges.span, hdr, buffer);
      headers := headers[hdr := buffer];
    }

    /**
     * `allocate_size`: carves a buffer with `alloc_vbuffer`, maps its whole
     * range (header page and buffer) to fresh frames, and records the
     * buffer range in the header. The address returned is the buffer's
     * aligned start; the `size` bytes from it lie inside the buffer.
     */
    method AllocateSize(mem: PageTableMemory, alloc: PhysicalPageAllocator, size: u64, alignment: u64)
      returns (ok: bool, addr: u64, ghost full: Range, ghost frames: seq<u64>)
      requires Valid() && mem.Valid(alloc, root)
      modifies this, ranges, mem, alloc, alloc.isAllocated, alloc.next
      ensures Valid() && mem.Valid(alloc, root)
      ensures root == old(root) && ranges == old(ranges) && ranges.span == old(ranges.span)
      ensures mappedVobjs == old(mappedVobjs)
      ensures ok ==> VBufferFits(old(ranges.nodes), size, alignment)
      ensures ok ==> (full == Taken(old(ranges.nodes), size, alignment) &&
        addr == Carve(full, RequestFor(size, alignment).inPageAlignment).bufferStart)
      ensures ok ==> IsAligned(addr, alignment) && full.addr + 4096 <= addr && addr + size <= full.addr + full.length
      ensures ok ==> full.addr !in old(headers) && headers == old(headers)[full.addr := Range(full.addr + 4096, full.length - 4096)]
      ensures ok ==> (HeaderSlot(addr) == full.addr && Whole(full.addr, headers[full.addr]) == full &&
        AllocVRangesFromPtr(addr, headers) == Some(AllocedVRanges(Range(full.addr, 4096), headers[full.addr])))
      ensures ok ==> AL.Span(full) <= old(AL.Free(ranges.nodes))
      ensures ok ==> AL.Free(ranges.nodes) == old(AL.Free(ranges.nodes)) - AL.Span(full)
      ensures ok ==> (|frames| * PAGE_SIZE == full.length &&
        MapProgress(old(mem.tables), old(alloc.FreeFrames()), mem.tables, alloc.FreeFrames(), root, full, frames))
    {
      var vb;
      ok, vb := AllocVBuffer(size, alignment);
      assert unchanged(this, mem, alloc, alloc.isAllocated, alloc.next);
      addr, full, frames := 0, vb.full, [];
      if !ok {
        return;
      }
      ok, frames := MapAndRecord(mem, alloc, vb.hdrStart, vb.buffer, old(ranges.nodes));
      if !ok {
        return;
      }
      assert vb.hdrStart == full.addr && vb.buffer == Range(full.addr + 4096, full.length - 4096);
      addr := vb.bufferStart;
      HeaderFromPtr(vb.hdrStart, addr);
    }

    /**
     * The bookkeeping half of `free_size`: the allocation's whole range goes
     * back to the free ranges and its header is forgotten.
     */
    method ReturnAllocation(hdr: u64)
      requires Valid() && hdr in headers
      modifies this, ranges
      ensures Valid() && root == old(root) && ranges == old(ranges) && ranges.span == old(ranges.span)
      ensures mappedVobjs == old(mappedVobjs)
      ensures headers == old(headers) - {hdr}
      ensures AL.Free(ranges.nodes) == old(AL.Free(ranges.nodes)) + AL.Span(Whole(hdr, old(headers)[hdr]))
    {
      var buffer := headers[hdr];
      WholeFacts(hdr, buffer, ranges.span);
      AL.PageAligned(hdr);
      AllocationIsNotFree(headers, ranges.nodes, ranges.span, hdr);
      ranges.ReturnRange(Whole(hdr, buffer));
      AllocationsRemove(headers, old(ranges.nodes), ranges.nodes, ranges.span, hdr);
      headers := headers - {hdr};
    }

    /**
     * `free_size`: finds the header below `ptr`, unmaps the whole
     * allocation (freeing its frames) and returns its range to the free
     * ranges. A pointer with no header below it, or a page of the
     * allocation that is not mapped, is fatal (`ok == false`).
     */
    method FreeSize(mem: PageTableMemory, alloc: PhysicalPageAllocator, ptr: u64) returns (ok: bool, ghost hdr: u64)
      requires Valid() && mem.Valid(alloc, root)
      modifies this, ranges, mem, alloc, alloc.isAllocated, alloc.next
      ensures Valid() && mem.Valid(alloc, root)
      ensures root == old(root) && ranges == old(ranges) && ranges.span == old(ranges.span)
      ensures mappedVobjs == old(mappedVobjs)
      ensures ok ==> AllocVRangesFromPtr(ptr, old(headers)).Some? && hdr == HeaderSlot(ptr)
      ensures ((AllocVRangesFromPtr(ptr, old(headers)).Some? &&
        AllMapped(old(mem.tables), root, Whole(HeaderSlot(ptr), old(headers)[HeaderSlot(ptr)]))) ==> ok)
      ensures ok ==> headers == old(headers) - {hdr}
      ensures ok ==> AL.Free(ranges.nodes) == old(AL.Free(ranges.nodes)) + AL.Span(Whole(hdr, old(headers)[hdr]))
      ensures ok ==> UnmapsRun(old(mem.tables), mem.tables, root, Slot(hdr), Whole(hdr, old(headers)[hdr]).length / PAGE_SIZE)
    {
      var found := AllocVRangesFromPtr(ptr, headers);
      if found.None? {
        ok, hdr := false, 0;
        return;
      }
      var h := found.value.header.addr;
      HeaderSlotIsPage(ptr);
      hdr := h;
      assert h == HeaderSlot(ptr) && h in headers && found.value.buffer == headers[h];
      var full := Whole(h, headers[h]);
      WholeFacts(h, headers[h], ranges.span);
      SpanWithin(full, ranges.span);
      assert full.length % PAGE_SIZE == 0;
      ghost var frames;
      ok, frames := mem.UnmapVRange(alloc, root, full);
      if !ok {
        UnmapStopped(old(mem.tables), root, full, |frames|);
        return;
      }
      assert unchanged(this, ranges) && |frames| == full.length / PAGE_SIZE;
      ghost var t1 := mem.tables;
      ReturnAllocation(h);
      assert mem.tables == t1;
    }

    /**
     * The second half of `allocate_pages`: maps the header page to a fresh
     * frame and the buffer to the given pages, then writes the buffer range
     * into the header.
     */
    method MapPagesAndRecord(mem: PageTableMemory, alloc: PhysicalPageAllocator, hdr: u64, buffer: Range, pages: seq<u64>,
                             ghost nodes0: seq<Range>) returns (ok: bool, ghost f: u64)
      requires Valid() && mem.Valid(alloc, root) && Distinct(pages)
      requires UsableFrom(mem.tables, alloc.FreeFrames(), FramesOf(alloc.region, alloc.pageCount), pages, 0)
      requires Recordable(headers, nodes0, ranges.nodes, ranges.span, hdr, buffer)
      modifies this, mem, alloc, alloc.isAllocated, alloc.next
      ensures Valid() && mem.Valid(alloc, root) && root == old(root) && ranges == old(ranges)
      ensures mappedVobjs == old(mappedVobjs) && alloc.FreeFrames() <= old(alloc.FreeFrames())
      ensures ok ==> hdr !in old(headers) && headers == old(headers)[hdr := buffer]
      ensures ok ==> (|pages| * PAGE_SIZE == buffer.length && f in old(alloc.FreeFrames()) && f !in alloc.FreeFrames() &&
        MapsGiven(old(mem.tables), mem.tables, root, Whole(hdr, buffer), [f] + pages))
      ensures ok ==> PagesMapped(mem.tables, root, hdr, buffer, pages)
    {
      WholeFacts(hdr, buffer, ranges.span);
      SpanWithin(Whole(hdr, buffer), ranges.span);
      ok, f := MapHeaderAndPages(mem, alloc, root, hdr, buffer, pages);
      assert unchanged(this, ranges);
      if !ok {
        return;
      }
      AllocationsAdd(headers, nodes0, ranges.nodes, ranges.span, hdr, buffer);
      headers := headers[hdr := buffer];
    }

    /**
     * The byte size `allocate_pages` asks for: `pages.length * 4096`, which
     * the source computes in 32 bits (the vector's length is a `u32`) before
     * widening it to a `u64`; `PagesByteSizeIs32Bit` shows the two agree.
     */
    static function PagesByteSize(n: u64): (size: u64)
      ensures size as int % PAGE_SIZE as int == 0 && size as int < U32_MOD
      ensures n < 0x10_0000 ==> size as int == n as int * PAGE_SIZE as int
    {
      var low := n as int % 0x10_0000;
      MulMod(low, 4096);
      (low * 4096) as u64
    }

    /** `PagesByteSize` is the product taken modulo 2^32. */
    lemma PagesByteSizeIs32Bit(n: u64)
      requires n as int < U32_MOD
      ensures PagesByteSize(n) as int == (n as int * 4096) % U32_MOD
    {
      var q, r := n as int / 0x10_0000, n as int % 0x10_0000;
      assert n as int * 4096 == U32_MOD * q + r * 4096;
      DivModUnique(n as int * 4096, U32_MOD, q, r * 4096);
    }

    /**
     * A request of 2^20 pages (4 GiB) wraps to a size of 0, which
     * `alloc_vbuffer` rejects as fatal whatever the free ranges and the
     * alignment; 2^20 + 1 pages wrap to one page, whose buffer then cannot
     * take all the pages.
     */
    lemma PagesByteSizeWraps(nodes: seq<Range>, alignment: u64)
      ensures PagesByteSize(0x10_0000) == 0 && !VBufferFits(nodes, PagesByteSize(0x10_0000), alignment)
      ensures PagesByteSize(0x10_0001) == PAGE_SIZE
    {
    }

    /**
     * `allocate_pages`: carves a buffer of `|pages|` whole pages with
     * `alloc_vbuffer`, maps its header page to a fresh frame and its
     * buffer to `pages`, and records the buffer range in the header. The
     * pages must be allocated frames, distinct and mapped nowhere.
     */
    method AllocatePages(mem: PageTableMemory, alloc: PhysicalPageAllocator, pages: seq<u64>, alignment: u64)
      returns (ok: bool, addr: u64, ghost full: Range, ghost f: u64)
      requires Valid() && mem.Valid(alloc, root) && Distinct(pages) && |pages| < 0x1_0000_0000
      requires UsableFrom(mem.tables, alloc.FreeFrames(), FramesOf(alloc.region, alloc.pageCount), pages, 0)
      modifies this, ranges, mem, alloc, alloc.isAllocated, alloc.next
      ensures Valid() && mem.Valid(alloc, root)
      ensures root == old(root) && ranges == old(ranges) && ranges.span == old(ranges.span)
      ensures mappedVobjs == old(mappedVobjs) && alloc.FreeFrames() <= old(alloc.FreeFrames())
      ensures ok ==> VBufferFits(old(ranges.nodes), PagesByteSize(|pages| as u64), alignment)
      ensures ok ==> (full == Taken(old(ranges.nodes), PagesByteSize(|pages| as u64), alignment) &&
        addr == Carve(full, RequestFor(PagesByteSize(|pages| as u64), alignment).inPageAlignment).bufferStart)
      ensures ok ==> IsAligned(addr, alignment) && full.addr + 4096 <= addr && 4096 <= full.length
      ensures ok ==> full.addr !in old(headers) && headers == old(headers)[full.addr := Range(full.addr + 4096, full.length - 4096)]
      ensures ok ==> (HeaderSlot(addr) == full.addr && Whole(full.addr, headers[full.addr]) == full &&
        AllocVRangesFromPtr(addr, headers) == Some(AllocedVRanges(Range(full.addr, 4096), headers[full.addr])))
      ensures ok ==> AL.Span(full) <= old(AL.Free(ranges.nodes))
      ensures ok ==> AL.Free(ranges.nodes) == old(AL.Free(ranges.nodes)) - AL.Span(full)
      ensures ok ==> ((1 + |pages|) * PAGE_SIZE == full.length && f in old(alloc.FreeFrames()) && f !in alloc.FreeFrames() &&
        MapsGiven(old(mem.tables), mem.tables, root, full, [f] + pages))
      ensures ok ==> PagesMapped(mem.tables, root, full.addr, headers[full.addr], pages)
    {
      var vb;
      ok, vb := AllocVBuffer(PagesByteSize(|pages| as u64), alignment);
      assert unchanged(this, mem, alloc, alloc.isAllocated, alloc.next);
      addr, full, f := 0, vb.full, 0;
      if !ok {
        return;
      }
      ok, f := MapPagesAndRecord(mem, alloc, vb.hdrStart, vb.buffer, pages, old(ranges.nodes));
      if !ok {
        return;
      }
      assert vb.hdrStart == full.addr && vb.buffer == Range(full.addr + 4096, full.length - 4096);
      addr := vb.bufferStart;
      HeaderFromPtr(vb.hdrStart, addr);
    }

    /**
     * `free_pages`: finds the header below `ptr`, unmaps the header page
     * (freeing its frame) and the buffer, which must map `pages` in order
     * (those frames are not freed), and returns the whole range to the free
     * ranges. A pointer with no header below it, an unmapped header page or
     * a buffer that does not map exactly `pages` is fatal (`ok == false`).
     */
    method FreePages(mem: PageTableMemory, alloc: PhysicalPageAllocator, pages: seq<u64>, ptr: u64) returns (ok: bool, ghost hdr: u64)
      requires Valid() && mem.Valid(alloc, root)
      modifies this, ranges, mem, alloc, alloc.isAllocated, alloc.next
      ensures Valid() && mem.Valid(alloc, root)
      ensures root == old(root) && ranges == old(ranges) && ranges.span == old(ranges.span) && mappedVobjs == old(mappedVobjs)
      ensures ok <==> PagesAllocatedAt(old(headers), old(mem.tables), root, ptr, pages)
      ensures ok ==> hdr == HeaderSlot(ptr) && headers == old(headers) - {hdr}
      ensures ok ==> AL.Free(ranges.nodes) == old(AL.Free(ranges.nodes)) + AL.Span(Whole(hdr, old(headers)[hdr]))
      ensures ok ==> UnmapsRun(old(mem.tables), mem.tables, root, Slot(hdr), 1 + |pages|)
      ensures ok ==> (alloc.FreeFrames() ==
        old(alloc.FreeFrames()) + (old(mem.tables).Keys - mem.tables.Keys) + {Walk(old(mem.tables), root, hdr).value})
    {
      var found := AllocVRangesFromPtr(ptr, headers);
      if found.None? {
        ok, hdr := false, 0;
        return;
      }
      var h := found.value.header.addr;
      HeaderSlotIsPage(ptr);
      hdr := h;
      var buffer := found.value.buffer;
      assert h == HeaderSlot(ptr) && h in headers && buffer == headers[h];
      WholeFacts(h, buffer, ranges.span);
      SpanWithin(Whole(h, buffer), ranges.span);
      ok := UnmapHeaderAndPages(mem, alloc, root, h, buffer, pages);
      assert unchanged(this, ranges);
      if !ok {
        return;
      }
      ghost var t2 := mem.tables;
      ReturnAllocation(h);
      assert mem.tables == t2;
    }

    /**
     * Freeing what `allocate_pages` just returned, with the same pages,
     * always succeeds and puts back the free ranges, the headers and the
     * translation of every address; the supplied frames stay taken.
     */
    method AllocatePagesThenFree(mem: PageTableMemory, alloc: PhysicalPageAllocator, pages: seq<u64>, alignment: u64)
      returns (ok: bool)
      requires Valid() && mem.Valid(alloc, root) && Distinct(pages) && |pages| < 0x1_0000_0000
      requires UsableFrom(mem.tables, alloc.FreeFrames(), FramesOf(alloc.region, alloc.pageCount), pages, 0)
      modifies this, ranges, mem, alloc, alloc.isAllocated, alloc.next
      ensures Valid() && mem.Valid(alloc, root) && root == old(root) && ranges == old(ranges)
      ensures ok ==> ranges.nodes == old(ranges.nodes) && headers == old(headers)
      ensures ok ==> forall w :: Walk(mem.tables, root, w) == Walk(old(mem.tables), root, w)
      ensures ok ==> forall k :: 0 <= k < |pages| ==> pages[k] !in alloc.FreeFrames()
    {
      var addr;
      ghost var full, f;
      ok, addr, full, f := AllocatePages(mem, alloc, pages, alignment);
      if !ok {
        return;
      }
      ghost var t1, nodes1, h1, free1 := mem.tables, ranges.nodes, headers, alloc.FreeFrames();
      ghost var buffer := h1[full.addr];
      assert Shape(t1, root);
      var freed;
      ghost var hdr;
      freed, hdr := FreePages(mem, alloc, pages, addr);
      assert freed && hdr == full.addr;
      AL.TakeReturn(old(ranges.nodes), nodes1, ranges.nodes, AL.Span(full));
      ForgetRecorded(old(headers), full.addr, buffer);
      MapThenUnmapRestores(old(mem.tables), t1, mem.tables, root, full, [f] + pages);
      SuppliedStayTaken(t1, mem.tables, root, buffer, pages, old(alloc.FreeFrames()), free1, alloc.FreeFrames(), f);
    }

    /**
     * `allocate_pages` seen from `allocate_vobj`: one new header, at the
     * slot below the returned address, over a buffer that maps `pages`.
     */
    method AllocatePagesAt(mem: PageTableMemory, alloc: PhysicalPageAllocator, pages: seq<u64>, alignment: u64)
      returns (ok: bool, addr: u64)
      requires Valid() && mem.Valid(alloc, root) && Distinct(pages) && |pages| < 0x1_0000_0000
      requires UsableFrom(mem.tables, alloc.FreeFrames(), FramesOf(alloc.region, alloc.pageCount), pages, 0)
      modifies this, ranges, mem, alloc, alloc.isAllocated, alloc.next
      ensures Valid() && mem.Valid(alloc, root) && root == old(root) && ranges == old(ranges) && mappedVobjs == old(mappedVobjs)
      ensures ok ==> HeaderSlot(addr) !in old(headers) && headers - {HeaderSlot(addr)} == old(headers)
      ensures ok ==> PagesAllocatedAt(headers, mem.tables, root, addr, pages)
    {
      ghost var full, f;
      ok, addr, full, f := AllocatePages(mem, alloc, pages, alignment);
      if ok {
        ForgetRecorded(old(headers), full.addr, headers[full.addr]);
      }
    }

    /** The search loop of `free_vobj`: the first slot of `mapped_vobjs` that holds `vobj`. */
    method FindVobj(vobj: VObject) returns (found: bool, i: nat)
      ensures found <==> vobj in mappedVobjs
      ensures found ==> Vectors.FirstIndex(mappedVobjs, vobj) == Some(i)
    {
      i := 0;
      while i < |mappedVobjs|
        invariant i <= |mappedVobjs| && vobj !in mappedVobjs[..i]
      {
        if mappedVobjs[i] == vobj {
          return true, i;
        }
        i := i + 1;
      }
      assert mappedVobjs[..i] == mappedVobjs;
      found := false;
    }

    /** `allocate_vobj`: maps the frames of `vobj` with `allocate_pages` and adds it to `mapped_vobjs`. */
    method AllocateVobj(mem: PageTableMemory, alloc: PhysicalPageAllocator, vobj: VObject) returns (ok: bool, addr: u64)
      requires Valid() && mem.Valid(alloc, root) && Distinct(vobj.pages) && |vobj.pages| < 0x1_0000_0000
      requires UsableFrom(mem.tables, alloc.FreeFrames(), FramesOf(alloc.region, alloc.pageCount), vobj.pages, 0)
      modifies this, ranges, mem, alloc, alloc.isAllocated, alloc.next
      ensures Valid() && mem.Valid(alloc, root) && root == old(root) && ranges == old(ranges)
      ensures ok ==> mappedVobjs == old(mappedVobjs) + [vobj]
      ensures !ok ==> mappedVobjs == old(mappedVobjs)
      ensures ok ==> HeaderSlot(addr) !in old(headers) && headers - {HeaderSlot(addr)} == old(headers)
      ensures ok ==> PagesAllocatedAt(headers, mem.tables, root, addr, vobj.pages)
    {
      ok, addr := AllocatePagesAt(mem, alloc, vobj.pages, vobj.alignment);
      if ok {
        mappedVobjs := mappedVobjs + [vobj];
      }
    }


    /**
     * `free_vobj`: `vobj` must be in `mapped_vobjs` (fatal otherwise); its
     * allocation at `addr` is freed with `free_pages`, and it leaves the
     * list, the last entry taking its slot.
     */
    method FreeVobj(mem: PageTableMemory, alloc: PhysicalPageAllocator, vobj: VObject, addr: u64) returns (ok: bool)
      requires Valid() && mem.Valid(alloc, root)
      modifies this, ranges, mem, alloc, alloc.isAllocated, alloc.next
      ensures Valid() && mem.Valid(alloc, root) && root == old(root) && ranges == old(ranges)
      ensures ok <==> vobj in old(mappedVobjs) && PagesAllocatedAt(old(headers), old(mem.tables), root, addr, vobj.pages)
      ensures vobj !in old(mappedVobjs) ==> mappedVobjs == old(mappedVobjs) && headers == old(headers)
      ensures ok ==> mappedVobjs == Vectors.UnstableRemoved(old(mappedVobjs), Vectors.FirstIndex(old(mappedVobjs), vobj).value)
      ensures ok ==> headers == old(headers) - {HeaderSlot(addr)}
      ensures ok ==> UnmapsRun(old(mem.tables), mem.tables, root, Slot(HeaderSlot(addr)), 1 + |vobj.pages|)
    {
      var found, i := FindVobj(vobj);
      if !found {
        return false;
      }
      ghost var hdr;
      ok, hdr := FreePages(mem, alloc, vobj.pages, addr);
      if ok {
        mappedVobjs := Vectors.UnstableRemoved(mappedVobjs, i);
      }
    }

    /** `get_free_space`: the number of free bytes in the span. */
    method GetFreeSpace() returns (sum: u64)
      requires Valid()
      ensures sum == |AL.Free(ranges.nodes)|
    {
      sum := ranges.GetFreeSpace();
    }

    /**
     * Freeing what `allocate_size` just returned always succeeds and puts
     * everything back: the free ranges, the headers and the translation of
     * every address.
     */
    method AllocateThenFree(mem: PageTableMemory, alloc: PhysicalPageAllocator, size: u64, alignment: u64) returns (ok: bool)
      requires Valid() && mem.Valid(alloc, root)
      modifies this, ranges, mem, alloc, alloc.isAllocated, alloc.next
      ensures Valid() && mem.Valid(alloc, root) && root == old(root) && ranges == old(ranges)
      ensures mappedVobjs == old(mappedVobjs)
      ensures ok ==> VBufferFits(old(ranges.nodes), size, alignment)
      ensures ok ==> ranges.nodes == old(ranges.nodes) && headers == old(headers)
      ensures ok ==> forall w :: Walk(mem.tables, root, w) == Walk(old(mem.tables), root, w)
    {
      var addr;
      ghost var full, frames;
      ok, addr, full, frames := AllocateSize(mem, alloc, size, alignment);
      if !ok {
        return;
      }
      ghost var t1, nodes1, h1 := mem.tables, ranges.nodes, headers;
      assert full.addr + |frames| * PAGE_SIZE <= FOUR_LEVEL_REACH;
      assert AllMapped(mem.tables, root, Whole(HeaderSlot(addr), headers[HeaderSlot(addr)])) by {
        MappedRun(old(mem.tables), t1, root, full, frames);
        MappedAll(t1, root, full, frames);
      }
      assert full.length / PAGE_SIZE == |frames|;
      var freed;
      ghost var hdr;
      freed, hdr := FreeSize(mem, alloc, addr);
      assert freed && hdr == full.addr && Whole(hdr, h1[hdr]) == full;
      AL.TakeReturn(old(ranges.nodes), nodes1, ranges.nodes, AL.Span(full));
      ForgetRecorded(old(headers), full.addr, h1[full.addr]);
      MapThenUnmapRestores(old(mem.tables), t1, mem.tables, root, full, frames);
    }
  }

  /**
   * `ptr` points into a live allocation whose header page is mapped and
   * whose buffer maps `pages` in order: what `free_pages` demands.
   */
  ghost predicate PagesAllocatedAt(headers: map<u64, Range>, ts: Tables, root: u64, ptr: u64, pages: seq<u64>)
  {
    HeaderSlot(ptr) in headers && PagesMapped(ts, root, HeaderSlot(ptr), headers[HeaderSlot(ptr)], pages)
  }

  /** The first `i + 1` frames of a list are its first `i` and frame `i`, which is not among them when the list is distinct. */
  lemma ElemsNext(s: seq<u64>, i: nat)
    requires i < |s|
    ensures Elems(s[..i + 1]) == Elems(s[..i]) + {s[i]}
    ensures Distinct(s) ==> s[i] !in Elems(s[..i])
  {
    assert s[..i + 1] == s[..i] + [s[i]];
  }

  /** `VSpaceMapping`: a space a `VObject` is mapped into and the address its buffer got there. */
  datatype Mapping = Mapping(vspace: VSpace, addr: u64)

  /** The address the first mapping into `vspace` got. */
  function MappedAddr(ms: seq<Mapping>, vspace: VSpace): (addr: u64)
    requires vspace in SpacesOf(ms)
    ensures exists i :: 0 <= i < |ms| && ms[i] == Mapping(vspace, addr)
  {
    ms[Vectors.FirstIndex(SpacesOf(ms), vspace).value].addr
  }

  /** The spaces of a list of mappings, in order. */
  function SpacesOf(ms: seq<Mapping>): (r: seq<VSpace>)
    ensures |r| == |ms| && forall i :: 0 <= i < |ms| ==> r[i] == ms[i].vspace
  {
    seq(|ms|, i requires 0 <= i < |ms| => ms[i].vspace)
  }

  /**
   * The number of frames a `VObject` takes: its worst-case size in whole
   * pages, `round_up_divide(worst_case_size(alloc_size, align), 4096)`.
   */
  function PageCount(allocSize: u64, alignment: u64): (n: u64)
    ensures var need := allocSize + (if alignment == 0 then 0 else alignment - 1);
      need + 4095 < U64_MOD ==> n * 4096 == WorstCaseSize(allocSize, alignment) && need <= n * 4096 < need + 4096
  {
    var w := WorstCaseSize(allocSize, alignment);
    var n := RoundUpDivide(w, 4096);
    var need := allocSize + (if alignment == 0 then 0 else alignment - 1);
    if need + 4095 < U64_MOD then ExactQuotient(w, n); n else n
  }

  /** Rounding up the quotient of a whole number of pages by the page size gives that number exactly. */
  lemma ExactQuotient(w: nat, n: int)
    requires w % 4096 == 0 && n * 4096 >= w && (n - 1) * 4096 < w
    ensures n * 4096 == w
  {
    var q := w / 4096;
    assert w == q * 4096;
    assert (n - q) * 4096 >= 0 && (n - 1 - q) * 4096 < 0;
  }

  /**
   * `VObject`: frames (`underlying_pages`) that can be mapped into several
   * spaces at once, and the list of spaces it is mapped into. Each mapping
   * gets its own header page in its space; the frames are the object's.
   */
  class VObject {
    /** `underlying_pages` */
    const pages: seq<u64>
    /** `alignment`: the alignment of the address each mapping returns. */
    const alignment: u64
    /** `vspaces_mapped_in` */
    var mappings: seq<Mapping>

    /** `VObject()`: no frames, alignment 0, mapped nowhere. */
    constructor Empty()
      ensures pages == [] && alignment == 0 && mappings == []
    {
      pages, alignment, mappings := [], 0, [];
    }

    /** An object over frames already taken, mapped nowhere. */
    constructor FromPages(taken: seq<u64>, align: u64)
      ensures pages == taken && alignment == align && mappings == []
    {
      pages, alignment, mappings := taken, align, [];
    }

    /**
     * `VObject(alloc_size, align)`: takes one frame from the allocator for
     * each page of the worst-case size. An empty free list is fatal in
     * `allocate_page` (`ok == false`), so the object is made exactly when
     * the free list holds at least that many frames; the frames taken
     * before the halt are left in the returned object.
     */
    static method Create(alloc: PhysicalPageAllocator, allocSize: u64, align: u64) returns (ok: bool, obj: VObject)
      requires alloc.Valid()
      modifies alloc, alloc.isAllocated, alloc.next
      ensures alloc.Valid() && fresh(obj) && obj.alignment == align && obj.mappings == []
      ensures ok <==> |old(alloc.chain)| >= PageCount(allocSize, align) as int
      ensures ok ==> |obj.pages| == PageCount(allocSize, align) as int
      ensures Distinct(obj.pages) && forall k :: 0 <= k < |obj.pages| ==> obj.pages[k] in alloc.AllFrames()
      ensures Elems(obj.pages) <= old(alloc.FreeFrames()) && alloc.FreeFrames() == old(alloc.FreeFrames()) - Elems(obj.pages)
    {
      var count := PageCount(allocSize, align);
      var taken: seq<u64> := [];
      var i: u64 := 0;
      ok := true;
      while i < count
        invariant alloc.Valid() && i as int == |taken| <= count as int
        invariant |alloc.chain| + |taken| == |old(alloc.chain)|
        invariant Distinct(taken) && forall k :: 0 <= k < |taken| ==> taken[k] in alloc.AllFrames()
        invariant Elems(taken) <= old(alloc.FreeFrames()) && alloc.FreeFrames() == old(alloc.FreeFrames()) - Elems(taken)
      {
        var page := alloc.AllocatePage();
        if page.None? {
          ok := false;
          break;
        }
        taken := taken + [page.value];
        i := i + 1;
      }
      obj := new VObject.FromPages(taken, align);
    }

    /** The search loop of `unmap`: the first mapping into `vspace`. */
    method FindMapping(vspace: VSpace) returns (found: bool, i: nat)
      ensures found <==> vspace in SpacesOf(mappings)
      ensures found ==> Vectors.FirstIndex(SpacesOf(mappings), vspace) == Some(i)
    {
      i := 0;
      while i < |mappings|
        invariant i <= |mappings| && vspace !in SpacesOf(mappings)[..i]
      {
        if mappings[i].vspace == vspace {
          return true, i;
        }
        i := i + 1;
      }
      assert SpacesOf(mappings)[..i] == SpacesOf(mappings);
      found := false;
    }

    /** `map`: maps the frames into `vspace` with `allocate_vobj` and records the mapping. */
    method Map(vspace: VSpace, mem: PageTableMemory, alloc: PhysicalPageAllocator) returns (ok: bool, addr: u64)
      requires vspace.Valid() && mem.Valid(alloc, vspace.root) && Distinct(pages) && |pages| < 0x1_0000_0000
      requires UsableFrom(mem.tables, alloc.FreeFrames(), FramesOf(alloc.region, alloc.pageCount), pages, 0)
      modifies this, vspace, vspace.ranges, mem, alloc, alloc.isAllocated, alloc.next
      ensures vspace.Valid() && mem.Valid(alloc, vspace.root) && vspace.root == old(vspace.root)
      ensures ok ==> mappings == old(mappings) + [Mapping(vspace, addr)]
      ensures ok ==> vspace.mappedVobjs == old(vspace.mappedVobjs) + [this]
      ensures ok ==> HeaderSlot(addr) !in old(vspace.headers) && vspace.headers - {HeaderSlot(addr)} == old(vspace.headers)
      ensures ok ==> PagesAllocatedAt(vspace.headers, mem.tables, vspace.root, addr, pages)
      ensures !ok ==> mappings == old(mappings)
    {
      ok, addr := vspace.AllocateVobj(mem, alloc, this);
      if ok {
        mappings := mappings + [Mapping(vspace, addr)];
      }
    }

    /**
     * `unmap`: the first mapping into `vspace` (fatal if there is none) is
     * freed with `free_vobj` and removed, the last mapping taking its slot.
     */
    method Unmap(vspace: VSpace, mem: PageTableMemory, alloc: PhysicalPageAllocator) returns (ok: bool)
      requires vspace.Valid() && mem.Valid(alloc, vspace.root)
      modifies this, vspace, vspace.ranges, mem, alloc, alloc.isAllocated, alloc.next
      ensures vspace.Valid() && mem.Valid(alloc, vspace.root) && vspace.root == old(vspace.root)
      ensures ok <==> (vspace in SpacesOf(old(mappings)) && this in old(vspace.mappedVobjs) &&
        PagesAllocatedAt(old(vspace.headers), old(mem.tables), vspace.root, MappedAddr(old(mappings), vspace), pages))
      ensures !ok ==> mappings == old(mappings)
      ensures ok ==> mappings == Vectors.UnstableRemoved(old(mappings), Vectors.FirstIndex(SpacesOf(old(mappings)), vspace).value)
      ensures ok ==> vspace.mappedVobjs == Vectors.UnstableRemoved(old(vspace.mappedVobjs), Vectors.FirstIndex(old(vspace.mappedVobjs), this).value)
      ensures ok ==> var hdr := HeaderSlot(MappedAddr(old(mappings), vspace));
        vspace.headers == old(vspace.headers) - {hdr} && UnmapsRun(old(mem.tables), mem.tables, vspace.root, Slot(hdr), 1 + |pages|)
    {
      var found, i := FindMapping(vspace);
      if !found {
        return false;
      }
      var addr := mappings[i].addr;
      ok := vspace.FreeVobj(mem, alloc, this, addr);
      if ok {
        mappings := Vectors.UnstableRemoved(mappings, i);
      }
    }

    /**
     * `~VObject`: the object must be mapped nowhere (fatal otherwise); each
     * frame goes back to the allocator, and one that is already free is a
     * fatal double free.
     */
    method Destroy(alloc: PhysicalPageAllocator) returns (ok: bool)
      requires alloc.Valid() && Distinct(pages) && forall k :: 0 <= k < |pages| ==> pages[k] in alloc.AllFrames()
      modifies alloc, alloc.isAllocated, alloc.next
      ensures alloc.Valid()
      ensures ok <==> mappings == [] && forall k :: 0 <= k < |pages| ==> pages[k] !in old(alloc.FreeFrames())
      ensures ok ==> alloc.FreeFrames() == old(alloc.FreeFrames()) + Elems(pages)
    {
      if mappings != [] {
        return false;
      }
      var i := 0;
      while i < |pages|
        invariant alloc.Valid() && i <= |pages|
        invariant forall k :: 0 <= k < i ==> pages[k] !in old(alloc.FreeFrames())
        invariant alloc.FreeFrames() == old(alloc.FreeFrames()) + Elems(pages[..i])
      {
        alloc.ManagedFrame(pages[i]);
        ElemsNext(pages, i);
        var freed := alloc.FreePage(pages[i]);
        if !freed {
          return false;
        }
        i := i + 1;
      }
      assert pages[..i] == pages;
      ok := true;
    }
  }

  /**
   * A `VObject` made and destroyed without being mapped gives every frame
   * it took back: the free frames are as before.
   */
  method CreateThenDestroy(alloc: PhysicalPageAllocator, allocSize: u64, align: u64) returns (ok: bool)
    requires alloc.Valid()
    modifies alloc, alloc.isAllocated, alloc.next
    ensures alloc.Valid()
    ensures ok <==> |old(alloc.chain)| >= PageCount(allocSize, align) as int
    ensures ok ==> alloc.FreeFrames() == old(alloc.FreeFrames())
  {
    var made, obj := VObject.Create(alloc, allocSize, align);
    if !made {
      return false;
    }
    ok := obj.Destroy(alloc);
  }
}
