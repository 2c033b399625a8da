/**
 * The physical page allocator (`kernel/physical_allocator.cpp`).
 *
 * `init` carves a page-aligned physical range into a metadata array of
 * 16-byte `PhysicalPage` slots at the front and the allocatable 4 KiB frames
 * behind it. Each slot holds `is_allocated` and an intrusive `freelist_next`
 * pointer; free frames form a LIFO chain starting at `m_freelist`.
 */
module PhysicalAllocator {
  import opened Types
  import opened Bits
  import opened Math
  import opened Range

  const PAGE_SIZE: nat := 4096
  /** `sizeof(PhysicalPage)`: an 8-byte pointer and a bool, padded to 16. */
  const SLOT_SIZE: nat := 16

  /** What `init` demands of the range it is given (its three ASSERTs), and that it does not wrap. */
  predicate InitRequires(range: Range)
  {
    range.addr % PAGE_SIZE == 0 && range.length % PAGE_SIZE == 0 && NoWrap(range)
  }

  /** The split `init` computes: metadata range, allocatable range, `m_page_count`. */
  datatype Layout = Layout(allocator: Range, allocatable: Range, pageCount: nat)

  /** The two sub-ranges are consecutive, page aligned and lie inside `range`. */
  predicate Carved(range: Range, l: Layout)
  {
    l.allocator.addr == range.addr &&
    l.allocator.length % PAGE_SIZE == 0 &&
    l.allocatable.addr == range.addr + l.allocator.length &&
    l.allocatable.addr % PAGE_SIZE == 0 &&
    l.allocatable.length % PAGE_SIZE == 0 &&
    l.allocatable.addr + l.allocatable.length <= range.addr + range.length
  }

  /** The metadata array of `pageCount` slots fits in the metadata range. */
  predicate MetadataFits(l: Layout)
  {
    l.pageCount * SLOT_SIZE <= l.allocator.length
  }

  /**
   * Lines 65-74: the length of the metadata range for a range of `num`
   * pages: a slot array for every page, less the pages that array itself
   * occupies, rounded up to whole pages.
   */
  function MetadataLength(num: nat): (len: u64)
    requires num < 0x10_0000_0000_0000
    ensures len % PAGE_SIZE == 0 && len <= num * PAGE_SIZE
  {
    var useless := RoundUpDivide(num * SLOT_SIZE, PAGE_SIZE);
    UselessAtMostNum(num, useless);
    var arrSize := (num - useless) * SLOT_SIZE;
    var len := RoundUpAlign(arrSize, PAGE_SIZE);
    MetadataWithinRange(num, arrSize, len);
    len
  }

  /** The pages the metadata occupies never outnumber the pages there are. */
  lemma UselessAtMostNum(num: nat, useless: nat)
    requires useless * PAGE_SIZE >= num * SLOT_SIZE && (useless - 1) * PAGE_SIZE < num * SLOT_SIZE
    ensures useless <= num
  {
  }

  /** Rounding the shrunk slot array up to pages stays within the range's pages. */
  lemma MetadataWithinRange(num: nat, arrSize: nat, rounded: nat)
    requires arrSize <= num * SLOT_SIZE
    requires rounded % PAGE_SIZE == 0 && rounded < arrSize + PAGE_SIZE
    ensures rounded <= num * PAGE_SIZE
  {
    var k := rounded / PAGE_SIZE;
    assert rounded == PAGE_SIZE * k;
  }

  /**
   * Lines 72-82: the metadata range at the front, the allocatable range
   * behind it. The ASSERTs at lines 84-86 hold: the allocatable range is
   * exactly the rest of `range`.
   */
  function Split(range: Range): (r: (Range, Range))
    requires InitRequires(range)
    ensures r.0.addr == range.addr && r.0.length % PAGE_SIZE == 0
    ensures r.1.addr == range.addr + r.0.length && r.1.addr % PAGE_SIZE == 0
    ensures r.1.addr + r.1.length == range.addr + range.length && r.1.length % PAGE_SIZE == 0
  {
    var num := range.length / PAGE_SIZE;
    assert num * PAGE_SIZE == range.length;
    var allocator := Range(range.addr, MetadataLength(num));
    var usableBase := OnePastEnd(allocator);
    var usableSize := range.length - allocator.length;
    assert usableBase % PAGE_SIZE == 0 && usableSize % PAGE_SIZE == 0 by {
      DivModUnique(usableBase, PAGE_SIZE, range.addr / PAGE_SIZE + allocator.length / PAGE_SIZE, 0);
      DivModUnique(usableSize, PAGE_SIZE, num - allocator.length / PAGE_SIZE, 0);
    }
    AlignFixedPoints(usableBase, PAGE_SIZE);
    AlignFixedPoints(usableSize, PAGE_SIZE);
    var allocatable := Range(RoundUpAlign(usableBase, PAGE_SIZE), RoundDownAlign(usableSize, PAGE_SIZE));
    (allocator, allocatable)
  }

  /**
   * `init` as written: `m_page_count` is the allocatable length in pages,
   * stored in a `u32`, and the ASSERT at line 96 multiplies it by 4096 in
   * 32-bit arithmetic, so it halts (None) once the product wraps.
   */
  function InitLayoutAsWritten(range: Range): (r: Option<Layout>)
    requires InitRequires(range)
    ensures r.Some? ==> Carved(range, r.value) && r.value.pageCount * PAGE_SIZE == r.value.allocatable.length
  {
    var (allocator, allocatable) := Split(range);
    var pageCount := (allocatable.length / PAGE_SIZE) % U32_MOD;
    if (pageCount * PAGE_SIZE) % U32_MOD != allocatable.length then None
    else Some(Layout(allocator, allocatable, pageCount))
  }

  /**
   * `init` with the metadata array sized to what it must hold: the page
   * count is capped at the slots the metadata range has room for, and the
   * allocatable range shrinks to match; the count is kept in 64 bits.
   */
  function InitLayout(range: Range): (l: Layout)
    requires InitRequires(range)
    ensures Carved(range, l) && MetadataFits(l)
    ensures l.pageCount * PAGE_SIZE == l.allocatable.length
  {
    var (allocator, allocatable) := Split(range);
    var pageCount := Min(allocatable.length / PAGE_SIZE, allocator.length / SLOT_SIZE);
    assert pageCount * SLOT_SIZE <= allocator.length by {
      assert (allocator.length / SLOT_SIZE) * SLOT_SIZE <= allocator.length;
    }
    assert pageCount * PAGE_SIZE <= allocatable.length by {
      assert (allocatable.length / PAGE_SIZE) * PAGE_SIZE <= allocatable.length;
    }
    MulMod(pageCount, PAGE_SIZE);
    Layout(allocator, Range(allocatable.addr, pageCount * PAGE_SIZE), pageCount)
  }

  /** The correction changes nothing where the source's layout was sound. */
  lemma InitLayoutAgrees(range: Range)
    requires InitRequires(range)
    requires InitLayoutAsWritten(range).Some? && MetadataFits(InitLayoutAsWritten(range).value)
    ensures InitLayout(range) == InitLayoutAsWritten(range).value
  {
  }

  /**
   * A 258-page range: the metadata range gets one page (256 slots) but
   * `m_page_count` is 257, so slot 256 lies in the first allocatable frame.
   */
  lemma MetadataOverflow258()
    ensures InitRequires(Range(0, 258 * PAGE_SIZE))
    ensures InitLayoutAsWritten(Range(0, 258 * PAGE_SIZE)) == Some(Layout(Range(0, 4096), Range(4096, 257 * 4096), 257))
    ensures !MetadataFits(InitLayoutAsWritten(Range(0, 258 * PAGE_SIZE)).value)
  {
  }

  /** An 8 GiB range: the 32-bit product at line 96 wraps and `init` halts. */
  lemma InitHalts8GiB()
    ensures InitRequires(Range(0, 0x2_0000_0000))
    ensures InitLayoutAsWritten(Range(0, 0x2_0000_0000)) == None
  {
  }

  /** The null `freelist_next` / `m_freelist` pointer, as a slot index. */
  const NULL: int := -1

  /** The 4096 zero bytes `allocate_page` writes into a frame it hands out. */
  function ZeroFrame(): (f: seq<u8>)
    ensures |f| == PAGE_SIZE && forall i :: 0 <= i < |f| ==> f[i] == 0
  {
    seq(PAGE_SIZE, _ => 0)
  }

  /** The free chain visits distinct slots below `count`. */
  ghost predicate ChainShape(chain: seq<nat>, count: nat)
  {
    (forall k :: 0 <= k < |chain| ==> chain[k] < count) &&
    (forall j, k :: 0 <= j < k < |chain| ==> chain[j] != chain[k])
  }

  /** Following `links` from the first slot of `chain` visits exactly `chain`, then NULL. */
  ghost predicate Linked(links: seq<int>, chain: seq<nat>)
  {
    (forall k :: 0 <= k < |chain| ==> chain[k] < |links|) &&
    (forall j, k {:trigger chain[j], chain[k]} :: 0 <= j && k == j + 1 && k < |chain| ==> links[chain[j]] == chain[k]) &&
    (chain != [] ==> links[chain[|chain| - 1]] == NULL)
  }

  /** A slot is free exactly when it is on the chain. */
  ghost predicate FreeIffChained(taken: seq<bool>, chain: seq<nat>)
  {
    forall i :: 0 <= i < |taken| ==> (!taken[i] <==> i in chain)
  }

  /** Popping the head keeps the rest of the chain linked and accounted for. */
  lemma PopChain(links: seq<int>, taken: seq<bool>, chain: seq<nat>)
    requires chain != [] && ChainShape(chain, |taken|)
    requires Linked(links, chain) && FreeIffChained(taken, chain)
    ensures ChainShape(chain[1..], |taken|)
    ensures Linked(links[chain[0] := NULL], chain[1..])
    ensures FreeIffChained(taken[chain[0] := true], chain[1..])
  {
    var rest := chain[1..];
    var links' := links[chain[0] := NULL];
    forall j, k | 0 <= j && k == j + 1 && k < |rest|
      ensures links'[rest[j]] == rest[k]
    {
      assert rest[j] == chain[j + 1] != chain[0] && rest[k] == chain[k + 1];
    }
    if rest != [] {
      assert rest[|rest| - 1] == chain[|chain| - 1] != chain[0];
    }
    assert Linked(links', rest);
    forall j | 0 <= j < |taken|
      ensures !taken[chain[0] := true][j] <==> j in rest
    {
      if j != chain[0] && j in chain {
        var k :| 0 <= k < |chain| && chain[k] == j;
        assert rest[k - 1] == j;
      }
      if j in rest {
        var k :| 0 <= k < |rest| && rest[k] == j;
        assert chain[k + 1] == j;
      }
    }
  }

  /** Pushing an allocated slot on the head keeps the chain linked and accounted for. */
  lemma PushChain(links: seq<int>, taken: seq<bool>, chain: seq<nat>, i: nat)
    requires i < |taken| && |links| == |taken| && taken[i]
    requires ChainShape(chain, |taken|) && Linked(links, chain) && FreeIffChained(taken, chain)
    ensures ChainShape([i] + chain, |taken|)
    ensures Linked(links[i := if chain == [] then NULL else chain[0]], [i] + chain)
    ensures FreeIffChained(taken[i := false], [i] + chain)
  {
    var longer := [i] + chain;
    assert i !in chain;
    forall j | 0 <= j < |taken|
      ensures !taken[i := false][j] <==> j in longer
    {
      if j in chain {
        var k :| 0 <= k < |chain| && chain[k] == j;
        assert longer[k + 1] == j;
      }
    }
    var links' := links[i := if chain == [] then NULL else chain[0]];
    forall j, k | 0 <= j && k == j + 1 && k < |longer|
      ensures links'[longer[j]] == longer[k]
    {
      if j > 0 {
        assert longer[j] == chain[j - 1] != i && longer[k] == chain[k - 1];
      }
    }
    assert longer[|longer| - 1] == if chain == [] then i else chain[|chain| - 1];
    assert Linked(links', longer);
  }

  /** The chain `0 -> 1 -> ... -> count-1` that `init` links. */
  function Ascending(count: nat): (c: seq<nat>)
    ensures |c| == count && forall k :: 0 <= k < count ==> c[k] == k
  {
    seq(count, k => k)
  }

  /** The frames of `count` pages starting at `region.addr`. */
  ghost function FramesOf(region: Range, count: nat): set<int>
  {
    set k | 0 <= k < count :: FrameAt(region.addr, k)
  }

  /** The address of the frame of slot `k`, for a region starting at `base`. */
  function FrameAt(base: int, k: nat): int
  {
    base + k * PAGE_SIZE
  }

  /** The frames of the slots on `chain`, for a region starting at `base`. */
  ghost function ChainFrames(base: int, chain: seq<nat>): set<int>
  {
    set k | k in chain :: FrameAt(base, k)
  }

  /** Dropping the head of a chain of distinct slots drops exactly its frame. */
  lemma PopFrames(base: int, chain: seq<nat>)
    requires chain != []
    requires forall j, k :: 0 <= j < k < |chain| ==> chain[j] != chain[k]
    ensures FrameAt(base, chain[0]) in ChainFrames(base, chain)
    ensures ChainFrames(base, chain[1..]) == ChainFrames(base, chain) - {FrameAt(base, chain[0])}
  {
    var rest := chain[1..];
    var f0 := FrameAt(base, chain[0]);
    forall x | x in ChainFrames(base, chain) && x != f0
      ensures x in ChainFrames(base, rest)
    {
      var k :| k in chain && x == FrameAt(base, k);
      var n :| 0 <= n < |chain| && chain[n] == k;
      assert n != 0;
      assert rest[n - 1] == k;
    }
    forall x | x in ChainFrames(base, rest)
      ensures x in ChainFrames(base, chain) && x != f0
    {
      var k :| k in rest && x == FrameAt(base, k);
      var n :| 0 <= n < |rest| && rest[n] == k;
      assert chain[n + 1] == k;
      assert k != chain[0];
    }
  }

  /** Pushing a slot that is not on the chain adds exactly its frame. */
  lemma PushFrames(base: int, chain: seq<nat>, i: nat)
    requires i !in chain
    ensures FrameAt(base, i) !in ChainFrames(base, chain)
    ensures ChainFrames(base, [i] + chain) == ChainFrames(base, chain) + {FrameAt(base, i)}
  {
    var longer := [i] + chain;
    forall x | x in ChainFrames(base, longer)
      ensures x in ChainFrames(base, chain) + {FrameAt(base, i)}
    {
      var k :| k in longer && x == FrameAt(base, k);
      if k != i {
        assert k in chain;
        assert x in ChainFrames(base, chain);
      }
    }
    forall x | x in ChainFrames(base, chain)
      ensures x in ChainFrames(base, longer)
    {
      var k :| k in chain && x == FrameAt(base, k);
      assert k in longer;
    }
    forall k | k in chain
      ensures FrameAt(base, k) != FrameAt(base, i)
    {
      assert k != i;
    }
  }

  /** An address inside a region of `count` frames lies in slot `(addr - base) / 4096`, the frame it starts when aligned. */
  lemma SlotOf(region: Range, count: nat, addr: int)
    requires region.addr % PAGE_SIZE == 0 && region.length == count * PAGE_SIZE && Contains(region, addr)
    ensures var i := (addr - region.addr) / PAGE_SIZE;
      0 <= i < count && (addr % PAGE_SIZE == 0 ==> FrameAt(region.addr, i) == addr)
  {
    var d := addr - region.addr;
    var i := d / PAGE_SIZE;
    assert d == PAGE_SIZE * i + d % PAGE_SIZE;
    assert 0 <= i;
    if i >= count {
      MulAtLeast(PAGE_SIZE, i - count + 1);
    }
    if addr % PAGE_SIZE == 0 {
      DivModUnique(addr, PAGE_SIZE, region.addr / PAGE_SIZE + i, d % PAGE_SIZE);
    }
  }

  /** The frame of slot `i` is aligned, inside the region, one of its frames, and names slot `i` back. */
  lemma SlotFrame(region: Range, count: nat, i: nat)
    requires region.addr % PAGE_SIZE == 0 && region.length == count * PAGE_SIZE && i < count
    ensures var f := FrameAt(region.addr, i);
      f % PAGE_SIZE == 0 && Contains(region, f) && f in FramesOf(region, count) &&
      (f - region.addr) / PAGE_SIZE == i
  {
    var f := region.addr + i * PAGE_SIZE;
    DivModUnique(f, PAGE_SIZE, region.addr / PAGE_SIZE + i, 0);
    DivModUnique(f - region.addr, PAGE_SIZE, i, 0);
    assert i * PAGE_SIZE < count * PAGE_SIZE by {
      assert (count - i) * PAGE_SIZE >= PAGE_SIZE by { MulAtLeast(PAGE_SIZE, count - i); }
    }
  }

  class PhysicalPageAllocator {
    /** `m_allocation_region`: the frames handed out, slot `i` for frame `addr + 4096*i`. */
    const region: Range
    /** `m_page_count` */
    const pageCount: nat
    /** `m_pages[i].is_allocated` */
    const isAllocated: array<bool>
    /** `m_pages[i].freelist_next`, as a slot index or NULL */
    const next: array<int>
    /** `m_freelist`, as a slot index or NULL */
    var head: int
    /** Contents of the frames the allocator has written, by physical address. */
    var memory: map<u64, seq<u8>>
    /** The free list, read from `head` along `next`. */
    ghost var chain: seq<nat>

    ghost predicate Valid()
      reads this, isAllocated, next
    {
      isAllocated.Length == pageCount && next.Length == pageCount &&
      region.addr % PAGE_SIZE == 0 && NoWrap(region) && region.length == pageCount * PAGE_SIZE &&
      ChainShape(chain, pageCount) &&
      head == (if |chain| == 0 then NULL else chain[0]) &&
      Linked(next[..], chain) &&
      FreeIffChained(isAllocated[..], chain)
    }

    /** The frames on the free list. */
    ghost function FreeFrames(): set<int>
      reads this
    {
      ChainFrames(region.addr, chain)
    }

    /** Every frame the allocator manages, free or not. */
    ghost function AllFrames(): set<int>
      reads this
    {
      FramesOf(region, pageCount)
    }

    /**
     * `init` on the corrected layout: every frame is free and the chain runs
     * through the slots in ascending order. The slots start zeroed
     * (not taken, null link); the loop writes every link but the last.
     */
    constructor Init(range: Range)
      requires InitRequires(range)
      ensures Valid() && fresh(isAllocated) && fresh(next)
      ensures region == InitLayout(range).allocatable && pageCount == InitLayout(range).pageCount
      ensures chain == Ascending(pageCount)
      ensures forall i :: 0 <= i < pageCount ==> !isAllocated[i]
      ensures memory == map[]
    {
      var layout := InitLayout(range);
      var count := layout.pageCount;
      var links := new int[count](_ => NULL);
      var i := 1;
      while i < count
        invariant 1 <= i && (count > 0 ==> i <= count)
        invariant forall k :: 0 <= k < count ==> links[k] == if k < i - 1 then k + 1 else NULL
      {
        links[i - 1] := i;
        i := i + 1;
      }
      region := layout.allocatable;
      pageCount := count;
      isAllocated := new bool[count](_ => false);
      next := links;
      head := if count > 0 then 0 else NULL;
      memory := map[];
      chain := Ascending(count);
      new;
      forall j | 0 <= j < count
        ensures j in chain
      {
        assert chain[j] == j;
      }
    }

    /**
     * `allocate_page`: pops the head of the free list, marks the slot
     * taken, zero-fills its frame and returns the frame's address. An
     * empty free list is fatal (None, nothing changes).
     */
    method AllocatePage() returns (r: Option<u64>)
      requires Valid()
      modifies this, isAllocated, next
      ensures Valid()
      ensures old(chain) == [] ==>
        r == None && chain == old(chain) && isAllocated[..] == old(isAllocated[..]) && memory == old(memory)
      ensures old(chain) != [] ==>
        var i := old(chain[0]);
        r == Some(FrameAt(region.addr, i)) && chain == old(chain[1..]) &&
        isAllocated[..] == old(isAllocated[..])[i := true] &&
        memory == old(memory)[FrameAt(region.addr, i) := ZeroFrame()]
      ensures r.Some? ==> r.value % PAGE_SIZE == 0 && Contains(region, r.value) && r.value in AllFrames()
      ensures r.Some? ==> r.value in old(FreeFrames()) && FreeFrames() == old(FreeFrames()) - {r.value}
      ensures r.None? ==> FreeFrames() == old(FreeFrames())
    {
      if head == NULL {
        return None;
      }
      var i := head;
      ghost var links, taken, ch := next[..], isAllocated[..], chain;
      PopChain(links, taken, ch);
      PopFrames(region.addr, ch);
      SlotFrame(region, pageCount, i);
      head := next[i];
      isAllocated[i] := true;
      next[i] := NULL;
      chain := ch[1..];
      assert isAllocated[..] == taken[i := true];
      assert next[..] == links[i := NULL];
      var addr := FrameAt(region.addr, i);
      memory := memory[addr := ZeroFrame()];
      r := Some(addr);
    }

    /**
     * `free_page`: a misaligned address or a frame that is not taken
     * (a double free) is fatal (false, nothing changes); otherwise the slot
     * is marked free and pushed on the head of the free list.
     */
    method FreePage(addr: u64) returns (ok: bool)
      requires Valid()
      requires Contains(region, addr)
      modifies this, isAllocated, next
      ensures Valid()
      ensures memory == old(memory)
      ensures var i := (addr - region.addr) / PAGE_SIZE;
        ok <==> addr % PAGE_SIZE == 0 && old(isAllocated[i])
      ensures !ok ==> chain == old(chain) && isAllocated[..] == old(isAllocated[..])
      ensures ok ==> var i := (addr - region.addr) / PAGE_SIZE;
        chain == [i] + old(chain) && isAllocated[..] == old(isAllocated[..])[i := false]
      ensures ok ==> addr !in old(FreeFrames()) && FreeFrames() == old(FreeFrames()) + {addr}
      ensures !ok ==> FreeFrames() == old(FreeFrames())
      ensures addr in AllFrames() ==> (ok <==> addr !in old(FreeFrames()))
    {
      if addr in AllFrames() && addr !in FreeFrames() {
        TakenFrame(addr);
      }
      SlotOf(region, pageCount, addr);
      if addr % PAGE_SIZE != 0 {
        return false;
      }
      var i := (addr - region.addr) / PAGE_SIZE;
      if !isAllocated[i] {
        return false;
      }
      ghost var links, taken, ch := next[..], isAllocated[..], chain;
      PushChain(links, taken, ch, i);
      assert i !in ch;
      PushFrames(region.addr, ch, i);
      assert FrameAt(region.addr, i) == addr;
      isAllocated[i] := false;
      next[i] := head;
      head := i;
      chain := [i] + ch;
      assert isAllocated[..] == taken[i := false];
      assert next[..] == links[i := if ch == [] then NULL else ch[0]];
      ok := true;
    }

    /** A managed frame that is not on the free list is aligned, inside the region and marked taken. */
    lemma TakenFrame(f: int)
      requires Valid() && f in AllFrames() && f !in FreeFrames()
      ensures Contains(region, f) && f % PAGE_SIZE == 0 && isAllocated[(f - region.addr) / PAGE_SIZE]
    {
      var k :| 0 <= k < pageCount && f == region.addr + k * PAGE_SIZE;
      DivModUnique(f - region.addr, PAGE_SIZE, k, 0);
      DivModUnique(f, PAGE_SIZE, region.addr / PAGE_SIZE + k, 0);
    }

    /** A managed frame is aligned and inside the region, so `free_page` may be given it. */
    lemma ManagedFrame(f: int)
      requires Valid() && f in AllFrames()
      ensures Contains(region, f) && f % PAGE_SIZE == 0
    {
      var k :| 0 <= k < pageCount && f == FrameAt(region.addr, k);
      SlotFrame(region, pageCount, k);
    }

    /** `count_freelist_entries`: walks the free list and counts its links. */
    method CountFreelistEntries() returns (n: nat)
      requires Valid()
      ensures n == |chain|
    {
      n := 0;
      var p := head;
      while p != NULL
        invariant Valid()
        invariant n <= |chain|
        invariant p == if n < |chain| then chain[n] else NULL
        decreases |chain| - n
      {
        assert n + 1 < |chain| ==> next[..][chain[n]] == chain[n + 1];
        p := next[p];
        n := n + 1;
      }
    }

    /**
     * Freeing a frame and allocating again hands back the same frame and
     * restores the free list: the two operations are inverses (LIFO).
     */
    method FreeThenAllocate(addr: u64) returns (ok: bool, r: Option<u64>)
      requires Valid()
      requires Contains(region, addr) && addr % PAGE_SIZE == 0
      requires isAllocated[(addr - region.addr) / PAGE_SIZE]
      modifies this, isAllocated, next
      ensures Valid()
      ensures ok && r == Some(addr)
      ensures chain == old(chain) && isAllocated[..] == old(isAllocated[..])
    {
      var i := (addr - region.addr) / PAGE_SIZE;
      SlotOf(region, pageCount, addr);
      ghost var taken, ch := isAllocated[..], chain;
      ok := FreePage(addr);
      assert chain == [i] + ch && isAllocated[..] == taken[i := false];
      r := AllocatePage();
      assert r.value == FrameAt(region.addr, i);
      assert chain == ([i] + ch)[1..] == ch;
      assert taken[i := false][i := true] == taken;
    }
  }
}
