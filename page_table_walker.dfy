/**
 * The page-table walkers of `kernel/page_tables.cpp` that change memory:
 * `is_empty`, `clear`, both `map_vrange` and both `unmap_vrange` overloads,
 * and `free_page_tables`. The page tables live in physical frames; the
 * class holds their contents by frame address, and new tables and pages
 * come from (and go back to) the physical page allocator.
 */
module PageTableWalker {
  import opened Types
  import opened PageTableFormat
  import opened KernelDefs
  import opened Range
  import opened PageTables
  import opened PhysicalAllocator
  import opened Bits

  /**
   * 2^48, the reach of four-level paging: the highest address the four 9-bit indices and the page offset
   * can spell, plus one. Addresses from 2^47 on are not canonical; the walker does not check for them.
   */
  const FOUR_LEVEL_REACH: int := 0x1_0000_0000_0000

  /** The address of the `k`-th page a walker visits in `r`: `r.addr + 4096*k`. */
  function PageOf(r: Range, k: nat): u64
  {
    if r.addr + k * PAGE_SIZE < U64_MOD then r.addr + k * PAGE_SIZE else 0
  }

  /** The address `k` pages into a range is page `k` of it. */
  lemma NextPage(r: Range, k: nat, v: u64)
    requires v == r.addr + k * PAGE_SIZE < FOUR_LEVEL_REACH
    ensures PageOf(r, k) == v && Slot(v) == Slot(r.addr) + k
  {
    PageSlot(r, k);
  }

  /** Within the reach of four-level paging, the `k`-th page of a range has page number `Slot(r.addr) + k`. */
  lemma PageSlot(r: Range, k: nat)
    requires r.addr + k * PAGE_SIZE < FOUR_LEVEL_REACH
    ensures PageOf(r, k) == r.addr + k * PAGE_SIZE
    ensures Slot(PageOf(r, k)) == Slot(r.addr) + k
  {
    var a := r.addr;
    DivModUnique(a + k * PAGE_SIZE, PAGE_SIZE, a / PAGE_SIZE + k, a % PAGE_SIZE);
    ModSmall(a / PAGE_SIZE, 0x10_0000_0000);
    ModSmall(a / PAGE_SIZE + k, 0x10_0000_0000);
  }

  /**
   * `ts` translates the run of pages numbered `base`, `base + 1`, … to
   * `frames` in order, and every other page as `t0` does.
   */
  ghost predicate MapsRun(t0: Tables, ts: Tables, root: u64, base: nat, frames: seq<u64>)
  {
    forall w :: Walk(ts, root, w) ==
      if base <= Slot(w) < base + |frames| then Some(frames[Slot(w) - base]) else Walk(t0, root, w)
  }

  /** Mapping the page just past a run extends the run by one frame. */
  lemma MapsRunStep(t0: Tables, t1: Tables, t2: Tables, root: u64, base: nat, frames: seq<u64>, v: u64, f: u64)
    requires MapsRun(t0, t1, root, base, frames) && Slot(v) == base + |frames|
    requires Remaps(t1, t2, root, v, Some(f))
    ensures MapsRun(t0, t2, root, base, frames + [f])
  {
    forall w
      ensures Walk(t2, root, w) ==
        if base <= Slot(w) < base + |frames + [f]| then Some((frames + [f])[Slot(w) - base]) else Walk(t0, root, w)
    {
      SameSlotIsSlot(v, w);
    }
  }

  /** A mapped page is a frame taken from the allocator. */
  lemma WalkOwned(ts: Tables, root: u64, free: set<int>, frames: set<int>, w: u64)
    requires Owned(ts, root, free, frames) && Walk(ts, root, w).Some?
    ensures Walk(ts, root, w).value in frames && Walk(ts, root, w).value !in free
  {
    assert Target(ts, Pt(ts, root, w).value, PtIndex(w)) == Walk(ts, root, w);
  }

  /** Every frame of `run` came from `free0`, is no longer in `free`, and no frame occurs twice. */
  ghost predicate FreshRun(run: seq<u64>, free0: set<int>, free: set<int>)
  {
    (forall k :: 0 <= k < |run| ==> run[k] in free0 && run[k] !in free) &&
    (forall k, k' :: 0 <= k < k' < |run| ==> run[k] != run[k'])
  }

  /** The first `n` pages of `vrange` were not mapped in `t0`. */
  ghost predicate UnmappedBefore(t0: Tables, root: u64, vrange: Range, n: nat)
  {
    forall k :: 0 <= k < n ==> Walk(t0, root, PageOf(vrange, k)).None?
  }

  /**
   * What `map_vrange` has done after mapping `|run|` pages of `vrange`:
   * they translate to the frames of `run`, which were unmapped before and
   * taken fresh from the free list; nothing else changed translation.
   */
  ghost predicate MapProgress(t0: Tables, free0: set<int>, ts: Tables, free: set<int>, root: u64, vrange: Range, run: seq<u64>)
  {
    MapsRun(t0, ts, root, Slot(vrange.addr), run) && UnmappedBefore(t0, root, vrange, |run|) &&
    FreshRun(run, free0, free)
  }

  lemma FreshRunStep(run: seq<u64>, f: u64, free0: set<int>, free1: set<int>, free2: set<int>)
    requires FreshRun(run, free0, free1) && f in free1 && f !in free2 && free2 <= free1 <= free0
    ensures FreshRun(run + [f], free0, free2)
  {
    var run' := run + [f];
    forall k | 0 <= k < |run'|
      ensures run'[k] in free0 && run'[k] !in free2
    {
      if k < |run| {
        assert run'[k] == run[k];
      }
    }
    forall k, k' | 0 <= k < k' < |run'|
      ensures run'[k] != run'[k']
    {
      assert run'[k] == run[k];
      if k' < |run| {
        assert run'[k'] == run[k'];
      }
    }
  }

  /** A step that changes no translation and only takes frames keeps the progress made. */
  lemma MapProgressKept(t0: Tables, free0: set<int>, t1: Tables, free1: set<int>, t2: Tables, free2: set<int>,
                        root: u64, vrange: Range, run: seq<u64>)
    requires MapProgress(t0, free0, t1, free1, root, vrange, run) && free2 <= free1
    requires forall w :: Walk(t2, root, w) == Walk(t1, root, w)
    ensures MapProgress(t0, free0, t2, free2, root, vrange, run)
  {
  }

  /** The page just past a run was unmapped before the run was mapped, if it is unmapped now. */
  lemma UnmappedStep(t0: Tables, t1: Tables, root: u64, vrange: Range, run: seq<u64>)
    requires vrange.addr + |run| * PAGE_SIZE < FOUR_LEVEL_REACH
    requires MapsRun(t0, t1, root, Slot(vrange.addr), run) && UnmappedBefore(t0, root, vrange, |run|)
    requires Walk(t1, root, PageOf(vrange, |run|)).None?
    ensures UnmappedBefore(t0, root, vrange, |run| + 1)
  {
    PageSlot(vrange, |run|);
    assert Walk(t1, root, PageOf(vrange, |run|)) == Walk(t0, root, PageOf(vrange, |run|));
  }

  /**
   * One iteration of `map_vrange` in terms of values: page `|run|` of the
   * range was unmapped and gets the frame `f` just taken from the free
   * list, so the run grows by `f`.
   */
  lemma MapVRangeStep(t0: Tables, free0: set<int>, t1: Tables, free1: set<int>, t2: Tables, free2: set<int>,
                      root: u64, vrange: Range, run: seq<u64>, v: u64, f: u64)
    requires free2 <= free1 <= free0 && f in free1 && f !in free2
    requires v == vrange.addr + |run| * PAGE_SIZE < FOUR_LEVEL_REACH
    requires MapProgress(t0, free0, t1, free1, root, vrange, run)
    requires Walk(t1, root, v).None?
    requires Remaps(t1, t2, root, v, Some(f))
    ensures MapProgress(t0, free0, t2, free2, root, vrange, run + [f])
  {
    PageSlot(vrange, |run|);
    assert v == PageOf(vrange, |run|);
    MapsRunStep(t0, t1, t2, root, Slot(vrange.addr), run, v, f);
    UnmappedStep(t0, t1, root, vrange, run);
    FreshRunStep(run, f, free0, free1, free2);
  }

  /**
   * What the page-vector `map_vrange` has done after mapping `|run|` pages:
   * they translate to the frames of `run` and were unmapped before; nothing
   * else changed translation.
   */
  ghost predicate MapsGiven(t0: Tables, ts: Tables, root: u64, vrange: Range, run: seq<u64>)
  {
    MapsRun(t0, ts, root, Slot(vrange.addr), run) && UnmappedBefore(t0, root, vrange, |run|)
  }

  lemma TakeNext(pages: seq<u64>, n: nat)
    requires n < |pages|
    ensures pages[..n + 1] == pages[..n] + [pages[n]]
  {
  }

  /** Mapping the page just past the first `n` pages to `pages[n]` extends the run by one. */
  lemma MapsGivenStep(t0: Tables, t1: Tables, t2: Tables, root: u64, vrange: Range, pages: seq<u64>, n: nat, v: u64)
    requires n < |pages| && v == vrange.addr + n * PAGE_SIZE < FOUR_LEVEL_REACH
    requires MapsGiven(t0, t1, root, vrange, pages[..n]) && Walk(t1, root, v).None?
    requires Remaps(t1, t2, root, v, Some(pages[n]))
    ensures MapsGiven(t0, t2, root, vrange, pages[..n + 1])
  {
    var run := pages[..n];
    TakeNext(pages, n);
    PageSlot(vrange, |run|);
    assert v == PageOf(vrange, |run|);
    MapsRunStep(t0, t1, t2, root, Slot(vrange.addr), run, v, pages[n]);
    UnmappedStep(t0, t1, root, vrange, run);
  }

  lemma MapsGivenKept(t0: Tables, t1: Tables, t2: Tables, root: u64, vrange: Range, run: seq<u64>)
    requires MapsGiven(t0, t1, root, vrange, run)
    requires forall w :: Walk(t2, root, w) == Walk(t1, root, w)
    ensures MapsGiven(t0, t2, root, vrange, run)
  {
  }

  /** No frame occurs twice in `pages`. */
  ghost predicate Distinct(pages: seq<u64>)
  {
    forall i, j :: 0 <= i < j < |pages| ==> pages[i] != pages[j]
  }

  /** The pages from index `n` on are allocated frames that are neither tables nor mapped. */
  ghost predicate UsableFrom(ts: Tables, free: set<int>, frames: set<int>, pages: seq<u64>, n: nat)
  {
    forall i :: n <= i < |pages| ==> pages[i] in frames && Unused(ts, free, pages[i])
  }

  lemma UsableFromStep(ts: Tables, free: set<int>, ts': Tables, free': set<int>, frames: set<int>, pages: seq<u64>, n: nat)
    requires n < |pages| && UsableFrom(ts, free, frames, pages, n) && Distinct(pages)
    requires forall x :: x != pages[n] && Unused(ts, free, x) ==> Unused(ts', free', x)
    ensures UsableFrom(ts', free', frames, pages, n + 1)
  {
    forall i | n + 1 <= i < |pages|
      ensures pages[i] in frames && Unused(ts', free', pages[i])
    {
      assert pages[n] != pages[i];
    }
  }

  /** Frames removed in three steps are the frames removed overall. */
  lemma KeysChain(a: Tables, b: Tables, c: Tables, d: Tables)
    requires d.Keys <= c.Keys <= b.Keys <= a.Keys
    ensures (a.Keys - b.Keys) + (b.Keys - c.Keys) + (c.Keys - d.Keys) == a.Keys - d.Keys
  {
  }

  /** The frames freed over a release and three pruning steps. */
  lemma FreedChain(t0: Tables, t2: Tables, t3: Tables, t4: Tables,
                   free0: set<int>, free1: set<int>, free2: set<int>, free3: set<int>, free4: set<int>, leaf: set<int>)
    requires t4.Keys <= t3.Keys <= t2.Keys <= t0.Keys
    requires free1 == free0 + leaf && free2 == free1 + (t0.Keys - t2.Keys)
    requires free3 == free2 + (t2.Keys - t3.Keys) && free4 == free3 + (t3.Keys - t4.Keys)
    ensures free4 == free0 + (t0.Keys - t4.Keys) + leaf
  {
    KeysChain(t0, t2, t3, t4);
  }

  /** The frames listed in `s`. */
  ghost function Elems(s: seq<u64>): set<int>
  {
    set x: int | x in s
  }

  /**
   * `ts` has no translation for the `n` pages numbered from `base`; every
   * other page translates as in `t0`.
   */
  ghost predicate UnmapsRun(t0: Tables, ts: Tables, root: u64, base: nat, n: nat)
  {
    forall w :: Walk(ts, root, w) == if base <= Slot(w) < base + n then None else Walk(t0, root, w)
  }

  /** Page `k` of `vrange` translated to `frames[k]` in `t0`. */
  ghost predicate MappedBefore(t0: Tables, root: u64, vrange: Range, frames: seq<u64>)
  {
    forall k :: 0 <= k < |frames| ==> Walk(t0, root, PageOf(vrange, k)) == Some(frames[k])
  }

  /**
   * What either `unmap_vrange` has done after unmapping `|frames|` pages:
   * those pages translated to `frames` and now translate to nothing,
   * nothing else changed translation, and the free list gained exactly the
   * tables that were removed and, unless the caller keeps them, the frames.
   */
  ghost predicate UnmapProgress(t0: Tables, free0: set<int>, ts: Tables, free: set<int>, root: u64, vrange: Range,
                                frames: seq<u64>, keep: bool)
  {
    UnmapsRun(t0, ts, root, Slot(vrange.addr), |frames|) && MappedBefore(t0, root, vrange, frames) &&
    ts.Keys <= t0.Keys && free == free0 + (t0.Keys - ts.Keys) + (if keep then {} else Elems(frames))
  }

  /** Before the unmapped run reaches it, the page past the run still translates as it did. */
  lemma UnmapsRunNext(t0: Tables, ts: Tables, root: u64, vrange: Range, n: nat)
    requires vrange.addr + n * PAGE_SIZE < FOUR_LEVEL_REACH
    requires UnmapsRun(t0, ts, root, Slot(vrange.addr), n)
    ensures Walk(ts, root, PageOf(vrange, n)) == Walk(t0, root, PageOf(vrange, n))
  {
    PageSlot(vrange, n);
  }

  /** Unmapping the page just past the run extends the run by one page. */
  lemma UnmapsRunStep(t0: Tables, t1: Tables, t2: Tables, root: u64, base: nat, n: nat, v: u64)
    requires Slot(v) == base + n
    requires UnmapsRun(t0, t1, root, base, n) && Remaps(t1, t2, root, v, None)
    ensures UnmapsRun(t0, t2, root, base, n + 1)
  {
    forall w
      ensures Walk(t2, root, w) == if base <= Slot(w) < base + n + 1 then None else Walk(t0, root, w)
    {
      SameSlotIsSlot(v, w);
    }
  }

  /** The page just past the run translated to `f` in `t0`. */
  lemma MappedBeforeStep(t0: Tables, root: u64, vrange: Range, frames: seq<u64>, f: u64)
    requires MappedBefore(t0, root, vrange, frames) && Walk(t0, root, PageOf(vrange, |frames|)) == Some(f)
    ensures MappedBefore(t0, root, vrange, frames + [f])
  {
    forall k | 0 <= k < |frames| + 1
      ensures Walk(t0, root, PageOf(vrange, k)) == Some((frames + [f])[k])
    {
      if k < |frames| {
        assert (frames + [f])[k] == frames[k];
      }
    }
  }

  /** The free list after one more page: the tables removed so far, plus the frames unless kept. */
  lemma UnmapFreedStep(t0: Tables, t1: Tables, t2: Tables, free0: set<int>, free1: set<int>, free2: set<int>,
                       frames: seq<u64>, f: u64, keep: bool)
    requires t2.Keys <= t1.Keys <= t0.Keys
    requires free1 == free0 + (t0.Keys - t1.Keys) + (if keep then {} else Elems(frames))
    requires free2 == free1 + (t1.Keys - t2.Keys) + (if keep then {} else {f})
    ensures free2 == free0 + (t0.Keys - t2.Keys) + (if keep then {} else Elems(frames + [f]))
  {
    assert Elems(frames + [f]) == Elems(frames) + {f};
  }

  /** One more page unmapped: the progress of either `unmap_vrange` advances by that page's frame. */
  lemma UnmapProgressStep(t0: Tables, free0: set<int>, t1: Tables, free1: set<int>, t2: Tables, free2: set<int>,
                          root: u64, vrange: Range, frames: seq<u64>, v: u64, f: u64, keep: bool)
    requires v == vrange.addr + |frames| * PAGE_SIZE < FOUR_LEVEL_REACH
    requires UnmapProgress(t0, free0, t1, free1, root, vrange, frames, keep)
    requires Walk(t1, root, v) == Some(f) && Remaps(t1, t2, root, v, None) && t2.Keys <= t1.Keys
    requires free2 == free1 + (t1.Keys - t2.Keys) + (if keep then {} else {f})
    ensures UnmapProgress(t0, free0, t2, free2, root, vrange, frames + [f], keep)
  {
    NextPage(vrange, |frames|, v);
    UnmapsRunNext(t0, t1, root, vrange, |frames|);
    UnmapsRunStep(t0, t1, t2, root, Slot(vrange.addr), |frames|, v);
    MappedBeforeStep(t0, root, vrange, frames, f);
    UnmapFreedStep(t0, t1, t2, free0, free1, free2, frames, f, keep);
  }

  /** After a run of pages was mapped, page `k` of the range translates to the `k`-th frame of the run. */
  lemma MappedRun(t0: Tables, ts: Tables, root: u64, vrange: Range, frames: seq<u64>)
    requires vrange.addr + |frames| * PAGE_SIZE <= FOUR_LEVEL_REACH
    requires MapsRun(t0, ts, root, Slot(vrange.addr), frames)
    ensures MappedBefore(ts, root, vrange, frames)
  {
    forall k | 0 <= k < |frames|
      ensures Walk(ts, root, PageOf(vrange, k)) == Some(frames[k])
    {
      MappedRunAt(t0, ts, root, vrange, frames, k);
    }
  }

  lemma MappedRunAt(t0: Tables, ts: Tables, root: u64, vrange: Range, frames: seq<u64>, k: nat)
    requires k < |frames| && vrange.addr + |frames| * PAGE_SIZE <= FOUR_LEVEL_REACH
    requires MapsRun(t0, ts, root, Slot(vrange.addr), frames)
    ensures Walk(ts, root, PageOf(vrange, k)) == Some(frames[k])
  {
    PageSlot(vrange, k);
  }

  /**
   * Unmapping a run of pages that had been mapped where nothing was mapped
   * before gives back the old translation of every address.
   */
  lemma MapThenUnmapRestores(t0: Tables, t1: Tables, t2: Tables, root: u64, vrange: Range, frames: seq<u64>)
    requires vrange.addr + |frames| * PAGE_SIZE <= FOUR_LEVEL_REACH
    requires MapsRun(t0, t1, root, Slot(vrange.addr), frames) && UnmappedBefore(t0, root, vrange, |frames|)
    requires UnmapsRun(t1, t2, root, Slot(vrange.addr), |frames|)
    ensures forall w :: Walk(t2, root, w) == Walk(t0, root, w)
  {
    forall w
      ensures Walk(t2, root, w) == Walk(t0, root, w)
    {
      var base := Slot(vrange.addr);
      if base <= Slot(w) < base + |frames| {
        var k := Slot(w) - base;
        PageSlot(vrange, k);
        SameSlotIsSlot(PageOf(vrange, k), w);
        assert Walk(t0, root, PageOf(vrange, k)).None?;
      }
    }
  }

  /** Every page of `vrange` translates to something. */
  ghost predicate AllMapped(ts: Tables, root: u64, vrange: Range)
  {
    forall k :: 0 <= k < vrange.length / PAGE_SIZE ==> Walk(ts, root, PageOf(vrange, k)).Some?
  }

  /** A range whose pages translate to a run that covers it is mapped throughout. */
  lemma MappedAll(ts: Tables, root: u64, vrange: Range, frames: seq<u64>)
    requires MappedBefore(ts, root, vrange, frames) && |frames| * PAGE_SIZE == vrange.length
    ensures AllMapped(ts, root, vrange)
  {
  }

  /** An unmap that stopped early inside a whole number of pages met a page that was not mapped. */
  lemma UnmapStopped(ts: Tables, root: u64, vrange: Range, n: nat)
    requires vrange.length % PAGE_SIZE == 0 && n * PAGE_SIZE != vrange.length && n * PAGE_SIZE < vrange.length + PAGE_SIZE
    requires n * PAGE_SIZE < vrange.length ==> Walk(ts, root, PageOf(vrange, n)).None?
    ensures !AllMapped(ts, root, vrange)
  {
    assert n * PAGE_SIZE < vrange.length;
    assert n < vrange.length / PAGE_SIZE;
  }

  class PageTableMemory {
    /** The contents of the frames that currently hold page tables. */
    var tables: Tables

    /**
     * The tree under `root` has the page-table shape, and every table and
     * mapped page is a frame the allocator has handed out.
     */
    ghost predicate Valid(alloc: PhysicalPageAllocator, root: u64)
      reads this, alloc, alloc.isAllocated, alloc.next
    {
      alloc.Valid() && Shape(tables, root) &&
      Owned(tables, root, alloc.FreeFrames(), FramesOf(alloc.region, alloc.pageCount))
    }

    /** `PT::is_empty` (and its PD, PDPT and PML4T twins): scans for a present entry. */
    method IsEmpty(t: u64) returns (b: bool)
      requires t in tables
      ensures b <==> Empty(tables[t].entries)
    {
      var entries := tables[t].entries;
      var i := 0;
      while i < |entries|
        invariant 0 <= i <= |entries|
        invariant forall k :: 0 <= k < i ==> !Present(entries[k])
      {
        if Present(entries[i]) {
          return false;
        }
        i := i + 1;
      }
      return true;
    }

    /** `PML4T::clear` (and its PDPT and PD twins): clears every entry in turn. */
    method Clear(t: u64)
      requires t in tables && |tables[t].entries| == ENTRIES
      modifies this
      ensures tables == old(tables)[t := ZeroTable(old(tables[t].level))]
      ensures Empty(tables[t].entries)
    {
      var i := 0;
      while i < ENTRIES
        invariant 0 <= i <= ENTRIES
        invariant tables.Keys == old(tables).Keys && t in tables
        invariant forall u :: u in tables && u != t ==> tables[u] == old(tables[u])
        invariant tables[t].level == old(tables[t].level) && |tables[t].entries| == ENTRIES
        invariant forall k :: 0 <= k < i ==> tables[t].entries[k] == CLEARED
      {
        tables := SetEntry(tables, t, i, CLEARED);
        i := i + 1;
      }
      ClearedNotPresent();
      assert tables[t].entries == ZeroTable(old(tables[t].level)).entries;
    }

    /**
     * The block `map_vrange` runs at each of the upper three levels: if
     * entry `j` of table `t` is not present, allocate a frame, make it an
     * empty table one level down, and point the entry at it (present and
     * writable). An empty free list, or a frame the entry cannot hold, is
     * fatal. Returns the table the entry leads to.
     */
    method EnsureNext(alloc: PhysicalPageAllocator, root: u64, t: u64, j: nat, ghost pending: set<u64>)
      returns (ok: bool, c: u64)
      requires Valid(alloc, root) && t in tables && tables[t].level > 1 && j < ENTRIES
      modifies this, alloc, alloc.isAllocated, alloc.next
      ensures Valid(alloc, root)
      ensures Extends(root, old(tables), old(alloc.FreeFrames()), tables, alloc.FreeFrames())
      ensures t in tables && tables[t].level == old(tables[t].level)
      ensures old(Target(tables, t, j)).Some? ==> ok && tables == old(tables) && c == old(Target(tables, t, j)).value
      ensures ok ==> Target(tables, t, j) == Some(c) && c in tables && tables[c].level == tables[t].level - 1
      ensures ok && Pruned(old(tables), root, pending) ==> Pruned(tables, root, pending - {t} + {c})
    {
      var e := tables[t].entries[j];
      if Present(e) {
        assert !Empty(tables[t].entries);
        return true, GetPhysAddr(e, PHYS_ADDR_MASK);
      }
      ok, c := NewTable(alloc, root, t, j, pending);
    }

    /** The allocating half of `EnsureNext`, for an entry that is not present. */
    method NewTable(alloc: PhysicalPageAllocator, root: u64, t: u64, j: nat, ghost pending: set<u64>)
      returns (ok: bool, c: u64)
      requires Valid(alloc, root) && t in tables && tables[t].level > 1 && j < ENTRIES
      requires Target(tables, t, j).None?
      modifies this, alloc, alloc.isAllocated, alloc.next
      ensures Valid(alloc, root)
      ensures Extends(root, old(tables), old(alloc.FreeFrames()), tables, alloc.FreeFrames())
      ensures t in tables && tables[t].level == old(tables[t].level)
      ensures ok ==> Target(tables, t, j) == Some(c) && c in tables && tables[c].level == tables[t].level - 1
      ensures ok && Pruned(old(tables), root, pending) ==> Pruned(tables, root, pending - {t} + {c})
    {
      var r := alloc.AllocatePage();
      if r.None? {
        return false, 0;
      }
      c := r.value;
      var entry := NewEntry(c);
      if entry.None? {
        return false, 0;
      }
      NewTableStep(tables, root, old(alloc.FreeFrames()), FramesOf(alloc.region, alloc.pageCount), t, j, c, pending);
      tables := SetEntry(tables[c := ZeroTable(tables[t].level - 1)], t, j, entry.value);
      ok := true;
    }

    /**
     * The upper three levels of one `map_vrange` iteration: make sure the
     * PDPT, PD and PT on the way to `v` exist, and return the PT.
     */
    method EnsurePt(alloc: PhysicalPageAllocator, root: u64, v: u64) returns (ok: bool, p1: u64)
      requires Valid(alloc, root)
      modifies this, alloc, alloc.isAllocated, alloc.next
      ensures Valid(alloc, root)
      ensures Extends(root, old(tables), old(alloc.FreeFrames()), tables, alloc.FreeFrames())
      ensures ok ==> Pt(tables, root, v) == Some(p1) && p1 in tables && tables[p1].level == 1
      ensures ok && Pruned(old(tables), root, {}) ==> Pruned(tables, root, {p1})
    {
      ghost var t0, f0 := tables, alloc.FreeFrames();
      var p3, p2;
      ok, p3 := EnsureNext(alloc, root, root, Pml4tIndex(v), {});
      p1 := 0;
      if !ok {
        return;
      }
      ghost var t1, f1 := tables, alloc.FreeFrames();
      ok, p2 := EnsureNext(alloc, root, p3, PdptIndex(v), {p3});
      ExtendsTrans(root, t0, f0, t1, f1, tables, alloc.FreeFrames());
      if !ok {
        return;
      }
      ghost var t2, f2 := tables, alloc.FreeFrames();
      ok, p1 := EnsureNext(alloc, root, p2, PdIndex(v), {p2});
      KeepsPresentTrans(t1, t2, tables);
      ExtendsTrans(root, t0, f0, t2, f2, tables, alloc.FreeFrames());
      if ok {
        assert Target(tables, root, Pml4tIndex(v)) == Some(p3);
        assert Target(tables, p3, PdptIndex(v)) == Some(p2);
        PtChain(tables, root, v, p3, p2, p1);
      }
    }

    /**
     * The last step of a `map_vrange` iteration: clear the PT entry that
     * `v` selects in `p1`, mark it present and writable, and set its
     * address to frame `f`, which must fit the entry's address field (else
     * fatal).
     */
    method LinkFrame(alloc: PhysicalPageAllocator, root: u64, v: u64, p1: u64, f: u64) returns (ok: bool)
      requires Valid(alloc, root) && Pt(tables, root, v) == Some(p1) && p1 in tables && tables[p1].level == 1
      requires Target(tables, p1, PtIndex(v)).None?
      requires f in FramesOf(alloc.region, alloc.pageCount) && Unused(tables, alloc.FreeFrames(), f)
      modifies this
      ensures Valid(alloc, root)
      ensures ok <==> NewEntry(f).Some?
      ensures !ok ==> tables == old(tables)
      ensures ok ==> KeepsPresent(old(tables), tables)
      ensures ok ==> Remaps(old(tables), tables, root, v, Some(f))
      ensures ok && Pruned(old(tables), root, {p1}) ==> Pruned(tables, root, {})
      ensures forall x :: x != f && Unused(old(tables), alloc.FreeFrames(), x) ==> Unused(tables, alloc.FreeFrames(), x)
    {
      var entry := NewEntry(f);
      if entry.None? {
        return false;
      }
      LinkLeaf(tables, root, alloc.FreeFrames(), FramesOf(alloc.region, alloc.pageCount), v, p1, f);
      tables := SetEntry(tables, p1, PtIndex(v), entry.value);
      ok := true;
    }

    /**
     * One iteration of `map_vrange`: build the path to `v`, then point its
     * PT entry at a newly allocated frame. An already-present entry means
     * the page is mapped twice, which is fatal. Only `v`'s page changes
     * translation.
     */
    method MapPage(alloc: PhysicalPageAllocator, root: u64, v: u64) returns (ok: bool, f: u64)
      requires Valid(alloc, root)
      modifies this, alloc, alloc.isAllocated, alloc.next
      ensures Valid(alloc, root)
      ensures alloc.FreeFrames() <= old(alloc.FreeFrames())
      ensures KeepsPresent(old(tables), tables)
      ensures KeepsUnused(old(tables), old(alloc.FreeFrames()), tables, alloc.FreeFrames())
      ensures ok ==> old(Walk(tables, root, v)).None? && f in old(alloc.FreeFrames())
      ensures ok ==> Remaps(old(tables), tables, root, v, Some(f))
      ensures !ok ==> forall w :: Walk(tables, root, w) == old(Walk(tables, root, w))
      ensures ok && Pruned(old(tables), root, {}) ==> Pruned(tables, root, {})
    {
      ghost var t0, free0 := tables, alloc.FreeFrames();
      var p1;
      f := 0;
      ok, p1 := EnsurePt(alloc, root, v);
      ExtendsKeepsUnused(root, t0, free0, tables, alloc.FreeFrames());
      if !ok {
        return;
      }
      if Present(tables[p1].entries[PtIndex(v)]) {
        return false, 0;
      }
      ghost var free := alloc.FreeFrames();
      var r := alloc.AllocatePage();
      if r.None? {
        return false, 0;
      }
      f := r.value;
      OwnedTake(tables, root, free, FramesOf(alloc.region, alloc.pageCount), f);
      ghost var t1 := tables;
      ok := LinkFrame(alloc, root, v, p1, f);
      TakeAndLink(t1, free, tables, f);
      KeepsUnusedTrans(t0, free0, t1, free, tables, alloc.FreeFrames());
      if ok {
        KeepsPresentTrans(t0, t1, tables);
      }
    }

    /**
     * One iteration of the `map_vrange` overload that maps given pages:
     * as `MapPage`, but the PT entry is pointed at `page`, a frame the
     * caller has taken from the allocator and not mapped anywhere.
     */
    method MapPageTo(alloc: PhysicalPageAllocator, root: u64, v: u64, page: u64) returns (ok: bool)
      requires Valid(alloc, root)
      requires page in FramesOf(alloc.region, alloc.pageCount) && Unused(tables, alloc.FreeFrames(), page)
      modifies this, alloc, alloc.isAllocated, alloc.next
      ensures Valid(alloc, root)
      ensures alloc.FreeFrames() <= old(alloc.FreeFrames())
      ensures KeepsPresent(old(tables), tables)
      ensures forall x :: x != page && Unused(old(tables), old(alloc.FreeFrames()), x) ==> Unused(tables, alloc.FreeFrames(), x)
      ensures ok ==> old(Walk(tables, root, v)).None?
      ensures ok ==> Remaps(old(tables), tables, root, v, Some(page))
      ensures !ok ==> forall w :: Walk(tables, root, w) == old(Walk(tables, root, w))
      ensures ok && Pruned(old(tables), root, {}) ==> Pruned(tables, root, {})
    {
      ghost var t0, free0 := tables, alloc.FreeFrames();
      var p1;
      ok, p1 := EnsurePt(alloc, root, v);
      ExtendsKeepsUnused(root, t0, free0, tables, alloc.FreeFrames());
      if !ok {
        return;
      }
      if Present(tables[p1].entries[PtIndex(v)]) {
        return false;
      }
      assert Unused(tables, alloc.FreeFrames(), page);
      ghost var t1 := tables;
      ok := LinkFrame(alloc, root, v, p1, page);
      KeepsUnusedBut(t0, free0, t1, alloc.FreeFrames(), tables, page);
      if ok {
        KeepsPresentTrans(t0, t1, tables);
      }
    }
    /**
     * One iteration of `map_vrange` at `v`, the page just past the `run`
     * of pages mapped so far: on success the run grows by the new frame.
     */
    method MapNextPage(alloc: PhysicalPageAllocator, root: u64, vrange: Range, v: u64,
                       ghost t0: Tables, ghost free0: set<int>, ghost run: seq<u64>) returns (ok: bool, f: u64)
      requires Valid(alloc, root)
      requires v == vrange.addr + |run| * PAGE_SIZE < FOUR_LEVEL_REACH
      requires MapProgress(t0, free0, tables, alloc.FreeFrames(), root, vrange, run)
      requires KeepsPresent(t0, tables) && alloc.FreeFrames() <= free0
      modifies this, alloc, alloc.isAllocated, alloc.next
      ensures Valid(alloc, root)
      ensures alloc.FreeFrames() <= free0 && KeepsPresent(t0, tables)
      ensures KeepsUnused(old(tables), old(alloc.FreeFrames()), tables, alloc.FreeFrames())
      ensures MapProgress(t0, free0, tables, alloc.FreeFrames(), root, vrange, if ok then run + [f] else run)
      ensures ok && Pruned(old(tables), root, {}) ==> Pruned(tables, root, {})
    {
      ghost var t1, free1 := tables, alloc.FreeFrames();
      ok, f := MapPage(alloc, root, v);
      KeepsPresentTrans(t0, t1, tables);
      if !ok {
        MapProgressKept(t0, free0, t1, free1, tables, alloc.FreeFrames(), root, vrange, run);
        return;
      }
      assert SameSlot(v, v);
      WalkOwned(tables, root, alloc.FreeFrames(), FramesOf(alloc.region, alloc.pageCount), v);
      MapVRangeStep(t0, free0, t1, free1, tables, alloc.FreeFrames(), root, vrange, run, v, f);
    }

    /**
     * `map_vrange`: maps every 4 KiB page from `vrange.addr` up to its end
     * to a newly allocated frame, building missing tables on the way. The
     * caller must pass a range in kernel space or above; a page that is
     * already mapped, or an allocation failure, is fatal (`ok` false, with
     * the pages before it mapped), and so is a length that is not a whole
     * number of pages, which the final check catches after the last page.
     */
    method MapVRange(alloc: PhysicalPageAllocator, root: u64, vrange: Range) returns (ok: bool, ghost frames: seq<u64>)
      requires Valid(alloc, root)
      requires vrange.addr >= KERNEL_VSPACE_START && vrange.addr + vrange.length <= FOUR_LEVEL_REACH
      modifies this, alloc, alloc.isAllocated, alloc.next
      ensures Valid(alloc, root)
      ensures alloc.FreeFrames() <= old(alloc.FreeFrames())
      ensures KeepsPresent(old(tables), tables)
      ensures KeepsUnused(old(tables), old(alloc.FreeFrames()), tables, alloc.FreeFrames())
      ensures ok <==> |frames| * PAGE_SIZE == vrange.length
      ensures |frames| * PAGE_SIZE < vrange.length + PAGE_SIZE
      ensures MapProgress(old(tables), old(alloc.FreeFrames()), tables, alloc.FreeFrames(), root, vrange, frames)
      ensures ok && Pruned(old(tables), root, {}) ==> Pruned(tables, root, {})
    {
      var vaddr := vrange.addr;
      var end := OnePastEnd(vrange);
      frames := [];
      while vaddr < end
        invariant Valid(alloc, root)
        invariant alloc.FreeFrames() <= old(alloc.FreeFrames())
        invariant KeepsPresent(old(tables), tables)
        invariant KeepsUnused(old(tables), old(alloc.FreeFrames()), tables, alloc.FreeFrames())
        invariant vaddr == vrange.addr + |frames| * PAGE_SIZE
        invariant |frames| * PAGE_SIZE < vrange.length + PAGE_SIZE
        invariant MapProgress(old(tables), old(alloc.FreeFrames()), tables, alloc.FreeFrames(), root, vrange, frames)
        invariant Pruned(old(tables), root, {}) ==> Pruned(tables, root, {})
        decreases end - vaddr
      {
        ghost var t1, free1 := tables, alloc.FreeFrames();
        var mapped, f := MapNextPage(alloc, root, vrange, vaddr, old(tables), old(alloc.FreeFrames()), frames);
        KeepsUnusedTrans(old(tables), old(alloc.FreeFrames()), t1, free1, tables, alloc.FreeFrames());
        if !mapped {
          return false, frames;
        }
        frames := frames + [f];
        vaddr := vaddr + PAGE_SIZE;
      }
      ok := vaddr == end;
    }
    /**
     * One iteration of the page-vector `map_vrange`: the page at `v`, just
     * past the `n` pages mapped so far, is pointed at `pages[n]`.
     */
    method MapNextGiven(alloc: PhysicalPageAllocator, root: u64, vrange: Range, v: u64, pages: seq<u64>, n: nat,
                        ghost t0: Tables) returns (ok: bool)
      requires Valid(alloc, root) && Distinct(pages)
      requires n < |pages| && v == vrange.addr + n * PAGE_SIZE < FOUR_LEVEL_REACH
      requires MapsGiven(t0, tables, root, vrange, pages[..n])
      requires UsableFrom(tables, alloc.FreeFrames(), FramesOf(alloc.region, alloc.pageCount), pages, n)
      modifies this, alloc, alloc.isAllocated, alloc.next
      ensures Valid(alloc, root)
      ensures alloc.FreeFrames() <= old(alloc.FreeFrames()) && KeepsPresent(old(tables), tables)
      ensures MapsGiven(t0, tables, root, vrange, pages[..if ok then n + 1 else n])
      ensures UsableFrom(tables, alloc.FreeFrames(), FramesOf(alloc.region, alloc.pageCount), pages, n + 1)
    {
      ghost var t1, free1 := tables, alloc.FreeFrames();
      ok := MapPageTo(alloc, root, v, pages[n]);
      if ok {
        MapsGivenStep(t0, t1, tables, root, vrange, pages, n, v);
      } else {
        MapsGivenKept(t0, t1, tables, root, vrange, pages[..n]);
      }
      UsableFromStep(t1, free1, tables, alloc.FreeFrames(), FramesOf(alloc.region, alloc.pageCount), pages, n);
    }

    /**
     * The `map_vrange` overload that maps given pages: page `i` of `vrange`
     * is pointed at `pages[i]`. The frames must be allocated, unmapped and
     * distinct. Running out of pages (the vector's index check), an
     * already-present entry, and a count of pages other than the number of
     * pages in the range are fatal.
     */
    method MapVRangePages(alloc: PhysicalPageAllocator, root: u64, vrange: Range, pages: seq<u64>) returns (ok: bool, ghost n: nat)
      requires Valid(alloc, root) && Distinct(pages)
      requires vrange.addr >= KERNEL_VSPACE_START && vrange.addr + vrange.length <= FOUR_LEVEL_REACH
      requires UsableFrom(tables, alloc.FreeFrames(), FramesOf(alloc.region, alloc.pageCount), pages, 0)
      modifies this, alloc, alloc.isAllocated, alloc.next
      ensures Valid(alloc, root)
      ensures alloc.FreeFrames() <= old(alloc.FreeFrames()) && KeepsPresent(old(tables), tables)
      ensures n <= |pages| && MapsGiven(old(tables), tables, root, vrange, pages[..n])
      ensures n * PAGE_SIZE < vrange.length + PAGE_SIZE
      ensures ok <==> n == |pages| && n * PAGE_SIZE == vrange.length
    {
      var vaddr := vrange.addr;
      var end := OnePastEnd(vrange);
      var index := 0;
      assert pages[..0] == [];
      while vaddr < end
        invariant Valid(alloc, root)
        invariant alloc.FreeFrames() <= old(alloc.FreeFrames()) && KeepsPresent(old(tables), tables)
        invariant index <= |pages| && vaddr == vrange.addr + index * PAGE_SIZE
        invariant index * PAGE_SIZE < vrange.length + PAGE_SIZE
        invariant MapsGiven(old(tables), tables, root, vrange, pages[..index])
        invariant UsableFrom(tables, alloc.FreeFrames(), FramesOf(alloc.region, alloc.pageCount), pages, index)
        decreases end - vaddr
      {
        if index >= |pages| {
          return false, index;
        }
        ghost var t1 := tables;
        var mapped := MapNextGiven(alloc, root, vrange, vaddr, pages, index, old(tables));
        KeepsPresentTrans(old(tables), t1, tables);
        if !mapped {
          return false, index;
        }
        index := index + 1;
        vaddr := vaddr + PAGE_SIZE;
      }
      ok := vaddr == end && index == |pages|;
      n := index;
    }

    /** `free_phys_page` on a frame the allocator handed out: never a double free. */
    method Release(alloc: PhysicalPageAllocator, f: u64)
      requires alloc.Valid() && f in alloc.AllFrames() && f !in alloc.FreeFrames()
      modifies alloc, alloc.isAllocated, alloc.next
      ensures alloc.Valid()
      ensures alloc.FreeFrames() == old(alloc.FreeFrames()) + {f}
    {
      alloc.TakenFrame(f);
      var ok := alloc.FreePage(f);
      assert ok;
    }

    /**
     * The pruning step of `unmap_vrange`: if table `c`, which entry `j` of
     * `p` leads to, has no present entry left, free its frame and clear
     * the entry.
     */
    method PruneStep(alloc: PhysicalPageAllocator, p: u64, j: nat, c: u64)
      requires alloc.Valid() && p in tables && j < |tables[p].entries| && c in tables && c != p
      requires c in alloc.AllFrames() && c !in alloc.FreeFrames()
      modifies this, alloc, alloc.isAllocated, alloc.next
      ensures alloc.Valid()
      ensures tables == Prune(old(tables), p, j, c)
      ensures alloc.FreeFrames() == old(alloc.FreeFrames()) + (old(tables).Keys - tables.Keys)
      ensures tables.Keys <= old(tables).Keys && p in tables && |tables[p].entries| == |old(tables)[p].entries|
      ensures forall u :: u in old(tables) && u != p && u != c ==> u in tables && tables[u] == old(tables)[u]
    {
      var empty := IsEmpty(c);
      if empty {
        Release(alloc, c);
        tables := SetEntry(tables, p, j, CLEARED) - {c};
      }
    }

    /**
     * The four reads at the start of an `unmap_vrange` iteration: the
     * PDPT, PD and PT on the way to `v` and the frame its PT entry holds,
     * or None as soon as one entry is not present.
     */
    method FindPath(root: u64, v: u64) returns (path: Option<(u64, u64, u64, u64)>)
      requires Shape(tables, root)
      ensures path.Some? <==> Walk(tables, root, v).Some?
      ensures path.Some? ==> OnPath(tables, root, v, path.value.0, path.value.1, path.value.2, path.value.3)
    {
      var e4 := tables[root].entries[Pml4tIndex(v)];
      if !Present(e4) {
        return None;
      }
      var p3 := GetPhysAddr(e4, PHYS_ADDR_MASK);
      assert Target(tables, root, Pml4tIndex(v)) == Some(p3);
      var e3 := tables[p3].entries[PdptIndex(v)];
      if !Present(e3) {
        return None;
      }
      var p2 := GetPhysAddr(e3, PHYS_ADDR_MASK);
      assert Target(tables, p3, PdptIndex(v)) == Some(p2);
      var e2 := tables[p2].entries[PdIndex(v)];
      if !Present(e2) {
        return None;
      }
      var p1 := GetPhysAddr(e2, PHYS_ADDR_MASK);
      assert Target(tables, p2, PdIndex(v)) == Some(p1);
      var e1 := tables[p1].entries[PtIndex(v)];
      if !Present(e1) {
        return None;
      }
      path := Some((p3, p2, p1, GetPhysAddr(e1, PHYS_ADDR_MASK)));
    }

    /**
     * The writes of an `unmap_vrange` iteration on the path `root`, `p3`,
     * `p2`, `p1` (entries `i4`, `i3`, `i2`, `i1`) to frame `f`: free `f`
     * (unless `keep`), clear its PT entry, and prune the PT, the PD and
     * the PDPT in that order.
     */
    method UnlinkPath(alloc: PhysicalPageAllocator, root: u64, p3: u64, p2: u64, p1: u64,
                      i4: nat, i3: nat, i2: nat, i1: nat, f: u64, keep: bool)
      requires alloc.Valid()
      requires root in tables && p3 in tables && p2 in tables && p1 in tables && f !in tables
      requires p1 != p2 && p1 != p3 && p2 != p3 && root != p3 && root != p2 && root != p1
      requires i4 < |tables[root].entries| && i3 < |tables[p3].entries| && i2 < |tables[p2].entries| && i1 < |tables[p1].entries|
      requires forall x :: x in {p3, p2, p1, f} ==> x in alloc.AllFrames() && x !in alloc.FreeFrames()
      modifies this, alloc, alloc.isAllocated, alloc.next
      ensures alloc.Valid()
      ensures tables == Prune(Prune(Prune(SetEntry(old(tables), p1, i1, CLEARED), p2, i2, p1), p3, i3, p2), root, i4, p3)
      ensures alloc.FreeFrames() == old(alloc.FreeFrames()) + (old(tables).Keys - tables.Keys) + (if keep then {} else {f})
    {
      ghost var t0, free0 := tables, alloc.FreeFrames();
      if !keep {
        Release(alloc, f);
      }
      ghost var free1 := alloc.FreeFrames();
      assert free1 == free0 + (if keep then {} else {f});
      tables := SetEntry(tables, p1, i1, CLEARED);
      ghost var t1 := tables;
      PruneStep(alloc, p2, i2, p1);
      ghost var t2, free2 := tables, alloc.FreeFrames();
      PruneKeys(t1, p2, i2, p1);
      PruneStep(alloc, p3, i3, p2);
      ghost var t3, free3 := tables, alloc.FreeFrames();
      PruneKeys(t2, p3, i3, p2);
      PruneStep(alloc, root, i4, p3);
      PruneKeys(t3, root, i4, p3);
      assert t1 == SetEntry(t0, p1, i1, CLEARED) && t2 == Prune(t1, p2, i2, p1) && t3 == Prune(t2, p3, i3, p2);
      assert tables == Prune(t3, root, i4, p3);
      FreedChain(t0, t2, t3, tables, free0, free1, free2, free3, alloc.FreeFrames(), if keep then {} else {f});
    }
    /**
     * One iteration of either `unmap_vrange`: fatal (`ok` false, nothing
     * changes) unless all four entries on the way to `v` are present and,
     * when the caller names the frame it expects (`expected`), unless the
     * page maps that frame. Without `expected` the page's frame is freed;
     * with it the frame is left to the caller. Either way the entry is
     * cleared and emptied tables are freed bottom-up.
     */
    method UnmapPageAt(alloc: PhysicalPageAllocator, root: u64, v: u64, expected: Option<u64>) returns (ok: bool, ghost f: u64)
      requires Valid(alloc, root)
      modifies this, alloc, alloc.isAllocated, alloc.next
      ensures Valid(alloc, root)
      ensures ok <==> old(Walk(tables, root, v)).Some? && (expected.Some? ==> old(Walk(tables, root, v)) == expected)
      ensures !ok ==> tables == old(tables) && alloc.FreeFrames() == old(alloc.FreeFrames())
      ensures ok ==> old(Walk(tables, root, v)) == Some(f) && Some(tables) == UnmapPage(old(tables), root, v)
      ensures ok ==> Remaps(old(tables), tables, root, v, None) && tables.Keys <= old(tables).Keys
      ensures ok ==>
        alloc.FreeFrames() == old(alloc.FreeFrames()) + (old(tables).Keys - tables.Keys) + (if expected.None? then {f} else {})
      ensures ok && Pruned(old(tables), root, {}) ==> Pruned(tables, root, {})
    {
      f := 0;
      var path := FindPath(root, v);
      if path.None? {
        return false, f;
      }
      var (p3, p2, p1, leaf) := path.value;
      f := leaf;
      if expected.Some? && leaf != expected.value {
        OnPathLevels(tables, root, v, p3, p2, p1, leaf);
        return false, f;
      }
      OnPathLevels(tables, root, v, p3, p2, p1, leaf);
      UnmapFound(alloc, root, v, p3, p2, p1, leaf, expected.Some?);
      ok := true;
    }

    /** The writes of `UnmapPageAt` once the path to `v` has been read. */
    method UnmapFound(alloc: PhysicalPageAllocator, root: u64, v: u64, p3: u64, p2: u64, p1: u64, f: u64, keep: bool)
      requires Valid(alloc, root) && OnPath(tables, root, v, p3, p2, p1, f)
      modifies this, alloc, alloc.isAllocated, alloc.next
      ensures Valid(alloc, root)
      ensures Some(tables) == UnmapPage(old(tables), root, v) && Remaps(old(tables), tables, root, v, None)
      ensures tables.Keys <= old(tables).Keys
      ensures alloc.FreeFrames() == old(alloc.FreeFrames()) + (old(tables).Keys - tables.Keys) + (if keep then {} else {f})
      ensures Pruned(old(tables), root, {}) ==> Pruned(tables, root, {})
    {
      ghost var ts, free, frames := tables, alloc.FreeFrames(), alloc.AllFrames();
      OnPathLevels(ts, root, v, p3, p2, p1, f);
      ghost var r := UnmapPage(ts, root, v).value;
      UnmapPageAlong(ts, root, v, p3, p2, p1, f);
      UnmapPageKeeps(ts, root, v, p3, p2, p1, f, r);
      UnmapPageOwned(ts, root, v, p3, p2, p1, f, r, free, frames, keep);
      PathOwned(ts, root, v, p3, p2, p1, f, free, frames);
      UnlinkPath(alloc, root, p3, p2, p1, Pml4tIndex(v), PdptIndex(v), PdIndex(v), PtIndex(v), f, keep);
      assert tables == r;
    }

    /**
     * One iteration of either `unmap_vrange`: unmaps the page just past the
     * `|frames|` pages unmapped so far, which must be mapped (and map
     * `expected` when the caller names the frame).
     */
    method UnmapNextPage(alloc: PhysicalPageAllocator, root: u64, vrange: Range, v: u64, expected: Option<u64>,
                         ghost t0: Tables, ghost free0: set<int>, ghost frames: seq<u64>) returns (ok: bool, ghost f: u64)
      requires Valid(alloc, root)
      requires v == vrange.addr + |frames| * PAGE_SIZE < FOUR_LEVEL_REACH
      requires UnmapProgress(t0, free0, tables, alloc.FreeFrames(), root, vrange, frames, expected.Some?)
      modifies this, alloc, alloc.isAllocated, alloc.next
      ensures Valid(alloc, root)
      ensures ok <==> (Walk(t0, root, PageOf(vrange, |frames|)).Some? &&
                       (expected.Some? ==> Walk(t0, root, PageOf(vrange, |frames|)) == expected))
      ensures ok ==> Walk(t0, root, PageOf(vrange, |frames|)) == Some(f)
      ensures UnmapProgress(t0, free0, tables, alloc.FreeFrames(), root, vrange, if ok then frames + [f] else frames, expected.Some?)
      ensures ok && Pruned(old(tables), root, {}) ==> Pruned(tables, root, {})
    {
      ghost var t1, free1 := tables, alloc.FreeFrames();
      NextPage(vrange, |frames|, v);
      UnmapsRunNext(t0, t1, root, vrange, |frames|);
      ok, f := UnmapPageAt(alloc, root, v, expected);
      if ok {
        UnmapProgressStep(t0, free0, t1, free1, tables, alloc.FreeFrames(), root, vrange, frames, v, f, expected.Some?);
      }
    }

    /**
     * `unmap_vrange`: unmaps every page of `vrange`, frees its frame and
     * frees every table the removal empties. The caller must pass a range
     * in kernel space or above; a page that is not mapped is fatal (`ok`
     * false, with the pages before it unmapped), and so is a length that is
     * not a whole number of pages.
     */
    method UnmapVRange(alloc: PhysicalPageAllocator, root: u64, vrange: Range) returns (ok: bool, ghost frames: seq<u64>)
      requires Valid(alloc, root)
      requires vrange.addr >= KERNEL_VSPACE_START && vrange.addr + vrange.length <= FOUR_LEVEL_REACH
      modifies this, alloc, alloc.isAllocated, alloc.next
      ensures Valid(alloc, root)
      ensures UnmapProgress(old(tables), old(alloc.FreeFrames()), tables, alloc.FreeFrames(), root, vrange, frames, false)
      ensures |frames| * PAGE_SIZE < vrange.length + PAGE_SIZE
      ensures ok <==> |frames| * PAGE_SIZE == vrange.length
      ensures !ok && |frames| * PAGE_SIZE < vrange.length ==> Walk(old(tables), root, PageOf(vrange, |frames|)).None?
      ensures ok && Pruned(old(tables), root, {}) ==> Pruned(tables, root, {})
    {
      var vaddr := vrange.addr;
      var end := OnePastEnd(vrange);
      frames := [];
      while vaddr < end
        invariant Valid(alloc, root)
        invariant vaddr == vrange.addr + |frames| * PAGE_SIZE
        invariant |frames| * PAGE_SIZE < vrange.length + PAGE_SIZE
        invariant UnmapProgress(old(tables), old(alloc.FreeFrames()), tables, alloc.FreeFrames(), root, vrange, frames, false)
        invariant Pruned(old(tables), root, {}) ==> Pruned(tables, root, {})
        decreases end - vaddr
      {
        var unmapped;
        ghost var f;
        unmapped, f := UnmapNextPage(alloc, root, vrange, vaddr, None, old(tables), old(alloc.FreeFrames()), frames);
        if !unmapped {
          return false, frames;
        }
        frames := frames + [f];
        vaddr := vaddr + PAGE_SIZE;
      }
      ok := vaddr == end;
    }

    /**
     * The `unmap_vrange` overload that is given the frames it expects:
     * page `i` of `vrange` must map `pages[i]`. The frames are not freed;
     * emptied tables are. An unmapped page, running out of pages, a
     * different frame, and a count of pages other than the number of pages
     * in the range are fatal.
     */
    method UnmapVRangePages(alloc: PhysicalPageAllocator, root: u64, vrange: Range, pages: seq<u64>) returns (ok: bool, ghost n: nat)
      requires Valid(alloc, root)
      requires vrange.addr >= KERNEL_VSPACE_START && vrange.addr + vrange.length <= FOUR_LEVEL_REACH
      modifies this, alloc, alloc.isAllocated, alloc.next
      ensures Valid(alloc, root)
      ensures n <= |pages| && UnmapProgress(old(tables), old(alloc.FreeFrames()), tables, alloc.FreeFrames(), root, vrange, pages[..n], true)
      ensures n * PAGE_SIZE < vrange.length + PAGE_SIZE
      ensures ok <==> n == |pages| && n * PAGE_SIZE == vrange.length
      ensures !ok && n * PAGE_SIZE < vrange.length ==> n == |pages| || Walk(old(tables), root, PageOf(vrange, n)) != Some(pages[n])
      ensures ok && Pruned(old(tables), root, {}) ==> Pruned(tables, root, {})
    {
      var vaddr := vrange.addr;
      var end := OnePastEnd(vrange);
      var index := 0;
      assert pages[..0] == [];
      while vaddr < end
        invariant Valid(alloc, root)
        invariant index <= |pages| && vaddr == vrange.addr + index * PAGE_SIZE
        invariant index * PAGE_SIZE < vrange.length + PAGE_SIZE
        invariant UnmapProgress(old(tables), old(alloc.FreeFrames()), tables, alloc.FreeFrames(), root, vrange, pages[..index], true)
        invariant Pruned(old(tables), root, {}) ==> Pruned(tables, root, {})
        decreases end - vaddr
      {
        if index >= |pages| {
          return false, index;
        }
        var unmapped;
        ghost var f;
        unmapped, f := UnmapNextPage(alloc, root, vrange, vaddr, Some(pages[index]), old(tables), old(alloc.FreeFrames()), pages[..index]);
        if !unmapped {
          return false, index;
        }
        assert f == pages[index];
        TakeNext(pages, index);
        index := index + 1;
        vaddr := vaddr + PAGE_SIZE;
      }
      ok := vaddr == end && index == |pages|;
      n := index;
    }

    /**
     * One level of `free_page_tables`: frees everything the present entries
     * of the level-`lvl` table `t` lead to (pages for a PT, whole subtrees
     * otherwise), then `t` itself.
     */
    method FreeBelow(alloc: PhysicalPageAllocator, root: u64, t: u64, lvl: nat)
      requires alloc.Valid() && Shape(tables, root) && t in tables && tables[t].level == lvl
      requires Below(tables, t, lvl) <= alloc.AllFrames() && Below(tables, t, lvl) !! alloc.FreeFrames()
      modifies alloc, alloc.isAllocated, alloc.next
      ensures alloc.Valid()
      ensures alloc.FreeFrames() == old(alloc.FreeFrames()) + Below(tables, t, lvl)
      decreases lvl, 1
    {
      var i := 0;
      while i < ENTRIES
        invariant i <= ENTRIES && alloc.Valid()
        invariant alloc.FreeFrames() == old(alloc.FreeFrames()) + EntriesBelow(tables, t, lvl, i)
      {
        ghost var free1 := alloc.FreeFrames();
        EntryReclaimable(tables, root, t, lvl, i, old(alloc.FreeFrames()), free1, alloc.AllFrames());
        FreeEntry(alloc, root, t, lvl, i);
        FreedEntry(tables, t, lvl, i, old(alloc.FreeFrames()), free1, alloc.FreeFrames());
        i := i + 1;
      }
      NotBelowEntries(tables, root, t, lvl);
      Release(alloc, t);
    }

    /** The body of each `free_page_tables` loop: entry `i` of `t`, if present, is torn down. */
    method FreeEntry(alloc: PhysicalPageAllocator, root: u64, t: u64, lvl: nat, i: nat)
      requires alloc.Valid() && Shape(tables, root) && t in tables && tables[t].level == lvl && i < ENTRIES
      requires EntryPart(tables, t, lvl, i) <= alloc.AllFrames() && EntryPart(tables, t, lvl, i) !! alloc.FreeFrames()
      modifies alloc, alloc.isAllocated, alloc.next
      ensures alloc.Valid()
      ensures alloc.FreeFrames() == old(alloc.FreeFrames()) + EntryPart(tables, t, lvl, i)
      decreases lvl, 0
    {
      var e := tables[t].entries[i];
      if Present(e) {
        var c := GetPhysAddr(e, PHYS_ADDR_MASK);
        assert Target(tables, t, i) == Some(c);
        if lvl > 1 {
          FreeBelow(alloc, root, c, lvl - 1);
        } else {
          Release(alloc, c);
        }
      }
    }

    /**
     * `free_page_tables`: hands back to the allocator every table of the
     * address space rooted at `root` and every page it maps. The tables are
     * not written; their frames are simply free afterwards.
     */
    method FreePageTables(alloc: PhysicalPageAllocator, root: u64)
      requires Valid(alloc, root)
      modifies alloc, alloc.isAllocated, alloc.next
      ensures alloc.Valid()
      ensures alloc.FreeFrames() == old(alloc.FreeFrames()) + Below(tables, root, 4)
    {
      BelowOwned(tables, root, alloc.FreeFrames(), alloc.AllFrames(), root, 4);
      FreeBelow(alloc, root, root, 4);
    }
  }
}
