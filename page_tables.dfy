/**
 * The 4-level page-table tree (`kernel/page_tables.cpp`) as a value: the
 * physical frames that hold tables, each with its level (4 = PML4T,
 * 3 = PDPT, 2 = PD, 1 = PT) and its 512 raw entries, and the translation
 * `Walk` that the MMU (and the kernel's walkers) perform over it.
 */
module PageTables {
  import opened Types
  import opened Bits
  import opened PageTableFormat

  const ENTRIES: nat := 512

  datatype Table = Table(level: nat, entries: seq<u64>)

  /** The frames that currently hold page tables, by physical address. */
  type Tables = map<u64, Table>

  /** A default-constructed table (`PDPT{}`, `PD{}`, `PT{}`): every entry cleared. */
  function ZeroTable(level: nat): (t: Table)
    ensures t.level == level && |t.entries| == ENTRIES
    ensures forall j :: 0 <= j < ENTRIES ==> t.entries[j] == CLEARED
  {
    Table(level, seq(ENTRIES, _ => CLEARED))
  }

  /** The address held by entry `j` of table `t`, when that entry is present. */
  function Target(ts: Tables, t: u64, j: nat): (r: Option<u64>)
    ensures r.Some? ==> t in ts && j < |ts[t].entries|
  {
    if t in ts && j < |ts[t].entries| && Present(ts[t].entries[j])
    then Some(GetPhysAddr(ts[t].entries[j], PHYS_ADDR_MASK))
    else None
  }

  /** The PDPT, PD and PT on the way to `v`, as far as present entries lead. */
  function Pdpt(ts: Tables, root: u64, v: u64): Option<u64>
  {
    Target(ts, root, Pml4tIndex(v))
  }

  function Pd(ts: Tables, root: u64, v: u64): Option<u64>
  {
    match Pdpt(ts, root, v)
    case None => None
    case Some(a) => Target(ts, a, PdptIndex(v))
  }

  function Pt(ts: Tables, root: u64, v: u64): Option<u64>
  {
    match Pd(ts, root, v)
    case None => None
    case Some(a) => Target(ts, a, PdIndex(v))
  }

  /** Present entries for `v` in the PML4T, the PDPT and the PD lead to the PT. */
  lemma PtChain(ts: Tables, root: u64, v: u64, p3: u64, p2: u64, p1: u64)
    requires Target(ts, root, Pml4tIndex(v)) == Some(p3) && Target(ts, p3, PdptIndex(v)) == Some(p2)
    requires Target(ts, p2, PdIndex(v)) == Some(p1)
    ensures Pdpt(ts, root, v) == Some(p3) && Pd(ts, root, v) == Some(p2) && Pt(ts, root, v) == Some(p1)
  {
  }

  /** The frame that virtual address `v` translates to, if all four entries are present. */
  function Walk(ts: Tables, root: u64, v: u64): Option<u64>
  {
    match Pt(ts, root, v)
    case None => None
    case Some(a) => Target(ts, a, PtIndex(v))
  }

  /** Table `t` after entry `j` is overwritten with `raw`. */
  function SetEntry(ts: Tables, t: u64, j: nat, raw: u64): (r: Tables)
    requires t in ts && j < |ts[t].entries|
    ensures r.Keys == ts.Keys && r[t].level == ts[t].level && |r[t].entries| == |ts[t].entries|
    ensures r[t].entries[j] == raw
    ensures forall k :: 0 <= k < |ts[t].entries| && k != j ==> r[t].entries[k] == ts[t].entries[k]
    ensures forall u :: u in ts && u != t ==> r[u] == ts[u]
  {
    ts[t := ts[t].(entries := ts[t].entries[j := raw])]
  }

  /** `is_empty`: no entry has its present bit set. */
  predicate Empty(entries: seq<u64>)
  {
    forall j :: 0 <= j < |entries| ==> !Present(entries[j])
  }

  /**
   * The tree shape the walkers keep: every table has 512 entries, the root
   * is a PML4T, a present entry of a level-k table (k > 1) leads to a table
   * of level k-1, a present PT entry leads to a frame that is not a table,
   * and no two present entries lead to the same frame.
   */
  ghost predicate Shape(ts: Tables, root: u64)
  {
    root in ts && ts[root].level == 4 &&
    (forall t :: t in ts ==> |ts[t].entries| == ENTRIES && 1 <= ts[t].level <= 4) &&
    (forall t, j :: Target(ts, t, j).Some? ==>
      if ts[t].level > 1
      then Target(ts, t, j).value in ts && ts[Target(ts, t, j).value].level == ts[t].level - 1
      else Target(ts, t, j).value !in ts) &&
    (forall t, j, t', j' {:trigger Target(ts, t, j), Target(ts, t', j')} ::
      Target(ts, t, j).Some? && Target(ts, t, j) == Target(ts, t', j') ==> t == t' && j == j')
  }

  /** Two present entries that lead to the same frame are the same entry. */
  ghost predicate Unshared(ts: Tables, t: u64, j: nat, t': u64, j': nat)
  {
    Target(ts, t, j).Some? && Target(ts, t, j) == Target(ts, t', j') ==> t == t' && j == j'
  }

  /**
   * Every table and every mapped page is a frame taken from the physical
   * allocator (`frames`) and not on its free list (`free`).
   */
  ghost predicate Owned(ts: Tables, root: u64, free: set<int>, frames: set<int>)
  {
    (forall t :: t in ts ==> t in frames && t !in free) &&
    (forall t, j :: Target(ts, t, j).Some? ==>
      Target(ts, t, j).value in frames && Target(ts, t, j).value !in free)
  }

  /** No table but the root (and those in `pending`) is empty: emptied tables have been freed. */
  ghost predicate Pruned(ts: Tables, root: u64, pending: set<u64>)
  {
    forall t :: t in ts && t != root && t !in pending ==> !Empty(ts[t].entries)
  }

  /** Every entry that was present in `ts` is still present in `ts'`, with the same address. */
  ghost predicate KeepsPresent(ts: Tables, ts': Tables)
  {
    forall t, j :: Target(ts, t, j).Some? ==> Target(ts', t, j) == Target(ts, t, j)
  }

  lemma KeepsPresentTrans(ts: Tables, ts': Tables, ts'': Tables)
    requires KeepsPresent(ts, ts') && KeepsPresent(ts', ts'')
    ensures KeepsPresent(ts, ts'')
  {
  }

  /** Translations that exist survive any change that keeps present entries. */
  lemma WalkKept(ts: Tables, ts': Tables, root: u64, v: u64)
    requires KeepsPresent(ts, ts')
    requires Walk(ts, root, v).Some?
    ensures Walk(ts', root, v) == Walk(ts, root, v)
  {
    assert Pdpt(ts', root, v) == Pdpt(ts, root, v);
    assert Pd(ts', root, v) == Pd(ts, root, v);
    assert Pt(ts', root, v) == Pt(ts, root, v);
  }

  /** Adding a table at a frame that held none keeps every present entry. */
  lemma AddTableKeeps(ts: Tables, f: u64, tab: Table)
    requires f !in ts
    ensures KeepsPresent(ts, ts[f := tab])
  {
  }

  /** Writing an entry that was not present keeps every present entry. */
  lemma SetAbsentKeeps(ts: Tables, t: u64, j: nat, raw: u64)
    requires t in ts && j < |ts[t].entries| && Target(ts, t, j).None?
    ensures KeepsPresent(ts, SetEntry(ts, t, j, raw))
  {
    var ts' := SetEntry(ts, t, j, raw);
    forall u: u64, k: nat | Target(ts, u, k).Some?
      ensures Target(ts', u, k) == Target(ts, u, k)
    {
      assert u != t || k != j;
    }
  }

  /** No present entry leads to frame `f`. */
  ghost predicate NotTarget(ts: Tables, f: int)
  {
    forall t, j :: Target(ts, t, j) != Some(f)
  }

  /** Frame `x` is taken from the allocator but is neither a table nor referred to. */
  ghost predicate Unused(ts: Tables, free: set<int>, x: int)
  {
    x !in free && x !in ts && NotTarget(ts, x)
  }

  /** Every frame that was unused stays unused. */
  ghost predicate KeepsUnused(ts: Tables, free: set<int>, ts': Tables, free': set<int>)
  {
    forall x :: Unused(ts, free, x) ==> Unused(ts', free', x)
  }

  lemma KeepsUnusedTrans(ts: Tables, free: set<int>, ts': Tables, free': set<int>, ts'': Tables, free'': set<int>)
    requires KeepsUnused(ts, free, ts', free') && KeepsUnused(ts', free', ts'', free'')
    ensures KeepsUnused(ts, free, ts'', free'')
  {
  }

  /** Taking a free frame `f` and then linking it in keeps every other unused frame unused. */
  lemma TakeAndLink(t1: Tables, free: set<int>, t2: Tables, f: int)
    requires f in free
    requires forall x :: x != f && Unused(t1, free - {f}, x) ==> Unused(t2, free - {f}, x)
    ensures KeepsUnused(t1, free, t2, free - {f})
  {
  }

  /** Frames unused before a table walk was extended, other than the one then linked in, stay unused. */
  lemma KeepsUnusedBut(t0: Tables, free0: set<int>, t1: Tables, free1: set<int>, t2: Tables, page: int)
    requires KeepsUnused(t0, free0, t1, free1)
    requires forall x :: x != page && Unused(t1, free1, x) ==> Unused(t2, free1, x)
    ensures forall x :: x != page && Unused(t0, free0, x) ==> Unused(t2, free1, x)
  {
  }

  lemma ExtendsKeepsUnused(root: u64, ts: Tables, free: set<int>, ts': Tables, free': set<int>)
    requires Extends(root, ts, free, ts', free')
    ensures KeepsUnused(ts, free, ts', free')
  {
  }

  /** `small` is `big` with some tables removed and some entries cleared. */
  ghost predicate Sub(small: Tables, big: Tables)
  {
    small.Keys <= big.Keys &&
    (forall t :: t in small ==> small[t].level == big[t].level) &&
    forall t, j :: Target(small, t, j).Some? ==> Target(big, t, j) == Target(small, t, j)
  }

  lemma SubTrans(a: Tables, b: Tables, c: Tables)
    requires Sub(a, b) && Sub(b, c)
    ensures Sub(a, c)
  {
  }

  lemma SubNotTarget(small: Tables, big: Tables, x: int)
    requires Sub(small, big) && NotTarget(big, x)
    ensures NotTarget(small, x)
  {
  }

  /** Installing a zeroed table at a frame nothing refers to keeps the shape and the ownership. */
  lemma AddTable(ts: Tables, root: u64, free: set<int>, frames: set<int>, f: u64, level: nat)
    requires Shape(ts, root) && Owned(ts, root, free, frames)
    requires f !in ts && NotTarget(ts, f) && f in frames && f !in free && 1 <= level <= 3
    ensures var ts' := ts[f := ZeroTable(level)];
      Shape(ts', root) && Owned(ts', root, free, frames) && KeepsPresent(ts, ts') &&
      NotTarget(ts', f) && (forall j :: Target(ts', f, j).None?) &&
      (forall u, k :: Target(ts', u, k) == Target(ts, u, k) || u == f)
  {
    ClearedNotPresent();
    var ts' := ts[f := ZeroTable(level)];
    forall u: u64, k: nat
      ensures Target(ts', u, k) == if u == f then None else Target(ts, u, k)
    {
      if u == f && k < ENTRIES {
        assert ts'[f].entries[k] == CLEARED;
      }
    }
    forall t: u64, j: nat, t': u64, j': nat
      ensures Unshared(ts', t, j, t', j')
    {
      assert Unshared(ts, t, j, t', j');
    }
  }

  /**
   * Pointing an absent entry of table `t` at frame `f`, which nothing else
   * refers to: a table one level down, or a page that is not a table.
   */
  lemma Link(ts: Tables, root: u64, free: set<int>, frames: set<int>, t: u64, j: nat, f: u64)
    requires Shape(ts, root) && Owned(ts, root, free, frames)
    requires t in ts && j < ENTRIES && Target(ts, t, j).None?
    requires NewEntry(f).Some? && NotTarget(ts, f) && f in frames && f !in free
    requires if ts[t].level > 1 then f in ts && ts[f].level == ts[t].level - 1 else f !in ts
    ensures var ts' := SetEntry(ts, t, j, NewEntry(f).value);
      Shape(ts', root) && Owned(ts', root, free, frames) && KeepsPresent(ts, ts') &&
      Target(ts', t, j) == Some(f) &&
      (forall u, k :: (u != t || k != j) ==> Target(ts', u, k) == Target(ts, u, k))
  {
    NewEntryFacts(f);
    var ts' := SetEntry(ts, t, j, NewEntry(f).value);
    assert Target(ts', t, j) == Some(f);
    forall u: u64, k: nat | u != t || k != j
      ensures Target(ts', u, k) == Target(ts, u, k)
    {
    }
    forall a: u64, b: nat, a': u64, b': nat
      ensures Unshared(ts', a, b, a', b')
    {
      assert Unshared(ts, a, b, a', b');
    }
  }

  /** Clearing entry `j` of table `t` leaves every other entry's target alone. */
  lemma UnlinkOthers(ts: Tables, t: u64, j: nat)
    requires t in ts && j < |ts[t].entries|
    ensures forall u, k :: (u != t || k != j) ==> Target(SetEntry(ts, t, j, CLEARED), u, k) == Target(ts, u, k)
  {
    var ts' := SetEntry(ts, t, j, CLEARED);
    forall u: u64, k: nat | u != t || k != j
      ensures Target(ts', u, k) == Target(ts, u, k)
    {
    }
  }

  /** Clearing an entry keeps the tables well formed. */
  lemma UnlinkShape(ts: Tables, root: u64, t: u64, j: nat)
    requires Shape(ts, root) && t in ts && j < ENTRIES
    ensures Shape(SetEntry(ts, t, j, CLEARED), root)
  {
    ClearedNotPresent();
    var ts' := SetEntry(ts, t, j, CLEARED);
    UnlinkOthers(ts, t, j);
    forall a: u64, b: nat, a': u64, b': nat
      ensures Unshared(ts', a, b, a', b')
    {
      assert Unshared(ts, a, b, a', b');
    }
  }

  /** Clearing entry `j` of table `t`: the frame it led to is no longer referred to. */
  lemma Unlink(ts: Tables, root: u64, t: u64, j: nat)
    requires Shape(ts, root) && t in ts && j < ENTRIES
    ensures var ts' := SetEntry(ts, t, j, CLEARED);
      Shape(ts', root) && Sub(ts', ts) && Target(ts', t, j).None? &&
      (forall u, k :: (u != t || k != j) ==> Target(ts', u, k) == Target(ts, u, k)) &&
      (Target(ts, t, j).Some? ==> NotTarget(ts', Target(ts, t, j).value))
  {
    ClearedNotPresent();
    var ts' := SetEntry(ts, t, j, CLEARED);
    UnlinkOthers(ts, t, j);
    UnlinkShape(ts, root, t, j);
    if Target(ts, t, j).Some? {
      forall u: u64, k: nat
        ensures Target(ts', u, k) != Target(ts, t, j)
      {
        assert Unshared(ts, t, j, u, k);
      }
    }
  }

  /** Removing a table other than the root that nothing refers to. */
  lemma Drop(ts: Tables, root: u64, c: u64)
    requires Shape(ts, root) && c in ts && c != root && NotTarget(ts, c)
    ensures Shape(ts - {c}, root) && Sub(ts - {c}, ts)
    ensures forall u, k :: u != c ==> Target(ts - {c}, u, k) == Target(ts, u, k)
  {
    var ts' := ts - {c};
    forall u: u64, k: nat | u != c
      ensures Target(ts', u, k) == Target(ts, u, k)
    {
    }
    forall t: u64, j: nat, t': u64, j': nat
      ensures Unshared(ts', t, j, t', j')
    {
      assert Unshared(ts, t, j, t', j');
    }
  }

  /** Two addresses that select the same four entries, i.e. lie in the same 4 KiB page. */
  predicate SameSlot(v: u64, w: u64)
  {
    Pml4tIndex(v) == Pml4tIndex(w) && PdptIndex(v) == PdptIndex(w) &&
    PdIndex(v) == PdIndex(w) && PtIndex(v) == PtIndex(w)
  }

  /** Two addresses select the same four entries exactly when they have the same page number. */
  lemma SameSlotIsSlot(v: u64, w: u64)
    ensures SameSlot(v, w) <==> Slot(v) == Slot(w)
  {
    SlotDigits(v);
    SlotDigits(w);
    if Slot(v) == Slot(w) {
      DigitsUnique(Pml4tIndex(v), PdptIndex(v), PdIndex(v), PtIndex(v),
                   Pml4tIndex(w), PdptIndex(w), PdIndex(w), PtIndex(w));
    }
  }

  /** `ts'` translates the page of `v` to `r` and every other page as `ts` does. */
  ghost predicate Remaps(ts: Tables, ts': Tables, root: u64, v: u64, r: Option<u64>)
  {
    forall w :: Walk(ts', root, w) == if SameSlot(v, w) then r else Walk(ts, root, w)
  }

  /** A walk meets a PDPT, then a PD, then a PT, and ends on a frame that is not a table. */
  lemma PathLevels(ts: Tables, root: u64, v: u64)
    requires Shape(ts, root)
    ensures Pdpt(ts, root, v).Some? ==> Pdpt(ts, root, v).value in ts && ts[Pdpt(ts, root, v).value].level == 3
    ensures Pd(ts, root, v).Some? ==> Pd(ts, root, v).value in ts && ts[Pd(ts, root, v).value].level == 2
    ensures Pt(ts, root, v).Some? ==> Pt(ts, root, v).value in ts && ts[Pt(ts, root, v).value].level == 1
    ensures Walk(ts, root, v).Some? ==> Walk(ts, root, v).value !in ts
  {
  }

  /** With distinct targets, two walks that meet the same PT came through the same entries. */
  lemma SamePt(ts: Tables, root: u64, v: u64, w: u64)
    requires Shape(ts, root) && Pt(ts, root, v).Some? && Pt(ts, root, v) == Pt(ts, root, w)
    ensures Pml4tIndex(v) == Pml4tIndex(w) && PdptIndex(v) == PdptIndex(w) && PdIndex(v) == PdIndex(w)
  {
    var d, d' := Pd(ts, root, v).value, Pd(ts, root, w).value;
    assert Unshared(ts, d, PdIndex(v), d', PdIndex(w));
    assert d == d';
    var e, e' := Pdpt(ts, root, v).value, Pdpt(ts, root, w).value;
    assert Unshared(ts, e, PdptIndex(v), e', PdptIndex(w));
    assert e == e';
    assert Unshared(ts, root, Pml4tIndex(v), root, Pml4tIndex(w));
  }

  /**
   * Rewriting only the PT entry that `v`'s page goes through changes the
   * translation of that page and of no other.
   */
  lemma LeafWalk(ts: Tables, ts': Tables, root: u64, v: u64, p1: u64, w: u64)
    requires Shape(ts, root) && Pt(ts, root, v) == Some(p1)
    requires forall u: u64, k: nat :: (u != p1 || k != PtIndex(v)) ==> Target(ts', u, k) == Target(ts, u, k)
    ensures Walk(ts', root, w) == if SameSlot(v, w) then Target(ts', p1, PtIndex(v)) else Walk(ts, root, w)
  {
    PathLevels(ts, root, v);
    PathLevels(ts, root, w);
    assert Pdpt(ts', root, w) == Pdpt(ts, root, w);
    assert Pd(ts', root, w) == Pd(ts, root, w);
    assert Pt(ts', root, w) == Pt(ts, root, w);
    if Pt(ts, root, w) == Some(p1) {
      SamePt(ts, root, v, w);
    }
  }

  /** Clearing the PT entry that maps `v` unmaps `v`'s page and no other. */
  lemma ClearLeafWalks(ts: Tables, root: u64, v: u64, p1: u64)
    requires Shape(ts, root) && Pt(ts, root, v) == Some(p1) && Walk(ts, root, v).Some?
    ensures p1 in ts && PtIndex(v) < |ts[p1].entries|
    ensures forall w :: Walk(SetEntry(ts, p1, PtIndex(v), CLEARED), root, w) == if SameSlot(v, w) then None else Walk(ts, root, w)
  {
    PathLevels(ts, root, v);
    var ts' := SetEntry(ts, p1, PtIndex(v), CLEARED);
    Unlink(ts, root, p1, PtIndex(v));
    forall w
      ensures Walk(ts', root, w) == if SameSlot(v, w) then None else Walk(ts, root, w)
    {
      LeafWalk(ts, ts', root, v, p1, w);
    }
  }

  /**
   * The step `unmap_vrange` takes after clearing an entry below table `c`:
   * if `c` has no present entry left, the entry `j` of its parent `p` that
   * leads to it is cleared and `c` stops being a table (its frame is freed).
   */
  function Prune(ts: Tables, p: u64, j: nat, c: u64): Tables
  {
    if p in ts && j < |ts[p].entries| && c in ts && Empty(ts[c].entries)
    then SetEntry(ts, p, j, CLEARED) - {c}
    else ts
  }

  /** Pruning only removes table `c` and clears entries. */
  lemma PruneSub(ts: Tables, p: u64, j: nat, c: u64)
    ensures var ts' := Prune(ts, p, j, c);
      Sub(ts', ts) && ts.Keys - {c} <= ts'.Keys <= ts.Keys &&
      (forall u :: u in ts' && u != p ==> ts'[u] == ts[u])
  {
    ClearedNotPresent();
    var ts' := Prune(ts, p, j, c);
    forall u: u64, k: nat | Target(ts', u, k).Some?
      ensures Target(ts, u, k) == Target(ts', u, k)
    {
    }
  }

  /** A table that an entry leads to sits one level below that entry's table, so it is not the root. */
  lemma ChildTable(ts: Tables, root: u64, p: u64, j: nat)
    requires Shape(ts, root) && Target(ts, p, j).Some? && Target(ts, p, j).value in ts
    ensures var c := Target(ts, p, j).value; ts[c].level == ts[p].level - 1 && c != root && c != p
  {
  }

  /**
   * Pruning the emptied table `c` below entry `j` of `p` keeps the shape,
   * and leaves nothing referring to `c`.
   */
  lemma PruneShape(ts: Tables, root: u64, p: u64, j: nat, c: u64)
    requires Shape(ts, root) && j < ENTRIES && Target(ts, p, j) == Some(c) && c in ts
    ensures var ts' := Prune(ts, p, j, c);
      Shape(ts', root) && p in ts' && ts'[p].level == ts[p].level &&
      (c !in ts' ==> NotTarget(ts', c))
  {
    var ts' := Prune(ts, p, j, c);
    if Empty(ts[c].entries) {
      ChildTable(ts, root, p, j);
      var mid := SetEntry(ts, p, j, CLEARED);
      Unlink(ts, root, p, j);
      Drop(mid, root, c);
      SubNotTarget(ts', mid, c);
    }
  }

  /**
   * Cutting off references to `c`, a table with no present entry, changes
   * no translation that does not end on `c` itself.
   */
  lemma DetachWalk(ts: Tables, ts': Tables, root: u64, c: u64, w: u64)
    requires forall u: u64, k: nat :: Target(ts', u, k) == Target(ts, u, k) || (Target(ts, u, k) == Some(c) && Target(ts', u, k).None?)
    requires forall k: nat :: Target(ts, c, k).None?
    requires Walk(ts, root, w) != Some(c)
    ensures Walk(ts', root, w) == Walk(ts, root, w)
  {
    if Pdpt(ts, root, w) != Pdpt(ts', root, w) {
      assert Pd(ts, root, w).None?;
    } else if Pd(ts, root, w) != Pd(ts', root, w) {
      assert Pt(ts, root, w).None?;
    } else if Pt(ts, root, w) != Pt(ts', root, w) {
      assert Walk(ts, root, w).None?;
    }
  }

  /** Pruning the emptied table `c` cuts off the references to it and nothing else. */
  lemma PruneTargets(ts: Tables, p: u64, j: nat, c: u64)
    requires Target(ts, p, j) == Some(c) && c in ts && Empty(ts[c].entries)
    ensures forall k: nat :: Target(ts, c, k).None?
    ensures forall u: u64, k: nat :: Target(Prune(ts, p, j, c), u, k) == Target(ts, u, k) || (Target(ts, u, k) == Some(c) && Target(Prune(ts, p, j, c), u, k).None?)
  {
    ClearedNotPresent();
    var ts' := Prune(ts, p, j, c);
    forall u: u64, k: nat
      ensures Target(ts', u, k) == Target(ts, u, k) || (Target(ts, u, k) == Some(c) && Target(ts', u, k).None?)
    {
      if u == p && k == j {
        assert Target(ts', u, k).None?;
      }
    }
  }

  /** Pruning an emptied table changes no translation. */
  lemma PruneWalks(ts: Tables, root: u64, p: u64, j: nat, c: u64)
    requires Shape(ts, root) && Target(ts, p, j) == Some(c) && c in ts
    ensures forall w :: Walk(Prune(ts, p, j, c), root, w) == Walk(ts, root, w)
  {
    if Empty(ts[c].entries) {
      PruneTargets(ts, p, j, c);
      forall w
        ensures Walk(Prune(ts, p, j, c), root, w) == Walk(ts, root, w)
      {
        PathLevels(ts, root, w);
        DetachWalk(ts, Prune(ts, p, j, c), root, c, w);
      }
    }
  }

  /** Pruning below `p` leaves the entries of every other table as they were. */
  lemma PruneKeep(ts: Tables, p: u64, j: nat, c: u64, q: u64, i: nat)
    requires q != p
    ensures Target(Prune(ts, p, j, c), q, i) == Target(ts, q, i)
  {
    ClearedNotPresent();
  }

  /** Pruning removes at most the table `c`. */
  lemma PruneKeys(ts: Tables, p: u64, j: nat, c: u64)
    ensures ts.Keys - {c} <= Prune(ts, p, j, c).Keys <= ts.Keys
  {
  }

  /** Entry `j` of `p` is the only present entry that leads to `c`. */
  ghost predicate OnlyRef(ts: Tables, p: u64, j: nat, c: u64)
  {
    forall u: u64, k: nat :: Target(ts, u, k) == Some(c) ==> u == p && k == j
  }

  /** Clearing an entry only removes a reference. */
  lemma ClearSub(ts: Tables, t: u64, j: nat)
    requires t in ts && j < |ts[t].entries|
    ensures Sub(SetEntry(ts, t, j, CLEARED), ts)
  {
    ClearedNotPresent();
    var ts' := SetEntry(ts, t, j, CLEARED);
    forall u: u64, k: nat | Target(ts', u, k).Some?
      ensures Target(ts, u, k) == Target(ts', u, k)
    {
    }
  }

  /**
   * A table pruned from `ts`, a part of `big` in which only entry `j` of
   * `p` leads to it, is referred to no more.
   */
  lemma PruneReleases(ts: Tables, big: Tables, p: u64, j: nat, c: u64)
    requires Sub(ts, big) && OnlyRef(big, p, j, c) && c in ts
    ensures c !in Prune(ts, p, j, c) ==> NotTarget(Prune(ts, p, j, c), c)
  {
    ClearedNotPresent();
    var ts' := Prune(ts, p, j, c);
    if c !in ts' {
      forall u: u64, k: nat
        ensures Target(ts', u, k) != Some(c)
      {
        if (u != p || k != j) && u != c && Target(ts', u, k).Some? {
          assert Target(ts', u, k) == Target(ts, u, k);
        }
      }
    }
  }

  /** In a well-shaped tree every present entry is the only one leading to its frame. */
  lemma ShapeOnlyRef(ts: Tables, root: u64, p: u64, j: nat)
    requires Shape(ts, root) && Target(ts, p, j).Some?
    ensures OnlyRef(ts, p, j, Target(ts, p, j).value)
  {
    forall u: u64, k: nat | Target(ts, u, k) == Target(ts, p, j)
      ensures u == p && k == j
    {
      assert Unshared(ts, p, j, u, k);
    }
  }

  /** Pruning moves the only possibly-empty table up from `c` to its parent `p`. */
  lemma PrunePruned(ts: Tables, root: u64, p: u64, j: nat, c: u64)
    requires Shape(ts, root) && j < ENTRIES && Target(ts, p, j) == Some(c) && c in ts
    requires Pruned(ts, root, {c})
    ensures Pruned(Prune(ts, p, j, c), root, {p})
  {
    PruneSub(ts, p, j, c);
  }

  /**
   * One iteration of `unmap_vrange` on the page of `v`: fails unless all
   * four entries on the way are present; clears the PT entry, then prunes
   * the PT, the PD and the PDPT in that order if each became empty. The
   * root is never pruned.
   */
  function UnmapPage(ts: Tables, root: u64, v: u64): Option<Tables>
  {
    if Walk(ts, root, v).None? then None
    else
      var p3, p2, p1 := Pdpt(ts, root, v).value, Pd(ts, root, v).value, Pt(ts, root, v).value;
      var t1 := SetEntry(ts, p1, PtIndex(v), CLEARED);
      var t2 := Prune(t1, p2, PdIndex(v), p1);
      var t3 := Prune(t2, p3, PdptIndex(v), p2);
      Some(Prune(t3, root, Pml4tIndex(v), p3))
  }

  lemma UnionAssoc(a: set<int>, b: set<int>, c: set<int>)
    ensures a + b + c == a + (b + c)
  {
  }

  /** Frames in `gone` are neither tables nor referred to any more: they may join the free list. */
  lemma OwnedAfterRelease(ts: Tables, ts': Tables, root: u64, free: set<int>, frames: set<int>, gone: set<int>)
    requires Owned(ts, root, free, frames) && Sub(ts', ts)
    requires forall x :: x in gone ==> x !in ts' && NotTarget(ts', x)
    ensures Owned(ts', root, free + gone, frames)
  {
  }

  /** The tables `p3`, `p2`, `p1` and the frame `f` are the ones met on the way to `v`. */
  predicate OnPath(ts: Tables, root: u64, v: u64, p3: u64, p2: u64, p1: u64, f: u64)
  {
    Target(ts, root, Pml4tIndex(v)) == Some(p3) && Target(ts, p3, PdptIndex(v)) == Some(p2) &&
    Target(ts, p2, PdIndex(v)) == Some(p1) && Target(ts, p1, PtIndex(v)) == Some(f)
  }

  /** Unmapping along a known path clears the leaf entry and prunes the three tables above it. */
  lemma UnmapPageAlong(ts: Tables, root: u64, v: u64, p3: u64, p2: u64, p1: u64, f: u64)
    requires Shape(ts, root) && OnPath(ts, root, v, p3, p2, p1, f)
    ensures UnmapPage(ts, root, v) ==
      Some(Prune(Prune(Prune(SetEntry(ts, p1, PtIndex(v), CLEARED), p2, PdIndex(v), p1), p3, PdptIndex(v), p2), root, Pml4tIndex(v), p3))
  {
    OnPathLevels(ts, root, v, p3, p2, p1, f);
  }

  /** The tables on a path have levels 3, 2 and 1, below the root, and the page is not a table. */
  lemma OnPathLevels(ts: Tables, root: u64, v: u64, p3: u64, p2: u64, p1: u64, f: u64)
    requires Shape(ts, root) && OnPath(ts, root, v, p3, p2, p1, f)
    ensures root in ts && ts[root].level == 4 && p3 in ts && ts[p3].level == 3
    ensures p2 in ts && ts[p2].level == 2 && p1 in ts && ts[p1].level == 1 && f !in ts
    ensures |ts[p1].entries| == ENTRIES
    ensures Pdpt(ts, root, v) == Some(p3) && Pd(ts, root, v) == Some(p2)
    ensures Pt(ts, root, v) == Some(p1) && Walk(ts, root, v) == Some(f)
  {
  }

  /**
   * Unmapping one page fails exactly when the page is not mapped;
   * otherwise that page, and only that page, stops being mapped, and the
   * shape is kept.
   */
  lemma UnmapPageWalks(ts: Tables, root: u64, v: u64)
    requires Shape(ts, root)
    ensures UnmapPage(ts, root, v).Some? <==> Walk(ts, root, v).Some?
    ensures UnmapPage(ts, root, v).Some? ==>
      var r := UnmapPage(ts, root, v).value;
      Shape(r, root) && Sub(r, ts) &&
      forall w :: Walk(r, root, w) == if SameSlot(v, w) then None else Walk(ts, root, w)
  {
    if Walk(ts, root, v).Some? {
      var p3, p2, p1, f := Pdpt(ts, root, v).value, Pd(ts, root, v).value, Pt(ts, root, v).value, Walk(ts, root, v).value;
      assert OnPath(ts, root, v, p3, p2, p1, f);
      var r := UnmapPage(ts, root, v).value;
      UnmapShape(ts, root, v, p3, p2, p1, f, r);
      UnmapSteps(ts, root, v, p3, p2, p1, f, r);
    }
  }

  /**
   * The intermediate trees of an unmap keep the shape, and each still has
   * the entry the next pruning step clears.
   */
  lemma PruneChain(ts: Tables, root: u64, v: u64, p3: u64, p2: u64, p1: u64, f: u64, t1: Tables, t2: Tables, t3: Tables)
    requires Shape(ts, root) && OnPath(ts, root, v, p3, p2, p1, f)
    requires p1 in ts && PtIndex(v) < |ts[p1].entries|
    requires t1 == SetEntry(ts, p1, PtIndex(v), CLEARED)
    requires t2 == Prune(t1, p2, PdIndex(v), p1) && t3 == Prune(t2, p3, PdptIndex(v), p2)
    ensures Shape(t1, root) && Target(t1, p2, PdIndex(v)) == Some(p1) && p1 in t1
    ensures Shape(t2, root) && Target(t2, p3, PdptIndex(v)) == Some(p2) && p2 in t2
    ensures Shape(t3, root) && Target(t3, root, Pml4tIndex(v)) == Some(p3) && p3 in t3
  {
    PruneFirst(ts, root, v, p3, p2, p1, f, t1, t2);
    PruneUp(t2, root, p3, PdptIndex(v), p2, root, Pml4tIndex(v));
  }

  /** The first two steps of `PruneChain`: clearing the PT entry, then pruning below the PD. */
  lemma PruneFirst(ts: Tables, root: u64, v: u64, p3: u64, p2: u64, p1: u64, f: u64, t1: Tables, t2: Tables)
    requires Shape(ts, root) && OnPath(ts, root, v, p3, p2, p1, f)
    requires p1 in ts && PtIndex(v) < |ts[p1].entries|
    requires t1 == SetEntry(ts, p1, PtIndex(v), CLEARED) && t2 == Prune(t1, p2, PdIndex(v), p1)
    ensures Shape(t1, root) && Target(t1, p2, PdIndex(v)) == Some(p1) && p1 in t1
    ensures Shape(t2, root) && Target(t2, p3, PdptIndex(v)) == Some(p2) && p2 in t2
    ensures Target(t2, root, Pml4tIndex(v)) == Some(p3) && root != p3
  {
    assert root != p3 && p3 != p2 && p2 != p1 by {
      OnPathLevels(ts, root, v, p3, p2, p1, f);
    }
    ClearStep(ts, root, v, p3, p2, p1, f);
    PruneUp(t1, root, p2, PdIndex(v), p1, p3, PdptIndex(v));
    PruneKeep(t1, p2, PdIndex(v), p1, root, Pml4tIndex(v));
  }

  /** Pruning below `p` keeps the shape, the table `p` and the entry of its parent `q` that leads to it. */
  lemma PruneUp(ts: Tables, root: u64, p: u64, j: nat, c: u64, q: u64, i: nat)
    requires Shape(ts, root) && j < ENTRIES && Target(ts, p, j) == Some(c) && c in ts
    requires Target(ts, q, i) == Some(p) && q != p
    ensures var ts' := Prune(ts, p, j, c);
      Shape(ts', root) && Target(ts', q, i) == Some(p) && p in ts'
  {
    PruneShape(ts, root, p, j, c);
    PruneKeep(ts, p, j, c, q, i);
  }

  /** Clearing the PT entry of an unmap keeps the entries that lead to the PDPT, the PD and the PT. */
  lemma ClearStep(ts: Tables, root: u64, v: u64, p3: u64, p2: u64, p1: u64, f: u64)
    requires Shape(ts, root) && OnPath(ts, root, v, p3, p2, p1, f)
    requires p1 in ts && PtIndex(v) < |ts[p1].entries|
    ensures Shape(SetEntry(ts, p1, PtIndex(v), CLEARED), root)
    ensures Sub(SetEntry(ts, p1, PtIndex(v), CLEARED), ts) && NotTarget(SetEntry(ts, p1, PtIndex(v), CLEARED), f)
    ensures ClearKeepsPath(ts, root, v, p3, p2, p1)
  {
    OnPathLevels(ts, root, v, p3, p2, p1, f);
    assert p2 != p1 && p3 != p1 && root != p1;
    Unlink(ts, root, p1, PtIndex(v));
  }

  /** After clearing the PT entry, the entries that lead to the PDPT, the PD and the PT are still there. */
  ghost predicate ClearKeepsPath(ts: Tables, root: u64, v: u64, p3: u64, p2: u64, p1: u64)
    requires p1 in ts && PtIndex(v) < |ts[p1].entries|
  {
    var t1 := SetEntry(ts, p1, PtIndex(v), CLEARED);
    p1 in t1 && Target(t1, p2, PdIndex(v)) == Some(p1) && Target(t1, p3, PdptIndex(v)) == Some(p2) &&
    Target(t1, root, Pml4tIndex(v)) == Some(p3)
  }

  /** An unmap keeps the shape and only removes tables and clears entries. */
  lemma UnmapShape(ts: Tables, root: u64, v: u64, p3: u64, p2: u64, p1: u64, f: u64, r: Tables)
    requires Shape(ts, root) && OnPath(ts, root, v, p3, p2, p1, f) && UnmapPage(ts, root, v) == Some(r)
    ensures Shape(r, root) && Sub(r, ts)
  {
    OnPathLevels(ts, root, v, p3, p2, p1, f);
    var t1 := SetEntry(ts, p1, PtIndex(v), CLEARED);
    var t2 := Prune(t1, p2, PdIndex(v), p1);
    var t3 := Prune(t2, p3, PdptIndex(v), p2);
    assert r == Prune(t3, root, Pml4tIndex(v), p3);
    PruneChain(ts, root, v, p3, p2, p1, f, t1, t2, t3);
    ClearStep(ts, root, v, p3, p2, p1, f);
    PruneShape(t3, root, root, Pml4tIndex(v), p3);
    PruneSub(t1, p2, PdIndex(v), p1);
    PruneSub(t2, p3, PdptIndex(v), p2);
    PruneSub(t3, root, Pml4tIndex(v), p3);
    SubTrans(r, t3, t2);
    SubTrans(r, t2, t1);
    SubTrans(r, t1, ts);
  }

  /** The steps of an unmap, one at a time: only `v`'s page stops being mapped. */
  lemma UnmapSteps(ts: Tables, root: u64, v: u64, p3: u64, p2: u64, p1: u64, f: u64, r: Tables)
    requires Shape(ts, root) && OnPath(ts, root, v, p3, p2, p1, f) && UnmapPage(ts, root, v) == Some(r)
    ensures forall w :: Walk(r, root, w) == if SameSlot(v, w) then None else Walk(ts, root, w)
  {
    OnPathLevels(ts, root, v, p3, p2, p1, f);
    var t1 := SetEntry(ts, p1, PtIndex(v), CLEARED);
    var t2 := Prune(t1, p2, PdIndex(v), p1);
    var t3 := Prune(t2, p3, PdptIndex(v), p2);
    assert r == Prune(t3, root, Pml4tIndex(v), p3);
    PruneChain(ts, root, v, p3, p2, p1, f, t1, t2, t3);
    ClearLeafWalks(ts, root, v, p1);
    PruneWalks(t1, root, p2, PdIndex(v), p1);
    PruneWalks(t2, root, p3, PdptIndex(v), p2);
    PruneWalks(t3, root, root, Pml4tIndex(v), p3);
  }

  /** The tables an unmap removes lie on the page's path; the page's own frame never was a table. */
  lemma UnmapPageRemoves(ts: Tables, root: u64, v: u64, p3: u64, p2: u64, p1: u64, f: u64, r: Tables)
    requires Shape(ts, root) && OnPath(ts, root, v, p3, p2, p1, f) && UnmapPage(ts, root, v) == Some(r)
    ensures ts.Keys - r.Keys <= {p3, p2, p1} && f !in r
  {
    OnPathLevels(ts, root, v, p3, p2, p1, f);
    var t1 := SetEntry(ts, p1, PtIndex(v), CLEARED);
    var t2 := Prune(t1, p2, PdIndex(v), p1);
    var t3 := Prune(t2, p3, PdptIndex(v), p2);
    RemovesChain(ts, r, t1, t2, t3, root, p3, p2, p1, Pml4tIndex(v), PdptIndex(v), PdIndex(v), PtIndex(v));
  }

  /** Each pruning step removes at most its own table. */
  lemma RemovesChain(ts: Tables, r: Tables, t1: Tables, t2: Tables, t3: Tables,
                     root: u64, p3: u64, p2: u64, p1: u64, i4: nat, i3: nat, i2: nat, i1: nat)
    requires p1 in ts && i1 < |ts[p1].entries|
    requires t1 == SetEntry(ts, p1, i1, CLEARED) && t2 == Prune(t1, p2, i2, p1) && t3 == Prune(t2, p3, i3, p2)
    requires r == Prune(t3, root, i4, p3)
    ensures ts.Keys - {p3, p2, p1} <= r.Keys <= ts.Keys
  {
    PruneKeys(t1, p2, i2, p1);
    PruneKeys(t2, p3, i3, p2);
    PruneKeys(t3, root, i4, p3);
  }

  /** The tables and the frame on a page's path are allocated frames. */
  lemma PathOwned(ts: Tables, root: u64, v: u64, p3: u64, p2: u64, p1: u64, f: u64, free: set<int>, frames: set<int>)
    requires Shape(ts, root) && Owned(ts, root, free, frames) && OnPath(ts, root, v, p3, p2, p1, f)
    ensures forall x :: x in {p3, p2, p1, f} ==> x in frames && x !in free
  {
    OnPathLevels(ts, root, v, p3, p2, p1, f);
  }

  /**
   * The frames an unmap releases, the tables it removes and the page's
   * own frame, are not referred to afterwards.
   */
  lemma UnmapPageReleases(ts: Tables, root: u64, v: u64, p3: u64, p2: u64, p1: u64, f: u64, r: Tables)
    requires Shape(ts, root) && OnPath(ts, root, v, p3, p2, p1, f) && UnmapPage(ts, root, v) == Some(r)
    ensures forall x :: x in ts.Keys - r.Keys ==> NotTarget(r, x)
    ensures NotTarget(r, f)
  {
    ReleasesTables(ts, root, v, p3, p2, p1, f, r);
    ReleasesLeaf(ts, root, v, p3, p2, p1, f, r);
  }

  lemma ReleasesTables(ts: Tables, root: u64, v: u64, p3: u64, p2: u64, p1: u64, f: u64, r: Tables)
    requires Shape(ts, root) && OnPath(ts, root, v, p3, p2, p1, f) && UnmapPage(ts, root, v) == Some(r)
    ensures forall x :: x in ts.Keys - r.Keys ==> NotTarget(r, x)
  {
    OnPathLevels(ts, root, v, p3, p2, p1, f);
    ShapeOnlyRef(ts, root, p1, PtIndex(v));
    ShapeOnlyRef(ts, root, p2, PdIndex(v));
    ShapeOnlyRef(ts, root, p3, PdptIndex(v));
    ShapeOnlyRef(ts, root, root, Pml4tIndex(v));
    var t1 := SetEntry(ts, p1, PtIndex(v), CLEARED);
    var t2 := Prune(t1, p2, PdIndex(v), p1);
    var t3 := Prune(t2, p3, PdptIndex(v), p2);
    ReleasesChain(ts, r, t1, t2, t3, root, p3, p2, p1, Pml4tIndex(v), PdptIndex(v), PdIndex(v), PtIndex(v));
  }

  /** Each table pruned along the way stays unreferred while the later steps only clear entries. */
  lemma ReleasesChain(ts: Tables, r: Tables, t1: Tables, t2: Tables, t3: Tables,
                      root: u64, p3: u64, p2: u64, p1: u64, i4: nat, i3: nat, i2: nat, i1: nat)
    requires p1 != p2 && p1 != p3 && p2 != p3 && p3 != root && p2 != root && p1 != root
    requires p1 in ts && p2 in ts && p3 in ts && i1 < |ts[p1].entries|
    requires OnlyRef(ts, p2, i2, p1) && OnlyRef(ts, p3, i3, p2) && OnlyRef(ts, root, i4, p3)
    requires t1 == SetEntry(ts, p1, i1, CLEARED) && t2 == Prune(t1, p2, i2, p1) && t3 == Prune(t2, p3, i3, p2)
    requires r == Prune(t3, root, i4, p3)
    ensures forall x :: x in ts.Keys - r.Keys ==> NotTarget(r, x)
  {
    ClearSub(ts, p1, i1);
    PruneSub(t1, p2, i2, p1);
    PruneSub(t2, p3, i3, p2);
    PruneSub(t3, root, i4, p3);
    SubTrans(t2, t1, ts);
    SubTrans(t3, t2, ts);
    SubTrans(r, t3, t2);
    PruneReleases(t1, ts, p2, i2, p1);
    PruneReleases(t2, ts, p3, i3, p2);
    PruneReleases(t3, ts, root, i4, p3);
    forall x | x in ts.Keys - r.Keys
      ensures NotTarget(r, x)
    {
      if x == p1 {
        SubNotTarget(r, t2, p1);
      } else if x == p2 {
        SubNotTarget(r, t3, p2);
      }
    }
  }

  lemma ReleasesLeaf(ts: Tables, root: u64, v: u64, p3: u64, p2: u64, p1: u64, f: u64, r: Tables)
    requires Shape(ts, root) && OnPath(ts, root, v, p3, p2, p1, f) && UnmapPage(ts, root, v) == Some(r)
    ensures NotTarget(r, f)
  {
    OnPathLevels(ts, root, v, p3, p2, p1, f);
    var t1 := SetEntry(ts, p1, PtIndex(v), CLEARED);
    var t2 := Prune(t1, p2, PdIndex(v), p1);
    var t3 := Prune(t2, p3, PdptIndex(v), p2);
    assert r == Prune(t3, root, Pml4tIndex(v), p3);
    Unlink(ts, root, p1, PtIndex(v));
    PruneSub(t1, p2, PdIndex(v), p1);
    PruneSub(t2, p3, PdptIndex(v), p2);
    PruneSub(t3, root, Pml4tIndex(v), p3);
    SubTrans(r, t3, t2);
    SubTrans(r, t2, t1);
    SubNotTarget(r, t1, f);
  }

  /** Unmapping one page leaves no table but the root empty, if none was before. */
  lemma UnmapPagePruned(ts: Tables, root: u64, v: u64, p3: u64, p2: u64, p1: u64, f: u64, r: Tables)
    requires Shape(ts, root) && OnPath(ts, root, v, p3, p2, p1, f) && UnmapPage(ts, root, v) == Some(r)
    requires Pruned(ts, root, {})
    ensures Pruned(r, root, {})
  {
    OnPathLevels(ts, root, v, p3, p2, p1, f);
    var t1 := SetEntry(ts, p1, PtIndex(v), CLEARED);
    var t2 := Prune(t1, p2, PdIndex(v), p1);
    var t3 := Prune(t2, p3, PdptIndex(v), p2);
    assert r == Prune(t3, root, Pml4tIndex(v), p3);
    PruneChain(ts, root, v, p3, p2, p1, f, t1, t2, t3);
    assert Pruned(t1, root, {p1});
    PrunePruned(t1, root, p2, PdIndex(v), p1);
    PrunePruned(t2, root, p3, PdptIndex(v), p2);
    PrunePruned(t3, root, root, Pml4tIndex(v), p3);
  }

  /** Unmapping one mapped page keeps the shape and unmaps that page only, removing tables on its path. */
  lemma UnmapPageKeeps(ts: Tables, root: u64, v: u64, p3: u64, p2: u64, p1: u64, f: u64, r: Tables)
    requires Shape(ts, root) && OnPath(ts, root, v, p3, p2, p1, f) && UnmapPage(ts, root, v) == Some(r)
    ensures Shape(r, root) && Remaps(ts, r, root, v, None)
    ensures ts.Keys - {p3, p2, p1} <= r.Keys <= ts.Keys && f !in ts
    ensures Pruned(ts, root, {}) ==> Pruned(r, root, {})
  {
    OnPathLevels(ts, root, v, p3, p2, p1, f);
    UnmapPageWalks(ts, root, v);
    UnmapPageRemoves(ts, root, v, p3, p2, p1, f, r);
    if Pruned(ts, root, {}) {
      UnmapPagePruned(ts, root, v, p3, p2, p1, f, r);
    }
  }

  /** The result of an unmap is part of the tables it started from. */
  lemma UnmapSub(ts: Tables, r: Tables, root: u64, p3: u64, p2: u64, p1: u64, i4: nat, i3: nat, i2: nat, i1: nat)
    requires p1 in ts && i1 < |ts[p1].entries|
    requires r == Prune(Prune(Prune(SetEntry(ts, p1, i1, CLEARED), p2, i2, p1), p3, i3, p2), root, i4, p3)
    ensures Sub(r, ts)
  {
    var t1 := SetEntry(ts, p1, i1, CLEARED);
    var t2 := Prune(t1, p2, i2, p1);
    var t3 := Prune(t2, p3, i3, p2);
    ClearSub(ts, p1, i1);
    PruneSub(t1, p2, i2, p1);
    PruneSub(t2, p3, i3, p2);
    PruneSub(t3, root, i4, p3);
    SubTrans(r, t3, t2);
    SubTrans(r, t2, t1);
    SubTrans(r, t1, ts);
  }

  /**
   * The frames an unmap releases (the tables it prunes, and the page's frame
   * unless the caller keeps it) are free to go back on the free list.
   */
  lemma UnmapPageOwned(ts: Tables, root: u64, v: u64, p3: u64, p2: u64, p1: u64, f: u64, r: Tables,
                       free: set<int>, frames: set<int>, keep: bool)
    requires Shape(ts, root) && Owned(ts, root, free, frames)
    requires OnPath(ts, root, v, p3, p2, p1, f) && UnmapPage(ts, root, v) == Some(r)
    ensures Owned(r, root, free + (ts.Keys - r.Keys) + (if keep then {} else {f}), frames)
  {
    OnPathLevels(ts, root, v, p3, p2, p1, f);
    UnmapPageAlong(ts, root, v, p3, p2, p1, f);
    UnmapSub(ts, r, root, p3, p2, p1, Pml4tIndex(v), PdptIndex(v), PdIndex(v), PtIndex(v));
    UnmapPageReleases(ts, root, v, p3, p2, p1, f, r);
    ReleaseOwned(ts, r, root, free, frames, f, keep);
  }

  /** The tables an unmap removed, and the page's frame unless it is kept, may join the free list. */
  lemma ReleaseOwned(ts: Tables, r: Tables, root: u64, free: set<int>, frames: set<int>, f: u64, keep: bool)
    requires Owned(ts, root, free, frames) && Sub(r, ts) && f !in ts
    requires (forall x :: x in ts.Keys - r.Keys ==> NotTarget(r, x)) && NotTarget(r, f)
    ensures Owned(r, root, free + (ts.Keys - r.Keys) + (if keep then {} else {f}), frames)
  {
    var gone := (ts.Keys - r.Keys) + (if keep then {} else {f});
    OwnedAfterRelease(ts, r, root, free, frames, gone);
    UnionAssoc(free, ts.Keys - r.Keys, if keep then {} else {f});
  }

  /** A frame on the free list is neither a table nor referred to, and may be taken off it. */
  lemma OwnedTake(ts: Tables, root: u64, free: set<int>, frames: set<int>, f: int)
    requires Owned(ts, root, free, frames) && f in free
    ensures f !in ts && NotTarget(ts, f) && Owned(ts, root, free - {f}, frames)
  {
  }

  /**
   * What `map_vrange` does at an upper level when entry `j` of table `t` is
   * absent: a zeroed table one level down at the fresh frame `f`, and the
   * entry pointing at it. Shape, ownership and every present entry are
   * kept; `t` is no longer empty and `f` is the one new empty table.
   */
  lemma Install(ts: Tables, root: u64, free: set<int>, frames: set<int>, t: u64, j: nat, f: u64, pending: set<u64>)
    requires Shape(ts, root) && Owned(ts, root, free, frames)
    requires t in ts && ts[t].level > 1 && j < ENTRIES && Target(ts, t, j).None?
    requires NewEntry(f).Some? && f in frames && f !in free && f !in ts && NotTarget(ts, f)
    ensures var ts' := SetEntry(ts[f := ZeroTable(ts[t].level - 1)], t, j, NewEntry(f).value);
      Shape(ts', root) && Owned(ts', root, free, frames) && KeepsPresent(ts, ts') &&
      ts'.Keys == ts.Keys + {f} && ts'[t].level == ts[t].level &&
      Target(ts', t, j) == Some(f) && ts'[f].level == ts[t].level - 1 &&
      (forall u: u64, k: nat :: Target(ts', u, k).Some? && Target(ts, u, k).None? ==> Target(ts', u, k).value == f) &&
      (Pruned(ts, root, pending) ==> Pruned(ts', root, pending - {t} + {f}))
  {
    var mid := ts[f := ZeroTable(ts[t].level - 1)];
    AddTable(ts, root, free, frames, f, ts[t].level - 1);
    Link(mid, root, free, frames, t, j, f);
    var ts' := SetEntry(mid, t, j, NewEntry(f).value);
    KeepsPresentTrans(ts, mid, ts');
    NewEntryFacts(f);
    assert Present(ts'[t].entries[j]);
  }

  /** Installing an empty table below an upper-level entry changes no translation. */
  lemma InstallWalks(ts: Tables, ts': Tables, root: u64, t: u64, j: nat, f: u64)
    requires t in ts && ts[t].level > 1 && j < ENTRIES && Target(ts, t, j).None?
    requires |ts[t].entries| == ENTRIES && NewEntry(f).Some? && f !in ts && Shape(ts', root)
    requires ts' == SetEntry(ts[f := ZeroTable(ts[t].level - 1)], t, j, NewEntry(f).value)
    ensures forall w :: Walk(ts', root, w) == Walk(ts, root, w)
  {
    ClearedNotPresent();
    NewEntryFacts(f);
    forall k: nat
      ensures Target(ts', f, k).None?
    {
      if k < ENTRIES {
        assert ts'[f].entries[k] == CLEARED;
      }
    }
    forall u: u64, k: nat
      ensures Target(ts, u, k) == Target(ts', u, k) || (Target(ts', u, k) == Some(f) && Target(ts, u, k).None?)
    {
      if u == t && k == j {
        assert Target(ts', t, j) == Some(f);
      }
    }
    forall w
      ensures Walk(ts', root, w) == Walk(ts, root, w)
    {
      PathLevels(ts', root, w);
      DetachWalk(ts', ts, root, f, w);
    }
  }

  /**
   * Pointing the PT entry on `v`'s path at `f` maps `v`'s page, and no
   * other, to `f`, and fills the one empty table.
   */
  lemma LeafLinked(ts: Tables, ts': Tables, root: u64, v: u64, p1: u64, f: u64)
    requires Shape(ts, root) && Pt(ts, root, v) == Some(p1) && p1 in ts && |ts[p1].entries| == ENTRIES
    requires NewEntry(f).Some? && ts' == SetEntry(ts, p1, PtIndex(v), NewEntry(f).value)
    ensures forall w :: Walk(ts', root, w) == if SameSlot(v, w) then Some(f) else Walk(ts, root, w)
    ensures Pruned(ts, root, {p1}) ==> Pruned(ts', root, {})
  {
    NewEntryFacts(f);
    assert Target(ts', p1, PtIndex(v)) == Some(f);
    forall u: u64, k: nat | u != p1 || k != PtIndex(v)
      ensures Target(ts', u, k) == Target(ts, u, k)
    {
    }
    forall w
      ensures Walk(ts', root, w) == if SameSlot(v, w) then Some(f) else Walk(ts, root, w)
    {
      LeafWalk(ts, ts', root, v, p1, w);
    }
    assert Present(ts'[p1].entries[PtIndex(v)]);
  }

  /**
   * From (`ts`, `free`) to (`ts'`, `free'`) the walker only grew the tree:
   * the free list shrank, present entries stayed, frames that were unused
   * stayed so, and no translation changed.
   */
  ghost predicate Extends(root: u64, ts: Tables, free: set<int>, ts': Tables, free': set<int>)
  {
    free' <= free && KeepsPresent(ts, ts') &&
    (forall x :: Unused(ts, free, x) ==> Unused(ts', free', x)) &&
    (forall w :: Walk(ts', root, w) == Walk(ts, root, w))
  }

  lemma ExtendsTrans(root: u64, ts: Tables, free: set<int>, ts': Tables, free': set<int>, ts'': Tables, free'': set<int>)
    requires Extends(root, ts, free, ts', free') && Extends(root, ts', free', ts'', free'')
    ensures Extends(root, ts, free, ts'', free'')
  {
    KeepsPresentTrans(ts, ts', ts'');
  }

  /**
   * The allocating step of `map_vrange` at an upper level, on values: the
   * free frame `c` becomes an empty table one level below `t`, and entry
   * `j` of `t` leads to it. The tree only grows.
   */
  lemma NewTableStep(ts: Tables, root: u64, free: set<int>, frames: set<int>, t: u64, j: nat, c: u64, pending: set<u64>)
    requires Shape(ts, root) && Owned(ts, root, free, frames) && c in free && c in frames
    requires t in ts && ts[t].level > 1 && j < ENTRIES && Target(ts, t, j).None? && NewEntry(c).Some?
    ensures var ts' := SetEntry(ts[c := ZeroTable(ts[t].level - 1)], t, j, NewEntry(c).value);
      Shape(ts', root) && Owned(ts', root, free - {c}, frames) && Extends(root, ts, free, ts', free - {c}) &&
      t in ts' && ts'[t].level == ts[t].level &&
      Target(ts', t, j) == Some(c) && c in ts' && ts'[c].level == ts[t].level - 1 &&
      (Pruned(ts, root, pending) ==> Pruned(ts', root, pending - {t} + {c}))
  {
    OwnedTake(ts, root, free, frames, c);
    var ts' := SetEntry(ts[c := ZeroTable(ts[t].level - 1)], t, j, NewEntry(c).value);
    Install(ts, root, free - {c}, frames, t, j, c, pending);
    InstallWalks(ts, ts', root, t, j, c);
  }

  /**
   * The last step of `map_vrange`, on values: the absent PT entry on
   * `v`'s path is pointed at the unused frame `f`. Only `v`'s page gains a
   * translation, and every other unused frame stays unused.
   */
  lemma LinkLeaf(ts: Tables, root: u64, free: set<int>, frames: set<int>, v: u64, p1: u64, f: u64)
    requires Shape(ts, root) && Owned(ts, root, free, frames)
    requires Pt(ts, root, v) == Some(p1) && p1 in ts && ts[p1].level == 1 && Target(ts, p1, PtIndex(v)).None?
    requires f in frames && Unused(ts, free, f) && NewEntry(f).Some?
    ensures |ts[p1].entries| == ENTRIES
    ensures var ts' := SetEntry(ts, p1, PtIndex(v), NewEntry(f).value);
      Shape(ts', root) && Owned(ts', root, free, frames) && KeepsPresent(ts, ts') &&
      Remaps(ts, ts', root, v, Some(f)) &&
      (Pruned(ts, root, {p1}) ==> Pruned(ts', root, {})) &&
      (forall x :: x != f && Unused(ts, free, x) ==> Unused(ts', free, x))
  {
    var ts' := SetEntry(ts, p1, PtIndex(v), NewEntry(f).value);
    Link(ts, root, free, frames, p1, PtIndex(v), f);
    LeafLinked(ts, ts', root, v, p1, f);
  }

  /**
   * Every frame `free_page_tables` hands back for the level-`lvl` table
   * `t`: the table itself and everything its present entries lead to.
   */
  ghost function Below(ts: Tables, t: u64, lvl: nat): set<int>
    decreases lvl, ENTRIES + 1
  {
    {t} + EntriesBelow(ts, t, lvl, ENTRIES)
  }

  /** What the first `i` entries of the level-`lvl` table `t` lead to. */
  ghost function EntriesBelow(ts: Tables, t: u64, lvl: nat, i: nat): set<int>
    requires i <= ENTRIES
    decreases lvl, i
  {
    if i == 0 then {}
    else
      EntriesBelow(ts, t, lvl, i - 1) +
      match Target(ts, t, i - 1)
      case None => {}
      case Some(c) => Part(ts, c, lvl)
  }

  /** What a present entry of a level-`lvl` table leads to: a page, or a table and all below it. */
  ghost function Part(ts: Tables, c: u64, lvl: nat): set<int>
    decreases lvl, 0
  {
    if lvl <= 1 then {c} else Below(ts, c, lvl - 1)
  }

  /** What entry `i` of `t` leads to, or nothing when the entry is not present. */
  ghost function EntryPart(ts: Tables, t: u64, lvl: nat, i: nat): set<int>
  {
    match Target(ts, t, i)
    case None => {}
    case Some(c) => Part(ts, c, lvl)
  }

  /** The free list after one more entry of the teardown loop. */
  lemma FreedEntry(ts: Tables, t: u64, lvl: nat, i: nat, free0: set<int>, free1: set<int>, free2: set<int>)
    requires i < ENTRIES && free1 == free0 + EntriesBelow(ts, t, lvl, i)
    requires free2 == free1 + EntryPart(ts, t, lvl, i)
    ensures free2 == free0 + EntriesBelow(ts, t, lvl, i + 1)
  {
  }

  /** An element of what the first `i` entries lead to comes from one of them. */
  lemma {:induction false} EntryOf(ts: Tables, t: u64, lvl: nat, i: nat, x: int) returns (j: nat)
    requires i <= ENTRIES && x in EntriesBelow(ts, t, lvl, i)
    ensures j < i && Target(ts, t, j).Some? && x in Part(ts, Target(ts, t, j).value, lvl)
  {
    if x in EntriesBelow(ts, t, lvl, i - 1) {
      j := EntryOf(ts, t, lvl, i - 1, x);
    } else {
      j := i - 1;
    }
  }

  /** Each entry among the first `i` contributes all it leads to. */
  lemma {:induction false} PartIn(ts: Tables, t: u64, lvl: nat, i: nat, k: nat)
    requires k < i <= ENTRIES
    ensures EntryPart(ts, t, lvl, k) <= EntriesBelow(ts, t, lvl, i)
  {
    if k < i - 1 {
      PartIn(ts, t, lvl, i - 1, k);
    }
  }

  /** Below a table there is only that table, tables of lower levels, and pages. */
  lemma {:induction false} BelowLevels(ts: Tables, root: u64, t: u64, lvl: nat, x: int)
    requires Shape(ts, root) && t in ts && ts[t].level == lvl && x in Below(ts, t, lvl)
    ensures x == t || x !in ts || ts[x as u64].level < lvl
    decreases lvl
  {
    if x != t {
      var j := EntryOf(ts, t, lvl, ENTRIES, x);
      var c := Target(ts, t, j).value;
      if lvl > 1 {
        BelowLevels(ts, root, c, lvl - 1, x);
      }
    }
  }

  /** Two tables of one level share nothing below them unless they are the same table. */
  lemma {:induction false} BelowUnique(ts: Tables, root: u64, a: u64, b: u64, lvl: nat, x: int)
    requires Shape(ts, root) && a in ts && b in ts && ts[a].level == lvl && ts[b].level == lvl
    requires x in Below(ts, a, lvl) && x in Below(ts, b, lvl)
    ensures a == b
    decreases lvl
  {
    BelowLevels(ts, root, a, lvl, x);
    BelowLevels(ts, root, b, lvl, x);
    if x != a && x != b {
      var ja := EntryOf(ts, a, lvl, ENTRIES, x);
      var jb := EntryOf(ts, b, lvl, ENTRIES, x);
      var ca, cb := Target(ts, a, ja).value, Target(ts, b, jb).value;
      if lvl > 1 {
        BelowUnique(ts, root, ca, cb, lvl - 1, x);
      }
      assert Unshared(ts, a, ja, b, jb);
    }
  }

  /** Two entries of one table that lead to a common frame are the same entry. */
  lemma PartsMeet(ts: Tables, root: u64, t: u64, lvl: nat, i: nat, j: nat, x: int)
    requires Shape(ts, root) && t in ts && ts[t].level == lvl
    requires x in EntryPart(ts, t, lvl, i) && x in EntryPart(ts, t, lvl, j)
    ensures i == j
  {
    var c, d := Target(ts, t, i).value, Target(ts, t, j).value;
    if lvl > 1 {
      BelowUnique(ts, root, c, d, lvl - 1, x);
    }
    assert Unshared(ts, t, i, t, j);
  }

  /** What entry `i` leads to is disjoint from what the entries before it lead to. */
  lemma PartDisjoint(ts: Tables, root: u64, t: u64, lvl: nat, i: nat)
    requires Shape(ts, root) && t in ts && ts[t].level == lvl && i < ENTRIES
    ensures EntryPart(ts, t, lvl, i) !! EntriesBelow(ts, t, lvl, i)
  {
    forall x | x in EntryPart(ts, t, lvl, i)
      ensures x !in EntriesBelow(ts, t, lvl, i)
    {
      if x in EntriesBelow(ts, t, lvl, i) {
        var j := EntryOf(ts, t, lvl, i, x);
        PartsMeet(ts, root, t, lvl, i, j, x);
        assert false;
      }
    }
  }

  /**
   * Before entry `i` is torn down, what it leads to is allocated and not
   * yet free: the loop never frees a frame twice.
   */
  lemma EntryReclaimable(ts: Tables, root: u64, t: u64, lvl: nat, i: nat,
                         free0: set<int>, free1: set<int>, frames: set<int>)
    requires Shape(ts, root) && t in ts && ts[t].level == lvl && i < ENTRIES
    requires Below(ts, t, lvl) <= frames && Below(ts, t, lvl) !! free0
    requires free1 == free0 + EntriesBelow(ts, t, lvl, i)
    ensures EntryPart(ts, t, lvl, i) <= frames && EntryPart(ts, t, lvl, i) !! free1
  {
    PartIn(ts, t, lvl, ENTRIES, i);
    PartDisjoint(ts, root, t, lvl, i);
  }

  /** A table is not among what its own entries lead to. */
  lemma NotBelowEntries(ts: Tables, root: u64, t: u64, lvl: nat)
    requires Shape(ts, root) && t in ts && ts[t].level == lvl
    ensures t !in EntriesBelow(ts, t, lvl, ENTRIES)
  {
    if t in EntriesBelow(ts, t, lvl, ENTRIES) {
      var j := EntryOf(ts, t, lvl, ENTRIES, t);
      var c := Target(ts, t, j).value;
      if lvl > 1 {
        BelowLevels(ts, root, c, lvl - 1, t);
      }
    }
  }

  /** Everything below an owned table is an allocated frame that is not free. */
  lemma {:induction false} BelowOwned(ts: Tables, root: u64, free: set<int>, frames: set<int>, t: u64, lvl: nat)
    requires Shape(ts, root) && Owned(ts, root, free, frames) && t in ts && ts[t].level == lvl
    ensures Below(ts, t, lvl) <= frames && Below(ts, t, lvl) !! free
    decreases lvl
  {
    forall x | x in Below(ts, t, lvl)
      ensures x in frames && x !in free
    {
      if x != t {
        var j := EntryOf(ts, t, lvl, ENTRIES, x);
        var c := Target(ts, t, j).value;
        if lvl > 1 {
          BelowOwned(ts, root, free, frames, c, lvl - 1);
        }
      }
    }
  }

  /**
   * The root's teardown set holds every table on the way to a mapped page
   * and the page itself.
   */
  lemma WalkBelow(ts: Tables, root: u64, v: u64)
    requires Shape(ts, root) && Walk(ts, root, v).Some?
    ensures Pdpt(ts, root, v).value in Below(ts, root, 4) && Pd(ts, root, v).value in Below(ts, root, 4)
    ensures Pt(ts, root, v).value in Below(ts, root, 4) && Walk(ts, root, v).value in Below(ts, root, 4)
  {
    var p3, p2, p1 := Pdpt(ts, root, v).value, Pd(ts, root, v).value, Pt(ts, root, v).value;
    PathLevels(ts, root, v);
    PartIn(ts, root, 4, ENTRIES, Pml4tIndex(v));
    PartIn(ts, p3, 3, ENTRIES, PdptIndex(v));
    PartIn(ts, p2, 2, ENTRIES, PdIndex(v));
    PartIn(ts, p1, 1, ENTRIES, PtIndex(v));
  }
}
