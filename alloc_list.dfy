/**
 * The virtual-range allocator `AllocList` (`kernel/vspace.cpp:9-222`), a
 * "resource map": it keeps the free parts of a span as address-ordered
 * ranges, hands out first-fit aligned pieces and merges a returned range
 * with neighbours that touch it exactly.
 *
 * The doubly linked headers from `m_first` to `m_last` are the sequence
 * `nodes`, in list order; the pool the headers come from is not part of
 * this model.
 */
module AllocList {
  import opened Types
  import opened Bits
  import opened Math
  import opened Range

  /** The addresses a range covers. */
  ghost function Span(r: Range): set<int>
  {
    set x: int | r.addr <= x < r.addr + r.length && Contains(r, x)
  }

  /** Every free address: the union of the nodes' spans. */
  ghost function Free(nodes: seq<Range>): set<int>
  {
    if nodes == [] then {} else Free(nodes[..|nodes| - 1]) + Span(nodes[|nodes| - 1])
  }

  /** Each node is a non-empty, non-wrapping, page-aligned range. */
  predicate Pages(nodes: seq<Range>)
  {
    forall i :: 0 <= i < |nodes| ==>
      nodes[i].length > 0 && NoWrap(nodes[i]) && nodes[i].addr % 4096 == 0 && nodes[i].length % 4096 == 0
  }

  /** Nodes are in address order and do not overlap. */
  predicate Sorted(nodes: seq<Range>)
  {
    forall i, j :: 0 <= i < j < |nodes| ==> nodes[i].addr + nodes[i].length <= nodes[j].addr
  }

  /**
   * Neighbours do not touch, except possibly at the seams `a` and `b`
   * (seam `i` lies between nodes `i` and `i + 1`; `-1` names no seam).
   */
  predicate SeparatedBut(nodes: seq<Range>, a: int, b: int)
  {
    forall i :: 0 <= i < |nodes| - 1 && i != a && i != b ==> nodes[i].addr + nodes[i].length != nodes[i + 1].addr
  }

  /** The list invariant: page-aligned, ordered, disjoint, and fully merged. */
  predicate Coalesced(nodes: seq<Range>)
  {
    Pages(nodes) && Sorted(nodes) && SeparatedBut(nodes, -1, -1)
  }

  /** The size `take_range` looks for: `wanted_size + alignment - 1`, wrapping as a `u64`. */
  function Worst(wanted: u64, alignment: u64): (w: u64)
    ensures 0 < wanted + alignment < U64_MOD ==> w == wanted + alignment - 1
    ensures wanted + alignment == 0 ==> w == U64_MOD - 1
  {
    Sub64(Add64(wanted, alignment), 1)
  }

  /** The first node, in address order, at least `worst` long. */
  function FirstFit(nodes: seq<Range>, worst: u64): (r: Option<nat>)
    ensures r.Some? ==> (r.value < |nodes| && nodes[r.value].length >= worst &&
      forall j :: 0 <= j < r.value ==> nodes[j].length < worst)
    ensures r.None? ==> forall j :: 0 <= j < |nodes| ==> nodes[j].length < worst
  {
    if nodes == [] then None
    else if nodes[0].length >= worst then Some(0)
    else match FirstFit(nodes[1..], worst)
      case None => None
      case Some(k) => Some(k + 1)
  }

  // ---------------------------------------------------------------------------
  // Facts about spans and free sets

  lemma FreeAppend(a: seq<Range>, r: Range)
    ensures Free(a + [r]) == Free(a) + Span(r)
  {
    assert (a + [r])[..|a|] == a;
  }

  lemma {:induction false} FreeConcat(a: seq<Range>, b: seq<Range>)
    ensures Free(a + b) == Free(a) + Free(b)
    decreases |b|
  {
    if b == [] {
      assert a + b == a;
    } else {
      var b' := b[..|b| - 1];
      var r := b[|b| - 1];
      assert a + b == (a + b') + [r];
      assert b == b' + [r];
      FreeAppend(a + b', r);
      FreeAppend(b', r);
      FreeConcat(a, b');
    }
  }

  /** The free set of `nodes` with node `i` replaced by the list `mid`. */
  lemma FreeSplice(nodes: seq<Range>, i: nat, j: nat, mid: seq<Range>)
    requires i <= j <= |nodes|
    ensures Free(nodes[..i] + mid + nodes[j..]) == Free(nodes[..i]) + Free(mid) + Free(nodes[j..])
    ensures Free(nodes) == Free(nodes[..i]) + Free(nodes[i..j]) + Free(nodes[j..])
  {
    FreeConcat(nodes[..i] + mid, nodes[j..]);
    FreeConcat(nodes[..i], mid);
    assert nodes == nodes[..i] + nodes[i..j] + nodes[j..];
    FreeConcat(nodes[..i] + nodes[i..j], nodes[j..]);
    FreeConcat(nodes[..i], nodes[i..j]);
  }

  lemma FreeOne(r: Range)
    ensures Free([r]) == Span(r)
  {
    FreeAppend([], r);
  }

  /** An address is free exactly when some node covers it. */
  lemma {:induction false} FreeMember(nodes: seq<Range>, x: int)
    ensures x in Free(nodes) <==> exists i :: 0 <= i < |nodes| && Contains(nodes[i], x)
    decreases |nodes|
  {
    if nodes != [] {
      var a := nodes[..|nodes| - 1];
      FreeMember(a, x);
      if x in Free(a) {
        var i :| 0 <= i < |a| && Contains(a[i], x);
        assert nodes[i] == a[i];
      }
      if exists i :: 0 <= i < |nodes| && Contains(nodes[i], x) {
        var i :| 0 <= i < |nodes| && Contains(nodes[i], x);
        if i < |a| {
          assert Contains(a[i], x);
        }
      }
    }
  }

  // ---------------------------------------------------------------------------
  // The allocator

  class AllocList {
    /** The free ranges, in the order of the `next` links from `m_first`. */
    var nodes: seq<Range>
    /** `alloc_range`: the span the allocator was built over. */
    var span: Range

    ghost predicate Valid()
      reads this
    {
      Coalesced(nodes)
    }

    /**
     * `AllocList(span)`: the span must start and end on a page boundary;
     * the list starts as the single free node `span`.
     */
    constructor (span: Range)
      requires IsAligned(span.addr, 4096) && IsAligned(OnePastEnd(span), 4096)
      ensures this.span == span && nodes == [span]
      ensures span.length > 0 && NoWrap(span) ==> Valid() && Free(nodes) == Span(span)
    {
      this.span := span;
      nodes := [span];
      if span.length > 0 && NoWrap(span) {
        PageAligned(span.addr);
        PageAligned(OnePastEnd(span));
        OneCoalesced(span);
      }
      FreeOne(span);
    }

    /**
     * `take_range`: finds the first node at least `wanted + alignment - 1`
     * long, takes `wanted` bytes from the first `alignment` boundary in
     * it, and gives the slack before and after back to the list. An empty
     * list, sizes that are not page multiples, and no fitting node are
     * fatal (`ok` false, nothing changes).
     */
    method TakeRange(wanted: u64, alignment: u64) returns (ok: bool, taken: Range)
      requires Valid() && wanted + alignment < U64_MOD
      modifies this
      ensures Valid() && span == old(span)
      ensures ok <==> (old(nodes) != [] && IsAligned(wanted, 4096) && IsAligned(alignment, 4096) &&
        FirstFit(old(nodes), Worst(wanted, alignment)).Some?)
      ensures ok ==> taken == Range(RoundUpAlign(old(nodes)[FirstFit(old(nodes), Worst(wanted, alignment)).value].addr, alignment), wanted)
      ensures ok ==> NoWrap(taken) && Span(taken) <= old(Free(nodes)) && Free(nodes) == old(Free(nodes)) - Span(taken)
      ensures !ok ==> nodes == old(nodes)
    {
      taken := Range(0, 0);
      if nodes == [] || !IsAligned(wanted, 4096) || !IsAligned(alignment, 4096) {
        return false, taken;
      }
      var worst := Worst(wanted, alignment);
      var i := 0;
      while i < |nodes|
        invariant i <= |nodes|
        invariant forall j :: 0 <= j < i ==> nodes[j].length < worst
      {
        assert nodes[i].length != 0;
        if nodes[i].length >= worst {
          FirstFitIs(nodes, worst, i);
          PageAligned(wanted);
          PageAligned(alignment);
          taken := TakeFrom(i, wanted, alignment);
          return true, taken;
        }
        i := i + 1;
      }
      FirstFitNone(nodes, worst);
      return false, taken;
    }

    /**
     * The body of `take_range` once node `i` fits: the node leaves the list
     * and the unused space before and after the taken piece is returned.
     */
    method TakeFrom(i: nat, wanted: u64, alignment: u64) returns (taken: Range)
      requires Valid() && i < |nodes| && wanted + alignment < U64_MOD
      requires wanted % 4096 == 0 && alignment % 4096 == 0 && nodes[i].length >= Worst(wanted, alignment)
      modifies this
      ensures Valid() && span == old(span)
      ensures taken == Range(RoundUpAlign(old(nodes)[i].addr, alignment), wanted)
      ensures NoWrap(taken) && Span(taken) <= old(Free(nodes)) && Free(nodes) == old(Free(nodes)) - Span(taken)
    {
      var node := nodes[i];
      var aligned := RoundUpAlign(node.addr, alignment);
      FitsInNode(node, wanted, alignment);
      taken := Range(aligned, wanted);
      var before := Range(node.addr, aligned - node.addr);
      var after := Range(aligned + wanted, node.addr + node.length - (aligned + wanted));
      SortedApart(nodes, i);
      FreeRemove(nodes, i);
      RemoveKeeps(nodes, i);
      TakeSplit(Free(nodes), Free(nodes[..i] + nodes[i + 1..]), node, aligned, wanted);
      nodes := nodes[..i] + nodes[i + 1..];
      if before.length > 0 {
        ReturnRange(before);
      }
      if after.length > 0 {
        ReturnRange(after);
      }
    }

    /**
     * `return_range`: inserts `r` in address order and merges it with
     * neighbours it touches. The caller must return a page-aligned range
     * that is not free; that makes the source's same-start check (line
     * 113) and its final unreachable point provably dead.
     */
    method ReturnRange(r: Range)
      requires Valid() && r.length > 0 && NoWrap(r) && r.addr % 4096 == 0 && r.length % 4096 == 0
      requires Span(r) !! Free(nodes)
      modifies this
      ensures Valid() && span == old(span)
      ensures Free(nodes) == old(Free(nodes)) + Span(r)
      ensures |nodes| <= old(|nodes|) + 1
    {
      if nodes == [] {
        nodes := [r];
        FreeOne(r);
        return;
      }
      if r.addr < nodes[0].addr {
        InsertAt(0, r);
        return;
      }
      if r.addr > nodes[|nodes| - 1].addr {
        InsertAt(|nodes|, r);
        return;
      }
      var i := 0;
      while i < |nodes|
        invariant i <= |nodes|
        invariant forall j :: 0 <= j < i ==> nodes[j].addr < r.addr
      {
        assert nodes[i].addr != r.addr by {
          StartsApart(nodes, i, r);
        }
        assert nodes[i].length != 0;
        if nodes[i].addr > r.addr {
          InsertAt(i, r);
          return;
        }
        i := i + 1;
      }
      assert false;
    }

    /** Links `r` in as node `i` (between nodes `i - 1` and `i`), then coalesces around it. */
    method InsertAt(i: nat, r: Range)
      requires Valid() && i <= |nodes| && r.length > 0 && NoWrap(r) && r.addr % 4096 == 0 && r.length % 4096 == 0
      requires Span(r) !! Free(nodes)
      requires i > 0 ==> nodes[i - 1].addr < r.addr
      requires i < |nodes| ==> r.addr < nodes[i].addr
      modifies this
      ensures Valid() && span == old(span)
      ensures Free(nodes) == old(Free(nodes)) + Span(r)
      ensures |nodes| <= old(|nodes|) + 1
    {
      InsertGaps(nodes, i, r);
      InsertSorted(nodes, i, r);
      InsertSeparated(nodes, i, r);
      FreeInsert(nodes, i, r);
      nodes := nodes[..i] + [r] + nodes[i..];
      Coalesce(i);
    }

    /**
     * `coalesce`: merges node `k` with the next node, then the previous
     * node with node `k`, each only if they touch. Only the two seams
     * around node `k` may touch beforehand.
     */
    method Coalesce(k: nat)
      requires k < |nodes| && Pages(nodes) && Sorted(nodes) && SeparatedBut(nodes, k as int - 1, k)
      modifies this
      ensures Coalesced(nodes) && span == old(span)
      ensures Free(nodes) == old(Free(nodes)) && |nodes| <= old(|nodes|)
    {
      if k + 1 < |nodes| {
        ImplCoalesce(k, k as int - 1);
      }
      if k > 0 {
        ImplCoalesce(k - 1, -1);
      }
    }

    /**
     * `impl_coalesce`: if node `c` ends exactly where node `c + 1` starts,
     * node `c` absorbs it. Afterwards the seam at `c` no longer touches,
     * so only the seam `other`, below `c`, may.
     */
    method ImplCoalesce(c: nat, other: int)
      requires c + 1 < |nodes| && Pages(nodes) && Sorted(nodes) && SeparatedBut(nodes, c, other) && other < c
      modifies this
      ensures span == old(span)
      ensures nodes == if old(nodes[c].addr + nodes[c].length == nodes[c + 1].addr)
        then old(nodes[..c] + [Range(nodes[c].addr, nodes[c].length + nodes[c + 1].length)] + nodes[c + 2..])
        else old(nodes)
      ensures Pages(nodes) && Sorted(nodes) && SeparatedBut(nodes, other, -1)
      ensures Free(nodes) == old(Free(nodes)) && c < |nodes| <= old(|nodes|)
    {
      var cur, next := nodes[c], nodes[c + 1];
      if cur.addr + cur.length == next.addr {
        MergeKeeps(nodes, c, other);
        MergeFree(nodes, c);
        nodes := nodes[..c] + [Range(cur.addr, cur.length + next.length)] + nodes[c + 2..];
      }
    }

    /** `get_free_space`: the total length of the free nodes. */
    method GetFreeSpace() returns (sum: u64)
      requires Valid()
      ensures sum == |Free(nodes)|
    {
      var total := 0;
      var i := 0;
      while i < |nodes|
        invariant i <= |nodes| && total == |Free(nodes[..i])|
      {
        FreeCardStep(nodes, i);
        total := total + nodes[i].length;
        i := i + 1;
      }
      assert nodes[..|nodes|] == nodes;
      FreeBound(nodes);
      sum := total;
    }
  }

  // ---------------------------------------------------------------------------
  // Lemmas behind the methods

  /** `is_aligned(v, 4096)` is divisibility by the page size. */
  lemma PageAligned(v: u64)
    ensures IsAligned(v, 4096) <==> v % 4096 == 0
  {
    MaskIsMod(v, 12);
    Pow2Small();
  }

  lemma OneCoalesced(r: Range)
    requires r.length > 0 && NoWrap(r) && r.addr % 4096 == 0 && (r.addr + r.length) % 4096 == 0
    ensures Coalesced([r])
  {
    assert r.length == (r.addr + r.length) - r.addr;
    assert r.length % 4096 == 0;
  }

  lemma FirstFitIs(nodes: seq<Range>, worst: u64, i: nat)
    requires i < |nodes| && nodes[i].length >= worst && forall j :: 0 <= j < i ==> nodes[j].length < worst
    ensures FirstFit(nodes, worst) == Some(i)
  {
  }

  lemma FirstFitNone(nodes: seq<Range>, worst: u64)
    requires forall j :: 0 <= j < |nodes| ==> nodes[j].length < worst
    ensures FirstFit(nodes, worst).None?
  {
  }

  /** Two multiples of `m` less than `d + m` apart, where `d` is a multiple of `m`, are at most `d` apart. */
  lemma MultipleGap(x: nat, y: nat, m: nat, d: nat)
    requires m > 0 && x % m == 0 && y % m == 0 && d % m == 0 && y <= x < y + d + m
    ensures x - y <= d
  {
    if x - y > d {
      assert y + d == (y / m + d / m) * m;
      MulMod(y / m + d / m, m);
      MultiplesApart(x, y + d, m);
    }
  }

  lemma ModOfMultiple(a: nat, m: nat, k: nat)
    requires k > 0 && m > 0 && a % m == 0 && m % k == 0
    ensures a % k == 0
  {
    var p, q := a / m, m / k;
    assert a == p * m && m == q * k;
    assert a == (p * q) * k;
    MulMod(p * q, k);
  }

  /**
   * The ASSERT at line 42 holds: in a page-aligned node at least
   * `wanted + alignment - 1` long, the first `alignment` boundary leaves
   * room for `wanted` bytes.
   */
  lemma FitsInNode(node: Range, wanted: u64, alignment: u64)
    requires node.addr % 4096 == 0 && node.length % 4096 == 0 && NoWrap(node)
    requires wanted % 4096 == 0 && alignment % 4096 == 0 && wanted + alignment < U64_MOD
    requires node.length >= Worst(wanted, alignment)
    ensures node.addr <= RoundUpAlign(node.addr, alignment)
    ensures RoundUpAlign(node.addr, alignment) + wanted <= node.addr + node.length
    ensures RoundUpAlign(node.addr, alignment) % 4096 == 0
  {
    if alignment == 0 {
      if wanted > 0 {
        MultipleGap(wanted, 0, 4096, node.length);
      }
    } else {
      FitsAligned(node.addr, node.length, wanted, alignment, RoundUpAlign(node.addr, alignment));
    }
  }

  lemma FitsAligned(addr: nat, length: nat, wanted: nat, alignment: nat, a: nat)
    requires addr % 4096 == 0 && length % 4096 == 0
    requires wanted % 4096 == 0 && alignment % 4096 == 0 && alignment > 0
    requires length >= wanted + alignment - 1
    requires a % alignment == 0 && addr <= a < addr + alignment
    ensures a + wanted <= addr + length && a % 4096 == 0
  {
    ModOfMultiple(a, alignment, 4096);
    MultipleGap(a, addr, 4096, alignment - 4096);
    MultipleGap(wanted + alignment - 4096, 0, 4096, length);
  }

  /** The pieces of an interval cut at `b` and `c` are disjoint and make up the interval. */
  lemma SpanSplit(a: int, b: int, c: int, d: int)
    requires 0 <= a <= b <= c <= d < U64_MOD
    ensures Span(Range(a, d - a)) == Span(Range(a, b - a)) + Span(Range(b, c - b)) + Span(Range(c, d - c))
    ensures Span(Range(a, b - a)) !! Span(Range(b, c - b)) && Span(Range(a, b - a)) !! Span(Range(c, d - c))
    ensures Span(Range(b, c - b)) !! Span(Range(c, d - c))
  {
  }

  /** In a sorted list, a node is disjoint from every other node's span. */
  lemma SortedApart(nodes: seq<Range>, i: nat)
    requires Pages(nodes) && Sorted(nodes) && i < |nodes|
    ensures Span(nodes[i]) !! Free(nodes[..i]) + Free(nodes[i + 1..])
  {
    var pre, post := nodes[..i], nodes[i + 1..];
    forall x | x in Span(nodes[i])
      ensures x !in Free(pre) && x !in Free(post)
    {
      assert forall k :: 0 <= k < |pre| ==> !Contains(pre[k], x);
      assert forall k :: 0 <= k < |post| ==> post[k] == nodes[i + 1 + k] && !Contains(post[k], x);
      FreeMember(pre, x);
      FreeMember(post, x);
    }
  }

  /** Removing node `i`, whose span the other nodes do not cover, removes exactly that span. */
  lemma FreeRemove(nodes: seq<Range>, i: nat)
    requires i < |nodes| && Span(nodes[i]) !! Free(nodes[..i]) + Free(nodes[i + 1..])
    ensures Span(nodes[i]) <= Free(nodes)
    ensures Free(nodes[..i] + nodes[i + 1..]) == Free(nodes) - Span(nodes[i])
  {
    FreeSplice(nodes, i, i + 1, []);
    assert nodes[..i] + [] + nodes[i + 1..] == nodes[..i] + nodes[i + 1..];
    assert nodes[i..i + 1] == [nodes[i]];
    FreeOne(nodes[i]);
  }

  /** Removing a node keeps the list merged: its two neighbours were already apart. */
  lemma RemoveKeeps(nodes: seq<Range>, i: nat)
    requires Coalesced(nodes) && i < |nodes|
    ensures Coalesced(nodes[..i] + nodes[i + 1..])
  {
    var n := nodes[..i] + nodes[i + 1..];
    forall k | 0 <= k < |n|
      ensures n[k] == if k < i then nodes[k] else nodes[k + 1]
    {
    }
    assert Pages(n) && Sorted(n) by {
      RemoveSorted(nodes, i);
    }
    if 0 < i < |nodes| - 1 {
      assert nodes[i - 1].addr + nodes[i - 1].length <= nodes[i].addr < nodes[i + 1].addr;
    }
  }

  lemma RemoveSorted(nodes: seq<Range>, i: nat)
    requires Pages(nodes) && Sorted(nodes) && i < |nodes|
    ensures Pages(nodes[..i] + nodes[i + 1..]) && Sorted(nodes[..i] + nodes[i + 1..])
  {
    var n := nodes[..i] + nodes[i + 1..];
    forall k | 0 <= k < |n|
      ensures n[k] == if k < i then nodes[k] else nodes[k + 1]
    {
    }
  }

  /**
   * Cutting `node` into the slack before `aligned`, the taken piece and the
   * slack after it: once the node has left the free set `all` (leaving
   * `rest`), the two slack pieces can be returned one after the other.
   */
  lemma TakeSplit(all: set<int>, rest: set<int>, node: Range, aligned: int, wanted: int)
    requires Span(node) <= all && rest == all - Span(node)
    requires node.addr % 4096 == 0 && node.length % 4096 == 0 && NoWrap(node)
    requires node.addr <= aligned && 0 <= wanted && aligned + wanted <= node.addr + node.length
    requires aligned % 4096 == 0 && wanted % 4096 == 0
    ensures var before := Range(node.addr, aligned - node.addr);
      var taken := Range(aligned, wanted);
      var after := Range(aligned + wanted, node.addr + node.length - (aligned + wanted));
      && NoWrap(before) && before.addr % 4096 == 0 && before.length % 4096 == 0
      && NoWrap(after) && after.addr % 4096 == 0 && after.length % 4096 == 0
      && (before.length == 0 ==> Span(before) == {})
      && (after.length == 0 ==> Span(after) == {})
      && Span(before) !! rest && Span(after) !! rest + Span(before)
      && Span(taken) <= all
      && rest + Span(before) + Span(after) == all - Span(taken)
  {
    SpanSplit(node.addr, aligned, aligned + wanted, node.addr + node.length);
    SliceSets(all, rest, Span(node),
      Span(Range(node.addr, aligned - node.addr)), Span(Range(aligned, wanted)),
      Span(Range(aligned + wanted, node.addr + node.length - (aligned + wanted))));
  }

  lemma SliceSets(all: set<int>, rest: set<int>, s: set<int>, b: set<int>, t: set<int>, a: set<int>)
    requires s <= all && rest == all - s && s == b + t + a
    requires b !! t && b !! a && t !! a
    ensures b !! rest && a !! rest + b && t <= all
    ensures rest + b + a == all - t
  {
  }

  /** Distinct free ranges start at distinct addresses. */
  lemma StartsApart(nodes: seq<Range>, i: nat, r: Range)
    requires Pages(nodes) && i < |nodes| && r.length > 0 && Span(r) !! Free(nodes)
    ensures nodes[i].addr != r.addr
  {
    FreeMember(nodes, nodes[i].addr);
    assert Contains(nodes[i], nodes[i].addr);
    assert r.addr in Span(r);
  }

  lemma FreeInsert(nodes: seq<Range>, i: nat, r: Range)
    requires i <= |nodes|
    ensures Free(nodes[..i] + [r] + nodes[i..]) == Free(nodes) + Span(r)
  {
    FreeSplice(nodes, i, i, [r]);
    assert nodes[i..i] == [];
    FreeOne(r);
  }

  /** A free range placed between two nodes by its start lies wholly between them. */
  lemma InsertGaps(nodes: seq<Range>, i: nat, r: Range)
    requires Pages(nodes) && i <= |nodes| && r.length > 0 && Span(r) !! Free(nodes)
    requires i > 0 ==> nodes[i - 1].addr < r.addr
    requires i < |nodes| ==> r.addr < nodes[i].addr
    ensures i > 0 ==> nodes[i - 1].addr + nodes[i - 1].length <= r.addr
    ensures i < |nodes| ==> r.addr + r.length <= nodes[i].addr
  {
    assert r.addr in Span(r);
    FreeMember(nodes, r.addr);
    if i < |nodes| {
      FreeMember(nodes, nodes[i].addr);
      assert Contains(nodes[i], nodes[i].addr);
    }
  }

  /** Inserting between its neighbours keeps the list page-aligned and sorted. */
  lemma InsertSorted(nodes: seq<Range>, i: nat, r: Range)
    requires Pages(nodes) && Sorted(nodes) && i <= |nodes|
    requires r.length > 0 && NoWrap(r) && r.addr % 4096 == 0 && r.length % 4096 == 0
    requires i > 0 ==> nodes[i - 1].addr + nodes[i - 1].length <= r.addr
    requires i < |nodes| ==> r.addr + r.length <= nodes[i].addr
    ensures Pages(nodes[..i] + [r] + nodes[i..]) && Sorted(nodes[..i] + [r] + nodes[i..])
  {
    var n := nodes[..i] + [r] + nodes[i..];
    forall k | 0 <= k < |n|
      ensures n[k] == if k < i then nodes[k] else if k == i then r else nodes[k - 1]
    {
    }
    forall a, b | 0 <= a < b < |n|
      ensures n[a].addr + n[a].length <= n[b].addr
    {
      InsertPair(nodes, i, r, a, b);
    }
  }

  lemma InsertPair(nodes: seq<Range>, i: nat, r: Range, a: nat, b: nat)
    requires Sorted(nodes) && i <= |nodes| && r.length > 0
    requires i > 0 ==> nodes[i - 1].addr + nodes[i - 1].length <= r.addr
    requires i < |nodes| ==> r.addr + r.length <= nodes[i].addr
    requires a < b < |nodes| + 1
    ensures var n := nodes[..i] + [r] + nodes[i..];
      n[a].addr + n[a].length <= n[b].addr
  {
    var n := nodes[..i] + [r] + nodes[i..];
    assert n[a] == if a < i then nodes[a] else if a == i then r else nodes[a - 1];
    assert n[b] == if b < i then nodes[b] else if b == i then r else nodes[b - 1];
    if a < i && b > i {
      assert nodes[a].addr + nodes[a].length <= nodes[i - 1].addr + nodes[i - 1].length;
    }
    if a == i && b > i + 1 {
      assert nodes[i].addr <= nodes[b - 1].addr;
    }
  }

  /** After inserting at `i`, only the two seams around the new node may touch. */
  lemma InsertSeparated(nodes: seq<Range>, i: nat, r: Range)
    requires SeparatedBut(nodes, -1, -1) && i <= |nodes|
    ensures SeparatedBut(nodes[..i] + [r] + nodes[i..], i as int - 1, i)
  {
    var n := nodes[..i] + [r] + nodes[i..];
    forall k | 0 <= k < |n|
      ensures n[k] == if k < i then nodes[k] else if k == i then r else nodes[k - 1]
    {
    }
  }

  /** Merging node `c` with node `c + 1` keeps the list sorted and separates the seam at `c`. */
  lemma MergeKeeps(nodes: seq<Range>, c: nat, other: int)
    requires c + 1 < |nodes| && Pages(nodes) && Sorted(nodes) && SeparatedBut(nodes, c, other) && other < c
    requires nodes[c].addr + nodes[c].length == nodes[c + 1].addr
    ensures var n := nodes[..c] + [Range(nodes[c].addr, nodes[c].length + nodes[c + 1].length)] + nodes[c + 2..];
      Pages(n) && Sorted(n) && SeparatedBut(n, other, -1)
  {
    var m := Range(nodes[c].addr, nodes[c].length + nodes[c + 1].length);
    var n := nodes[..c] + [m] + nodes[c + 2..];
    forall k | 0 <= k < |n|
      ensures n[k] == if k < c then nodes[k] else if k == c then m else nodes[k + 1]
    {
    }
    assert Pages(n) && Sorted(n) by {
      MergeSorted(nodes, c);
    }
  }

  lemma MergeSorted(nodes: seq<Range>, c: nat)
    requires c + 1 < |nodes| && Pages(nodes) && Sorted(nodes)
    requires nodes[c].addr + nodes[c].length == nodes[c + 1].addr
    ensures var n := nodes[..c] + [Range(nodes[c].addr, nodes[c].length + nodes[c + 1].length)] + nodes[c + 2..];
      Pages(n) && Sorted(n)
  {
    var m := Range(nodes[c].addr, nodes[c].length + nodes[c + 1].length);
    var n := nodes[..c] + [m] + nodes[c + 2..];
    forall k | 0 <= k < |n|
      ensures n[k] == if k < c then nodes[k] else if k == c then m else nodes[k + 1]
    {
    }
  }

  /** Merging two touching nodes leaves the free set as it was. */
  lemma MergeFree(nodes: seq<Range>, c: nat)
    requires c + 1 < |nodes| && NoWrap(nodes[c + 1]) && nodes[c].addr + nodes[c].length == nodes[c + 1].addr
    ensures Free(nodes[..c] + [Range(nodes[c].addr, nodes[c].length + nodes[c + 1].length)] + nodes[c + 2..]) == Free(nodes)
  {
    var cur, next := nodes[c], nodes[c + 1];
    var m := Range(cur.addr, cur.length + next.length);
    FreeSplice(nodes, c, c + 2, [m]);
    assert nodes[c..c + 2] == [cur, next];
    FreeOne(m);
    PairFree(cur, next);
  }

  lemma PairFree(cur: Range, next: Range)
    requires NoWrap(next) && cur.addr + cur.length == next.addr
    ensures Free([cur, next]) == Span(Range(cur.addr, cur.length + next.length))
  {
    assert [cur, next] == [cur] + [next];
    FreeAppend([cur], next);
    FreeOne(cur);
    SpanSplit(cur.addr, next.addr, next.addr + next.length, next.addr + next.length);
  }

  /** The free set is empty exactly when the list is. */
  lemma FreeEmpty(nodes: seq<Range>)
    requires Pages(nodes)
    ensures Free(nodes) == {} <==> nodes == []
  {
    if nodes != [] {
      FreeMember(nodes, nodes[0].addr);
      assert Contains(nodes[0], nodes[0].addr);
    }
  }

  /**
   * The first node of a merged list starts at the lowest free address and
   * runs up to the first address that is not free.
   */
  lemma FirstNode(nodes: seq<Range>)
    requires Coalesced(nodes) && nodes != []
    ensures forall x :: x in Free(nodes) ==> nodes[0].addr <= x
    ensures forall x :: nodes[0].addr <= x < nodes[0].addr + nodes[0].length ==> x in Free(nodes)
    ensures nodes[0].addr + nodes[0].length !in Free(nodes)
    ensures Coalesced(nodes[1..]) && Free(nodes[1..]) == Free(nodes) - Span(nodes[0])
  {
    FirstLowest(nodes);
    FirstCovered(nodes);
    FirstEnd(nodes);
    DropFirst(nodes);
  }

  lemma DropFirst(nodes: seq<Range>)
    requires Coalesced(nodes) && nodes != []
    ensures Coalesced(nodes[1..]) && Free(nodes[1..]) == Free(nodes) - Span(nodes[0])
  {
    SortedApart(nodes, 0);
    assert nodes[..0] == [];
    FreeFirst(nodes);
  }

  lemma FreeFirst(nodes: seq<Range>)
    requires nodes != [] && Span(nodes[0]) !! Free(nodes[1..])
    ensures Free(nodes[1..]) == Free(nodes) - Span(nodes[0])
  {
    assert nodes == [nodes[0]] + nodes[1..];
    FreeConcat([nodes[0]], nodes[1..]);
    FreeOne(nodes[0]);
  }

  lemma FirstLowest(nodes: seq<Range>)
    requires Pages(nodes) && Sorted(nodes) && nodes != []
    ensures forall x :: x in Free(nodes) ==> nodes[0].addr <= x
  {
    forall x | x in Free(nodes)
      ensures nodes[0].addr <= x
    {
      FreeMember(nodes, x);
      var i :| 0 <= i < |nodes| && Contains(nodes[i], x);
      if i > 0 {
        assert nodes[0].addr + nodes[0].length <= nodes[i].addr;
      }
    }
  }

  lemma FirstCovered(nodes: seq<Range>)
    requires nodes != []
    ensures forall x :: nodes[0].addr <= x < nodes[0].addr + nodes[0].length ==> x in Free(nodes)
  {
    forall x | nodes[0].addr <= x < nodes[0].addr + nodes[0].length
      ensures x in Free(nodes)
    {
      FreeMember(nodes, x);
      assert Contains(nodes[0], x);
    }
  }

  lemma FirstEnd(nodes: seq<Range>)
    requires Coalesced(nodes) && nodes != []
    ensures nodes[0].addr + nodes[0].length !in Free(nodes)
  {
    var e := nodes[0].addr + nodes[0].length;
    forall i | 0 <= i < |nodes|
      ensures !Contains(nodes[i], e)
    {
      if i > 0 {
        GapAfterFirst(nodes, i);
      }
    }
    FreeMember(nodes, e);
  }

  /** In a merged list every later node starts strictly after the first one ends. */
  lemma GapAfterFirst(nodes: seq<Range>, i: nat)
    requires Coalesced(nodes) && 0 < i < |nodes|
    ensures nodes[0].addr + nodes[0].length < nodes[i].addr
  {
    assert nodes[0].addr + nodes[0].length != nodes[1].addr;
    if i > 1 {
      assert nodes[1].addr + nodes[1].length <= nodes[i].addr;
    }
  }

  /**
   * A merged list is determined by its free set: two merged lists that
   * free the same addresses are the same list. So whatever order ranges
   * are taken and returned in, the list depends only on what is free.
   */
  lemma {:induction false} Canonical(a: seq<Range>, b: seq<Range>)
    requires Coalesced(a) && Coalesced(b) && Free(a) == Free(b)
    ensures a == b
    decreases |a|
  {
    FreeEmpty(a);
    FreeEmpty(b);
    if a != [] && b != [] {
      SameFirst(a, b);
      DropFirst(a);
      DropFirst(b);
      Canonical(a[1..], b[1..]);
      SameHeadTail(a, b);
    }
  }

  lemma SameHeadTail(a: seq<Range>, b: seq<Range>)
    requires a != [] && b != [] && a[0] == b[0] && a[1..] == b[1..]
    ensures a == b
  {
    assert a == [a[0]] + a[1..] && b == [b[0]] + b[1..];
  }

  /** Two non-empty merged lists with the same free set start with the same node. */
  lemma SameFirst(a: seq<Range>, b: seq<Range>)
    requires Coalesced(a) && Coalesced(b) && Free(a) == Free(b) && a != [] && b != []
    ensures a[0] == b[0]
  {
    FirstNode(a);
    FirstNode(b);
    assert a[0].addr in Free(a) && b[0].addr in Free(b);
    assert a[0].addr == b[0].addr;
    assert !(a[0].addr <= b[0].addr + b[0].length < a[0].addr + a[0].length);
    assert !(b[0].addr <= a[0].addr + a[0].length < b[0].addr + b[0].length);
  }

  /**
   * Returning what was taken restores the list: if `b` is `a` after a
   * `take_range` of `taken` and `c` is `b` after `return_range(taken)`,
   * then `c` is `a` again.
   */
  lemma TakeReturn(a: seq<Range>, b: seq<Range>, c: seq<Range>, taken: set<int>)
    requires Coalesced(a) && Coalesced(c)
    requires taken <= Free(a) && Free(b) == Free(a) - taken && Free(c) == Free(b) + taken
    ensures c == a
  {
    Canonical(a, c);
  }

  lemma FreeCardStep(nodes: seq<Range>, i: nat)
    requires Pages(nodes) && Sorted(nodes) && i < |nodes|
    ensures |Free(nodes[..i + 1])| == |Free(nodes[..i])| + nodes[i].length
  {
    assert nodes[..i + 1] == nodes[..i] + [nodes[i]];
    FreeAppend(nodes[..i], nodes[i]);
    SortedApart(nodes[..i + 1], i);
    assert nodes[..i + 1][..i] == nodes[..i];
    SpanCard(nodes[i]);
  }

  /** A range of length `n` covers exactly `n` addresses. */
  lemma {:induction false} SpanCard(r: Range)
    ensures |Span(r)| == r.length
    decreases r.length
  {
    if r.length > 0 {
      var r' := Range(r.addr, r.length - 1);
      SpanCard(r');
      var last := r.addr + r.length - 1;
      forall x
        ensures x in Span(r) <==> x in Span(r') || x == last
      {
      }
      assert Span(r) == Span(r') + {last};
      assert last !in Span(r');
    } else {
      assert Span(r) == {};
    }
  }

  /** The free space fits in 64 bits. */
  lemma FreeBound(nodes: seq<Range>)
    requires Pages(nodes)
    ensures |Free(nodes)| < U64_MOD
  {
    var all := Span(Range(0, U64_MOD - 1));
    forall x | x in Free(nodes)
      ensures x in all
    {
      FreeMember(nodes, x);
    }
    SpanCard(Range(0, U64_MOD - 1));
    SubsetCard(Free(nodes), all);
  }

  lemma SubsetCard(a: set<int>, b: set<int>)
    requires a <= b
    ensures |a| <= |b|
  {
    assert b == a + (b - a);
  }
}
