/**
 * Processes and the round-robin scheduler (`kernel/scheduler.cpp`, and
 * `create_process` from `kernel/cpu.cpp`).
 *
 * Pointers between processes are object references. The doubly linked
 * wait queue (`wait_queue_start`, `queue_next`, ..., `wait_queue_end`) is
 * the sequence `queue`, head first, and the sibling list that starts at a
 * process's `children` pointer is the sequence `children`, head first.
 * `unlink_proc_queue` and `unlink_proc_siblings` take one process out of
 * such a list, which is `Without` on the sequence.
 *
 * Memory (stacks, the address space, loaded images), register state and the
 * context switch itself are not part of this model: a process keeps only
 * the bookkeeping fields the scheduler reads and writes.
 */
module Scheduling {
  import opened Types
  import opened Bits
  import opened CStrings
  import Vectors

  /** Timer ticks a process runs before it is switched out. */
  const TICKS_PER_SLICE: u64 := 25
  /** `exec` flags: bit 0 makes the parent wait, bit 1 lets the child outlive it. */
  const EXEC_IS_BLOCKING_BIT: nat := 0
  const EXEC_CAN_BE_ORPHANED_BIT: nat := 1
  const SLASH: u8 := 0x2F
  /** `sizeof(char *)` */
  const PTR_SIZE: nat := 8

  /** `Process::State` */
  datatype State = NotYetStarted | Running | Terminated

  /** Where `resume` transfers control: a first start or a resume, of a kernel or a user process. */
  datatype Dispatch = KernelStart | UserStart | KernelResume | UserResume | Unreachable

  /** How `exit` ends: an assertion failed, the process terminated, or it is killing a child and never returns. */
  datatype ExitOutcome = Halted | Exited | KillsChild(child: Process)

  /** `s` with the first occurrence of `x` taken out; unchanged when `x` is absent. */
  function Without<T(==)>(s: seq<T>, x: T): (r: seq<T>)
    ensures x !in s ==> r == s
    ensures x in s ==> |r| == |s| - 1
  {
    match Vectors.FirstIndex(s, x)
    case None => s
    case Some(i) =>
      assert s == s[..i] + [s[i]] + s[i + 1..];
      s[..i] + s[i + 1..]
  }

  /** `Without` takes out one copy of `x` and keeps every other element. */
  lemma WithoutMultiset<T>(s: seq<T>, x: T)
    ensures multiset(Without(s, x)) == multiset(s) - multiset{x}
    ensures forall y :: y in Without(s, x) ==> y in s
  {
    match Vectors.FirstIndex(s, x)
    case None =>
      assert multiset(s)[x] == 0;
    case Some(i) =>
      var a, b := s[..i], s[i + 1..];
      assert s == a + [x] + b;
      assert Without(s, x) == a + b;
      assert multiset(s) == multiset(a) + multiset{x} + multiset(b);
  }

  /** In a list without repeats, `Without` removes exactly `x` and keeps the order of the rest. */
  lemma WithoutDistinct<T>(s: seq<T>, x: T)
    requires forall i, j :: 0 <= i < j < |s| ==> s[i] != s[j]
    ensures x !in Without(s, x)
    ensures forall y :: y in s && y != x ==> y in Without(s, x)
    ensures forall i, j :: 0 <= i < j < |Without(s, x)| ==> Without(s, x)[i] != Without(s, x)[j]
  {
    match Vectors.FirstIndex(s, x)
    case None =>
    case Some(k) =>
      var r := s[..k] + s[k + 1..];
      assert Without(s, x) == r;
      RemovedAt(s, k, r);
      forall i | 0 <= i < |r|
        ensures r[i] != x
      {
        assert r[i] == s[if i < k then i else i + 1];
      }
      forall y | y in s && y != x
        ensures y in r
      {
        var m :| 0 <= m < |s| && s[m] == y;
        assert y == r[if m < k then m else m - 1];
      }
      forall i, j | 0 <= i < j < |r|
        ensures r[i] != r[j]
      {
        assert r[i] == s[if i < k then i else i + 1];
        assert r[j] == s[if j < k then j else j + 1];
      }
  }

  /** Element `i` of `s` with element `k` cut out. */
  lemma RemovedAt<T>(s: seq<T>, k: nat, r: seq<T>)
    requires k < |s| && r == s[..k] + s[k + 1..]
    ensures |r| == |s| - 1
    ensures forall i :: 0 <= i < k ==> r[i] == s[i]
    ensures forall i :: k <= i < |r| ==> r[i] == s[i + 1]
  {
  }

  /** `s` last to first. */
  function Reversed<T>(s: seq<T>): (r: seq<T>)
    ensures |r| == |s|
  {
    if s == [] then [] else [s[|s| - 1]] + Reversed(s[..|s| - 1])
  }

  /** Element `i` of the reversal is element `|s| - 1 - i` of `s`. */
  lemma {:induction false} ReversedIndex<T>(s: seq<T>)
    ensures forall i :: 0 <= i < |s| ==> Reversed(s)[i] == s[|s| - 1 - i]
  {
    if s != [] {
      ReversedIndex(s[..|s| - 1]);
    }
  }

  lemma ReversedSnoc<T>(s: seq<T>, x: T)
    ensures Reversed(s + [x]) == [x] + Reversed(s)
  {
    assert (s + [x])[..|s|] == s;
  }

  /** The pwd `set_pwd` stores for the path `src`: a copy that ends in a slash, one being added when missing. */
  function PwdFor(src: seq<u8>): (p: seq<u8>)
    requires |src| > 0 && src[0] == SLASH
    ensures |p| == |src| + (if src[|src| - 1] == SLASH then 0 else 1)
    ensures p[..|src|] == src && p[0] == SLASH && p[|p| - 1] == SLASH
  {
    if src[|src| - 1] == SLASH then src else src + [SLASH]
  }

  /** Storing a stored pwd again changes nothing. */
  lemma PwdForIdempotent(src: seq<u8>)
    requires |src| > 0 && src[0] == SLASH
    ensures PwdFor(PwdFor(src)) == PwdFor(src)
  {
  }

  /** A path usable as a pwd: absolute, slash-terminated, with no NUL inside. */
  predicate IsPwd(p: seq<u8>)
  {
    |p| > 0 && p[0] == SLASH && p[|p| - 1] == SLASH && 0 !in p
  }

  /** `resume`: start or resume, by kind; a terminated process is unreachable. */
  function ResumeTarget(state: State, isKernel: bool): (d: Dispatch)
    ensures d == Unreachable <==> state == Terminated
    ensures (d == KernelStart || d == KernelResume) <==> isKernel && state != Terminated
    ensures (d == KernelStart || d == UserStart) <==> state == NotYetStarted
  {
    match state
    case NotYetStarted => if isKernel then KernelStart else UserStart
    case Running => if isKernel then KernelResume else UserResume
    case Terminated => Unreachable
  }

  /** `m_ticks_left` after `n` ticks from `t`, decremented in 64-bit unsigned arithmetic. */
  function TicksAfter(t: u64, n: nat): u64
  {
    if n == 0 then t else Sub64(TicksAfter(t, n - 1), 1)
  }

  /** Counting down from `t > 0`, the ticks left reach 0 at tick `t` and not before. */
  lemma {:induction false} TicksCountDown(t: u64, n: nat)
    requires n <= t
    ensures TicksAfter(t, n) == t - n
  {
    if n > 0 {
      TicksCountDown(t, n - 1);
    }
  }

  /** A full slice: `tick` first reports the slice over on its 25th call. */
  lemma SliceLength(n: nat)
    requires 0 < n <= TICKS_PER_SLICE as nat
    ensures TicksAfter(TICKS_PER_SLICE, n) == 0 <==> n == TICKS_PER_SLICE as nat
  {
    TicksCountDown(TICKS_PER_SLICE, n);
  }

  /** A process never scheduled has 0 ticks left; one tick wraps the count round to 2^64 - 1. */
  lemma TickWrapsAtZero()
    ensures TicksAfter(0, 1) == (U64_MOD - 1) as u64
  {
  }

  /** The bytes `copy_argv_to_stack` copies for the strings `ss`: each with its NUL. */
  function StrBytes(ss: seq<seq<u8>>): nat
  {
    if ss == [] then 0 else StrBytes(ss[..|ss| - 1]) + |ss[|ss| - 1]| + 1
  }

  /** Where each of the strings `ss` lands when they are copied back to back from `start`. */
  function StrAddrs(start: int, ss: seq<seq<u8>>): (r: seq<int>)
    ensures |r| == |ss|
    ensures forall k :: 0 <= k < |ss| ==> r[k] == start + StrBytes(ss[..k])
  {
    if ss == [] then []
    else
      var r := StrAddrs(start, ss[..|ss| - 1]) + [start + StrBytes(ss[..|ss| - 1])];
      assert forall k :: 0 <= k < |ss| - 1 ==> ss[..|ss| - 1][..k] == ss[..k];
      r
  }

  /** Each string's slot ends where the next one starts, and the last one ends at `start + StrBytes(ss)`. */
  lemma StrAddrsAdjacent(start: int, ss: seq<seq<u8>>)
    ensures forall k :: 0 <= k < |ss| - 1 ==> StrAddrs(start, ss)[k] + |ss[k]| + 1 == StrAddrs(start, ss)[k + 1]
    ensures ss != [] ==> StrAddrs(start, ss)[|ss| - 1] + |ss[|ss| - 1]| + 1 == start + StrBytes(ss)
  {
    forall k | 0 <= k < |ss| - 1
      ensures StrAddrs(start, ss)[k] + |ss[k]| + 1 == StrAddrs(start, ss)[k + 1]
    {
      assert ss[..k + 1][..k] == ss[..k];
    }
    if ss != [] {
      assert ss[..|ss|] == ss;
    }
  }

  /**
   * The layout `copy_argv_to_stack` builds under `top`: `argc + 1` pointer
   * slots at `base`, the last one null, then the strings back to back.
   */
  datatype ArgvLayout = ArgvLayout(argc: nat, argvLen: nat, argvOffset: int, base: int, slots: seq<int>)

  lemma StrBytesStep(ss: seq<seq<u8>>, i: nat)
    requires i < |ss|
    ensures StrBytes(ss[..i + 1]) == StrBytes(ss[..i]) + |ss[i]| + 1
  {
    assert ss[..i + 1][..i] == ss[..i];
  }

  /** The counting loops of `copy_argv_to_stack`: the bytes of the name and the arguments, each with its NUL. */
  method ArgvBufSize(name: seq<u8>, argv: seq<seq<u8>>) returns (size: nat)
    ensures size == StrBytes([name] + argv)
  {
    var all := [name] + argv;
    size := |name| + 1;
    var i := 0;
    assert all[..1] == [name];
    while i < |argv|
      invariant i <= |argv| && size == StrBytes(all[..i + 1])
    {
      StrBytesStep(all, i + 1);
      size := size + |argv[i]| + 1;
      i := i + 1;
    }
    assert all[..|argv| + 1] == all;
  }

  /**
   * `copy_argv_to_stack` for a process named `name` with the arguments
   * `argv` (the strings before the null entry), copied below the stack top
   * `top`: the array of pointers at `base` holds the address of the name, then
   * of each argument, then null, and the closing check that the copy ended
   * exactly at `top` always holds.
   */
  method CopyArgvLayout(top: int, name: seq<u8>, argv: seq<seq<u8>>) returns (l: ArgvLayout, end: int)
    ensures l.argc == |argv| + 1
    ensures l.argvLen == StrBytes([name] + argv) + (l.argc + 1) * PTR_SIZE && l.argvOffset == l.argvLen - 1
    ensures l.base == top - l.argvLen
    ensures l.slots == StrAddrs(l.base + (l.argc + 1) * PTR_SIZE, [name] + argv) + [0]
    ensures end == top
  {
    var all := [name] + argv;
    var argc := |argv| + 1;
    var bufSize := ArgvBufSize(name, argv);
    var argvLen := bufSize + (argc + 1) * PTR_SIZE;
    var base := top - argvLen;
    var start := base + (argc + 1) * PTR_SIZE;
    var ptr := start;
    var slots: seq<int> := [];
    var k := 0;
    while k < |all|
      invariant k <= |all| && |slots| == k
      invariant slots == StrAddrs(start, all[..k]) && ptr == start + StrBytes(all[..k])
    {
      assert all[..k + 1][..k] == all[..k];
      StrBytesStep(all, k);
      slots := slots + [ptr];
      ptr := ptr + |all[k]| + 1;
      k := k + 1;
    }
    assert all[..k] == all;
    l := ArgvLayout(argc, argvLen, argvLen - 1, base, slots + [0]);
    end := ptr;
  }

  /** The index of the first child that cannot be orphaned, or the number of children. */
  function FirstKill(cs: seq<Process>): (k: nat)
    ensures k <= |cs| && forall j :: 0 <= j < k ==> cs[j].canBeOrphaned
    ensures k < |cs| ==> !cs[k].canBeOrphaned
  {
    if cs == [] || !cs[0].canBeOrphaned then 0 else 1 + FirstKill(cs[1..])
  }

  /** The children that can be orphaned, in order. */
  function Orphanable(cs: seq<Process>): (r: seq<Process>)
  {
    if cs == [] then []
    else Orphanable(cs[..|cs| - 1]) + (if cs[|cs| - 1].canBeOrphaned then [cs[|cs| - 1]] else [])
  }

  /** The children that cannot, in order. */
  function NotOrphanable(cs: seq<Process>): (r: seq<Process>)
  {
    if cs == [] then []
    else NotOrphanable(cs[..|cs| - 1]) + (if cs[|cs| - 1].canBeOrphaned then [] else [cs[|cs| - 1]])
  }

  /** Together the two lists hold each child as often as `cs` does. */
  lemma {:induction false} OrphanablePartition(cs: seq<Process>)
    ensures multiset(Orphanable(cs)) + multiset(NotOrphanable(cs)) == multiset(cs)
  {
    if cs != [] {
      var init, last := cs[..|cs| - 1], cs[|cs| - 1];
      OrphanablePartition(init);
      assert cs == init + [last];
    }
  }

  /** A child is in `Orphanable(cs)` exactly when it is in `cs` and may be orphaned. */
  lemma {:induction false} OrphanableMembers(cs: seq<Process>, c: Process)
    ensures c in Orphanable(cs) <==> c in cs && c.canBeOrphaned
  {
    if cs != [] {
      var init, last := cs[..|cs| - 1], cs[|cs| - 1];
      OrphanableMembers(init, c);
      assert cs == init + [last];
      assert c in cs <==> c in init || c == last;
    }
  }

  /** A child is in `NotOrphanable(cs)` exactly when it is in `cs` and may not be orphaned. */
  lemma {:induction false} NotOrphanableMembers(cs: seq<Process>, c: Process)
    ensures c in NotOrphanable(cs) <==> c in cs && !c.canBeOrphaned
  {
    if cs != [] {
      var init, last := cs[..|cs| - 1], cs[|cs| - 1];
      NotOrphanableMembers(init, c);
      assert cs == init + [last];
      assert c in cs <==> c in init || c == last;
    }
  }

  /** One more child: `Orphanable` and `NotOrphanable` each take it or leave it. */
  lemma OrphanableStep(cs: seq<Process>, i: nat)
    requires i < |cs|
    ensures Orphanable(cs[..i + 1]) == Orphanable(cs[..i]) + (if cs[i].canBeOrphaned then [cs[i]] else [])
    ensures NotOrphanable(cs[..i + 1]) == NotOrphanable(cs[..i]) + (if cs[i].canBeOrphaned then [] else [cs[i]])
  {
    assert cs[..i + 1][..i] == cs[..i];
  }

  lemma {:induction false} OrphanableAppend(a: seq<Process>, b: seq<Process>)
    ensures Orphanable(a + b) == Orphanable(a) + Orphanable(b)
  {
    if b == [] {
      assert a + b == a;
    } else {
      OrphanableAppend(a, b[..|b| - 1]);
      assert (a + b)[..|a + b| - 1] == a + b[..|b| - 1];
    }
  }

  lemma {:induction false} OrphanableAll(cs: seq<Process>)
    requires forall j :: 0 <= j < |cs| ==> cs[j].canBeOrphaned
    ensures Orphanable(cs) == cs
  {
    if cs != [] {
      OrphanableAll(cs[..|cs| - 1]);
    }
  }

  lemma OrphanableSkip(x: Process, tail: seq<Process>)
    requires !x.canBeOrphaned
    ensures Orphanable([x] + tail) == Orphanable(tail)
  {
    OrphanableAppend([x], tail);
    assert [x][..0] == [];
  }

  lemma {:induction false} OrphanableNone(cs: seq<Process>)
    requires forall j :: 0 <= j < |cs| ==> !cs[j].canBeOrphaned
    ensures Orphanable(cs) == []
  {
    if cs != [] {
      OrphanableNone(cs[..|cs| - 1]);
    }
  }

  /** Splitting the children at a non-orphanable one splits the orphanable ones there. */
  lemma OrphanableSplit(cs: seq<Process>, k: nat)
    requires k < |cs| && !cs[k].canBeOrphaned
    ensures Orphanable(cs) == Orphanable(cs[..k]) + Orphanable(cs[k + 1..])
  {
    var head, tail := cs[..k], cs[k + 1..];
    assert cs == head + ([cs[k]] + tail);
    OrphanableAppend(head, [cs[k]] + tail);
    OrphanableSkip(cs[k], tail);
  }

  /**
   * `exit` hands a non-orphanable child to `kill_process`, which never
   * returns, so the children `exit` moves to init are those before the
   * first such child. That is every orphanable child exactly when no
   * orphanable child comes after the first non-orphanable one; otherwise the
   * later orphanable children keep the exiting process as their parent.
   */
  lemma ReparentAgrees(cs: seq<Process>)
    ensures cs[..FirstKill(cs)] == Orphanable(cs) <==>
      forall j :: FirstKill(cs) < j < |cs| ==> !cs[j].canBeOrphaned
  {
    if forall j :: FirstKill(cs) < j < |cs| ==> !cs[j].canBeOrphaned {
      ReparentComplete(cs);
    } else {
      var j :| FirstKill(cs) < j < |cs| && cs[j].canBeOrphaned;
      ReparentIncomplete(cs, j);
    }
  }

  lemma ReparentComplete(cs: seq<Process>)
    requires forall j :: FirstKill(cs) < j < |cs| ==> !cs[j].canBeOrphaned
    ensures cs[..FirstKill(cs)] == Orphanable(cs)
  {
    var k := FirstKill(cs);
    OrphanableAll(cs[..k]);
    if k == |cs| {
      assert cs[..k] == cs;
    } else {
      var tail := cs[k + 1..];
      OrphanableSplit(cs, k);
      forall i | 0 <= i < |tail|
        ensures !tail[i].canBeOrphaned
      {
        assert tail[i] == cs[k + 1 + i];
      }
      OrphanableNone(tail);
    }
  }

  lemma ReparentIncomplete(cs: seq<Process>, j: nat)
    requires FirstKill(cs) < j < |cs| && cs[j].canBeOrphaned
    ensures |Orphanable(cs)| > FirstKill(cs)
  {
    var k := FirstKill(cs);
    var tail := cs[k + 1..];
    OrphanableAll(cs[..k]);
    OrphanableSplit(cs, k);
    assert tail[j - k - 1] == cs[j];
    OrphanableMembers(tail, cs[j]);
  }

  /** An entry of `m_vobjs`: an allocation mapped into the process's space. */
  datatype Allocation = Allocation(vobj: nat, addr: u64)

  /**
   * `Process`: the bookkeeping part of a process. Its pid, kind and
   * orphan policy are fixed when it is made.
   */
  class Process {
    const pid: nat
    const canBeOrphaned: bool
    const isKernel: bool
    /** `m_blockers`: the pids of the processes this one waits for. */
    var blockers: seq<nat>
    var parent: Process?
    /** The sibling list that starts at `children`. */
    var children: seq<Process>
    var state: State
    /** `m_ticks_left` */
    var ticksLeft: u64
    /** `m_pwd`; its length is `pwd_len`. */
    var pwd: seq<u8>
    /** `vobjs`: the memory the process allocated in its space. */
    var vobjs: seq<Allocation>

    /**
     * `Process(...)`: a fresh process with the given pid that has not
     * started, waits for nobody, has no children or allocations, and takes
     * `pwd` as its working directory.
     */
    constructor (pid: nat, canBeOrphaned: bool, isKernel: bool, pwd: seq<u8>)
      requires IsPwd(pwd)
      ensures this.pid == pid && this.canBeOrphaned == canBeOrphaned && this.isKernel == isKernel
      ensures blockers == [] && parent == null && children == [] && state == NotYetStarted
      ensures ticksLeft == 0 && this.pwd == pwd && vobjs == []
    {
      this.pid, this.canBeOrphaned, this.isKernel := pid, canBeOrphaned, isKernel;
      blockers, parent, children, state := [], null, [], NotYetStarted;
      ticksLeft, this.pwd, vobjs := 0, pwd, [];
    }

    /** `is_blocked`: waiting for at least one process. */
    predicate IsBlocked()
      reads this
    {
      blockers != []
    }

    /** `add_blocker_process`: one more process to wait for. */
    method AddBlockerProcess(blocker: nat)
      modifies this
      ensures blockers == old(blockers) + [blocker] && IsBlocked()
      ensures parent == old(parent) && children == old(children) && state == old(state)
      ensures ticksLeft == old(ticksLeft) && pwd == old(pwd) && vobjs == old(vobjs)
    {
      blockers := blockers + [blocker];
    }

    /**
     * `unblock_process`: the first blocker with the given pid, if any, is
     * dropped with `unstable_remove`; one entry goes per call.
     */
    method UnblockProcess(blocker: nat)
      requires |blockers| < U32_MOD
      modifies this
      ensures multiset(blockers) == multiset(old(blockers)) - multiset{blocker}
      ensures blocker !in old(blockers) ==> blockers == old(blockers)
      ensures blocker in old(blockers) ==>
        blockers == Vectors.UnstableRemoved(old(blockers), Vectors.FirstIndex(old(blockers), blocker).value)
      ensures parent == old(parent) && children == old(children) && state == old(state)
      ensures ticksLeft == old(ticksLeft) && pwd == old(pwd) && vobjs == old(vobjs)
    {
      var i := 0;
      while i < |blockers|
        invariant i <= |blockers| && blocker !in blockers[..i]
      {
        if blockers[i] == blocker {
          assert Vectors.FirstIndex(blockers, blocker) == Some(i);
          Vectors.UnstableRemovedMultiset(blockers, i);
          blockers := Vectors.UnstableRemoved(blockers, i);
          return;
        }
        assert blockers[..i + 1] == blockers[..i] + [blockers[i]];
        i := i + 1;
      }
      assert blockers[..i] == blockers;
      assert multiset(blockers)[blocker] == 0;
    }

    /**
     * `set_pwd`: `src` holds a C string, which must start with a slash
     * (fatal otherwise, `ok == false`); the stored pwd is a copy ending in a
     * slash.
     */
    method SetPwd(src: seq<u8>) returns (ok: bool)
      requires 0 in src
      modifies this
      ensures ok <==> src[0] == SLASH
      ensures ok ==> pwd == PwdFor(CString(src)) && IsPwd(pwd)
      ensures !ok ==> pwd == old(pwd)
      ensures blockers == old(blockers) && parent == old(parent) && children == old(children)
      ensures state == old(state) && ticksLeft == old(ticksLeft) && vobjs == old(vobjs)
    {
      if src[0] != SLASH {
        return false;
      }
      var srcLen := Strlen(src);
      var s := src[..srcLen];
      assert s == CString(src);
      if s[srcLen - 1] == SLASH {
        pwd := s;
      } else {
        pwd := s + [SLASH];
      }
      ok := true;
    }

    /** `add_child`: `child` goes at the head of the sibling list and gets this process as parent. */
    method AddChild(child: Process)
      modifies this, child
      ensures child.parent == this && children == [child] + old(children)
      ensures child != this ==> child.children == old(child.children)
      ensures blockers == old(blockers) && state == old(state) && vobjs == old(vobjs) && pwd == old(pwd)
      ensures child.blockers == old(child.blockers) && child.state == old(child.state)
      ensures child.pwd == old(child.pwd) && child.ticksLeft == old(child.ticksLeft) && child.vobjs == old(child.vobjs)
      ensures child != this ==> parent == old(parent)
    {
      child.parent := this;
      children := [child] + children;
    }

    /**
     * `remove_child`: `child` must have this process as parent and the list
     * must not be empty (fatal otherwise, `ok == false`); it is unlinked,
     * the head moving on when it was the head.
     */
    method RemoveChild(child: Process) returns (ok: bool)
      modifies this
      ensures ok <==> old(child.parent) == this && old(children) != []
      ensures ok ==> children == Without(old(children), child)
      ensures !ok ==> children == old(children)
      ensures blockers == old(blockers) && parent == old(parent) && state == old(state) && vobjs == old(vobjs)
    {
      if child.parent != this || children == [] {
        return false;
      }
      children := Without(children, child);
      ok := true;
    }

    /**
     * The allocation loop of `exit` as written: a `u32` index starts at
     * `length - 1` and the loop runs while it is `<= 0`. With no allocation
     * the index wraps to 2^32 - 1 and with two or more it starts above 0, so
     * only a process with exactly one allocation gets it freed.
     */
    method FreeVobjsAsWritten()
      requires |vobjs| < U32_MOD
      modifies this
      ensures vobjs == (if |old(vobjs)| == 1 then [] else old(vobjs))
      ensures vobjs == [] <==> |old(vobjs)| <= 1
      ensures blockers == old(blockers) && parent == old(parent) && children == old(children)
      ensures state == old(state) && ticksLeft == old(ticksLeft) && pwd == old(pwd)
    {
      var i: u32 := (|vobjs| - 1) % U32_MOD;
      while i <= 0
        invariant (i == 0 && |vobjs| == 1 && vobjs == old(vobjs)) || (i != 0 && vobjs == (if |old(vobjs)| == 1 then [] else old(vobjs)))
        invariant blockers == old(blockers) && parent == old(parent) && children == old(children)
        invariant state == old(state) && ticksLeft == old(ticksLeft) && pwd == old(pwd)
        decreases if i == 0 then 1 else 0
      {
        vobjs := Vectors.UnstableRemoved(vobjs, i);
        i := (i - 1) % U32_MOD;
      }
    }

    /** The evidently intended loop: every allocation is freed, the last first. */
    method FreeVobjs()
      modifies this
      ensures vobjs == []
      ensures blockers == old(blockers) && parent == old(parent) && children == old(children)
      ensures state == old(state) && ticksLeft == old(ticksLeft) && pwd == old(pwd)
    {
      while vobjs != []
        invariant blockers == old(blockers) && parent == old(parent) && children == old(children)
        invariant state == old(state) && ticksLeft == old(ticksLeft) && pwd == old(pwd)
        decreases |vobjs|
      {
        vobjs := Vectors.UnstableRemoved(vobjs, |vobjs| - 1);
      }
    }

    /** The shape `exit` relies on: a parent other than itself and init, and distinct children that are neither. */
    ghost predicate ExitShape(init: Process)
      reads this
    {
      parent != null && parent != this && init != this &&
      this !in children && init !in children && parent !in children &&
      (forall i, j :: 0 <= i < j < |children| ==> children[i] != children[j]) &&
      |vobjs| < U32_MOD
    }

    /** One step of the reparenting loops: `cs[i]` is added as a child, and only its parent changes. */
    method AdoptAt(cs: seq<Process>, i: nat)
      requires i < |cs| && this != cs[i]
      modifies this, cs[i]
      ensures children == [cs[i]] + old(children)
      ensures forall j :: 0 <= j < |cs| ==> cs[j].parent == if cs[j] == cs[i] then this else old(cs[j].parent)
      ensures blockers == old(blockers) && parent == old(parent) && state == old(state) && vobjs == old(vobjs)
    {
      AddChild(cs[i]);
    }

    /**
     * The reparenting loop of `exit` as written, run with this process as
     * init: the children `cs` are adopted in order, each going to the head of
     * this list, up to the first one that cannot be orphaned, whose index is
     * returned (`|cs|` when there is none); that one goes to `kill_process`,
     * which never returns, so the loop ends there.
     */
    method AdoptUntilKill(cs: seq<Process>) returns (k: nat)
      requires this !in cs && forall i, j :: 0 <= i < j < |cs| ==> cs[i] != cs[j]
      modifies this, cs
      ensures k == FirstKill(cs)
      ensures children == Reversed(cs[..k]) + old(children)
      ensures forall j :: 0 <= j < k ==> cs[j].parent == this
      ensures forall j :: k <= j < |cs| ==> cs[j].parent == old(cs[j].parent)
      ensures blockers == old(blockers) && parent == old(parent) && state == old(state) && vobjs == old(vobjs)
    {
      k := 0;
      while k < |cs| && cs[k].canBeOrphaned
        invariant k <= FirstKill(cs)
        invariant children == Reversed(cs[..k]) + old(children)
        invariant forall j :: 0 <= j < k ==> cs[j].parent == this
        invariant forall j :: k <= j < |cs| ==> cs[j].parent == old(cs[j].parent)
        invariant blockers == old(blockers) && parent == old(parent) && state == old(state) && vobjs == old(vobjs)
      {
        AdoptAt(cs, k);
        assert cs[..k + 1][..k] == cs[..k];
        k := k + 1;
      }
    }

    /**
     * The evidently intended reparenting loop, run with this process as
     * init: every orphanable child of `cs` is adopted, in order; the others
     * are left to be killed.
     */
    method AdoptOrphanable(cs: seq<Process>)
      requires this !in cs
      modifies this, cs
      ensures children == Reversed(Orphanable(cs)) + old(children)
      ensures forall j :: 0 <= j < |cs| && cs[j].canBeOrphaned ==> cs[j].parent == this
      ensures blockers == old(blockers) && parent == old(parent) && state == old(state) && vobjs == old(vobjs)
    {
      var i := 0;
      while i < |cs|
        invariant i <= |cs|
        invariant children == Reversed(Orphanable(cs[..i])) + old(children)
        invariant forall j :: 0 <= j < i && cs[j].canBeOrphaned ==> cs[j].parent == this
        invariant blockers == old(blockers) && parent == old(parent) && state == old(state) && vobjs == old(vobjs)
      {
        ghost var adopted := Orphanable(cs[..i]);
        OrphanableStep(cs, i);
        if cs[i].canBeOrphaned {
          ReversedSnoc(adopted, cs[i]);
          assert Orphanable(cs[..i + 1]) == adopted + [cs[i]];
          AdoptAt(cs, i);
          assert children == [cs[i]] + (Reversed(adopted) + old(children));
          assert [cs[i]] + (Reversed(adopted) + old(children)) == ([cs[i]] + Reversed(adopted)) + old(children);
        } else {
          assert Orphanable(cs[..i + 1]) == adopted;
        }
        i := i + 1;
      }
      assert cs[..i] == cs;
    }

    /**
     * `exit`, its bookkeeping part, as written: the allocation loop of
     * `FreeVobjsAsWritten`; the parent stops waiting for this process and
     * drops it from its children, halting only when it has none (the
     * `ASSERT(children)` of `remove_child`); then init adopts the children as
     * `AdoptUntilKill` does, and only when no child needs killing does the
     * state become `TERMINATED`.
     */
    method Exit(init: Process) returns (outcome: ExitOutcome)
      requires ExitShape(init) && |parent.blockers| < U32_MOD
      modifies this, parent, init, set c | c in children
      ensures vobjs == (if |old(vobjs)| == 1 then [] else old(vobjs))
      ensures outcome == Halted <==> old(parent.children) == []
      ensures outcome != Halted ==>
        var cs, k := old(children), FirstKill(old(children));
        var p := old(parent);
        multiset(p.blockers) == multiset(old(p.blockers)) - multiset{pid} &&
        (p != init ==> p.children == Without(old(p.children), this)) &&
        init.children == Reversed(cs[..k]) + (if p == init then Without(old(init.children), this) else old(init.children)) &&
        (forall j :: 0 <= j < k ==> cs[j].parent == init) &&
        (forall j :: k <= j < |cs| ==> cs[j].parent == old(cs[j].parent)) &&
        (outcome == if k < |cs| then KillsChild(cs[k]) else Exited) &&
        (state == if k < |cs| then old(state) else Terminated)
    {
      FreeVobjsAsWritten();
      var p := parent;
      p.UnblockProcess(pid);
      var removed := p.RemoveChild(this);
      if !removed {
        return Halted;
      }
      var cs := children;
      var k := init.AdoptUntilKill(cs);
      if k < |cs| {
        return KillsChild(cs[k]);
      }
      state := Terminated;
      outcome := Exited;
    }

    /**
     * The evidently intended `exit`: every allocation freed, every orphanable
     * child moved to init, and the non-orphanable ones handed back in order
     * for killing, the process then terminating.
     */
    method ExitIntended(init: Process) returns (ok: bool, kills: seq<Process>)
      requires ExitShape(init) && |parent.blockers| < U32_MOD
      modifies this, parent, init, set c | c in children
      ensures vobjs == []
      ensures ok <==> old(parent.children) != []
      ensures ok ==>
        var cs, p := old(children), old(parent);
        multiset(p.blockers) == multiset(old(p.blockers)) - multiset{pid} &&
        (p != init ==> p.children == Without(old(p.children), this)) &&
        init.children == Reversed(Orphanable(cs)) + (if p == init then Without(old(init.children), this) else old(init.children)) &&
        (forall j :: 0 <= j < |cs| && cs[j].canBeOrphaned ==> cs[j].parent == init) &&
        kills == NotOrphanable(cs) && state == Terminated
    {
      FreeVobjs();
      var p := parent;
      kills := [];
      p.UnblockProcess(pid);
      ok := p.RemoveChild(this);
      if !ok {
        return;
      }
      kills := NotOrphanable(children);
      init.AdoptOrphanable(children);
      state := Terminated;
    }
  }

  /** No process occurs twice in `q`. */
  ghost predicate Distinct(q: seq<Process>)
  {
    forall i, j :: 0 <= i < j < |q| ==> q[i] != q[j]
  }

  /**
   * The process `next_process_to_run` picks from the queue `q`: the first
   * one that is not blocked, looking at every process but the tail; the
   * tail when all of those are blocked, whether or not it is itself.
   */
  function Chosen(q: seq<Process>): (i: nat)
    reads set p | p in q
    requires q != []
    ensures i < |q|
  {
    if |q| == 1 || q[0].blockers == [] then 0 else 1 + Chosen(q[1..])
  }

  /**
   * The pick is the one index `i` such that every process before it is
   * blocked and, unless it is the tail, it is not.
   */
  lemma {:induction false} ChosenIs(q: seq<Process>, i: nat)
    requires i < |q|
    ensures Chosen(q) == i <==>
      (forall k :: 0 <= k < i ==> q[k].blockers != []) && (i < |q| - 1 ==> q[i].blockers == [])
  {
    if |q| > 1 && q[0].blockers != [] {
      if i > 0 {
        ChosenIs(q[1..], i - 1);
        assert forall k :: 1 <= k < i ==> q[k] == q[1..][k - 1];
      }
    }
  }

  /** The pick depends only on which processes are blocked. */
  twostate lemma {:induction false} ChosenUnchanged(q: seq<Process>)
    requires q != [] && forall k :: 0 <= k < |q| ==> old(q[k].blockers) == q[k].blockers
    ensures old(Chosen(q)) == Chosen(q)
  {
    if |q| > 1 {
      assert forall k :: 0 <= k < |q| - 1 ==> q[1..][k] == q[k + 1];
      ChosenUnchanged(q[1..]);
    }
  }

  /** The pick is runnable exactly when some process in the queue is. */
  lemma ChosenRunnable(q: seq<Process>)
    requires q != []
    ensures q[Chosen(q)].blockers == [] <==> exists k :: 0 <= k < |q| && q[k].blockers == []
  {
    ChosenIs(q, Chosen(q));
  }

  /** When every process waits, the tail is picked and run although it is blocked. */
  lemma AllBlockedRunsTail(q: seq<Process>)
    requires q != [] && forall k :: 0 <= k < |q| ==> q[k].blockers != []
    ensures Chosen(q) == |q| - 1 && q[Chosen(q)].blockers != []
  {
    ChosenIs(q, |q| - 1);
  }

  /**
   * `Scheduler`: the wait queue, the running process, and the global
   * `s_block_tick` and `s_next_pid` it works with.
   */
  class Scheduler {
    var queue: seq<Process>
    var current: Process?
    /** `s_block_tick`: while set, timer ticks do not count down. */
    var blockTick: bool
    /** `s_next_pid`: the last pid handed out. */
    var nextPid: nat

    /** An empty queue, nothing running, ticks blocked, no pid handed out yet. */
    constructor ()
      ensures queue == [] && current == null && blockTick && nextPid == 0
    {
      queue, current, blockTick, nextPid := [], null, true, 0;
    }

    ghost predicate Valid()
      reads this
    {
      Distinct(queue)
    }

    /** What the queue would hold with the running process put back at the tail. */
    ghost function Candidates(): seq<Process>
      reads this
    {
      if current == null then queue else queue + [current]
    }

    /**
     * `add_to_queue`: `proc` is unlinked and appended at the tail. With an
     * empty queue the early return skips restoring `s_block_tick`, which
     * stays set. A process already at the head or the tail is not handled:
     * unlinking it leaves the queue's end pointers on it.
     */
    method AddToQueue(proc: Process)
      requires Valid() && (proc in queue ==> proc != queue[0] && proc != queue[|queue| - 1])
      modifies this
      ensures Valid() && queue == Without(old(queue), proc) + [proc]
      ensures blockTick == (old(queue) == [] || old(blockTick))
      ensures current == old(current) && nextPid == old(nextPid)
    {
      var old_block := blockTick;
      blockTick := true;
      WithoutDistinct(queue, proc);
      if queue == [] {
        queue := [proc];
        return;
      }
      queue := Without(queue, proc) + [proc];
      blockTick := old_block;
    }

    /**
     * `remove_from_queue`: `proc` stops being the running process if it
     * was, and is unlinked from the queue if it is in it.
     */
    method RemoveFromQueue(proc: Process)
      requires Valid()
      modifies this
      ensures Valid() && queue == Without(old(queue), proc) && proc !in queue
      ensures current == (if old(current) == proc then null else old(current))
      ensures blockTick == old(blockTick) && nextPid == old(nextPid)
    {
      if proc == current {
        current := null;
      }
      WithoutDistinct(queue, proc);
      queue := Without(queue, proc);
    }

    /** `take_from_start`: the head, unlinked; an empty queue is fatal (`null`). */
    method TakeFromStart() returns (r: Process?)
      requires Valid()
      modifies this
      ensures Valid() && current == old(current) && blockTick == old(blockTick) && nextPid == old(nextPid)
      ensures old(queue) == [] ==> r == null && queue == []
      ensures old(queue) != [] ==> r == old(queue)[0] && queue == old(queue)[1..]
    {
      if queue == [] {
        return null;
      }
      r := queue[0];
      queue := queue[1..];
    }

    /**
     * `next_process_to_run`: walks from the head up to, not including, the
     * tail and stops at the first process that is not blocked; the process
     * it stops on (the tail if none) is removed from the queue and returned.
     * An empty queue is fatal (`null`).
     */
    method NextProcessToRun() returns (r: Process?)
      requires Valid()
      modifies this
      ensures Valid() && blockTick == old(blockTick) && nextPid == old(nextPid)
      ensures old(queue) == [] ==> r == null && queue == [] && current == old(current)
      ensures old(queue) != [] ==>
        r == old(queue)[old(Chosen(queue))] && queue == Without(old(queue), r) &&
        current == (if old(current) == r then null else old(current))
    {
      if queue == [] {
        return null;
      }
      var i := 0;
      while i < |queue| - 1 && queue[i].blockers != []
        invariant i < |queue| && forall k :: 0 <= k < i ==> queue[k].blockers != []
      {
        i := i + 1;
      }
      ChosenIs(queue, i);
      r := queue[i];
      RemoveFromQueue(r);
    }

    /**
     * `schedule`, up to the jump: the running process goes back to the tail,
     * the next one is picked and made current with a fresh slice of 25 ticks,
     * and `resume` starts or resumes it; starting marks it running, and the
     * context switch clears `s_block_tick`. No process at all is fatal.
     */
    method Schedule() returns (d: Dispatch)
      requires Valid() && (current != null ==> current !in queue)
      modifies this, set p | p in Candidates()
      ensures Valid()
      ensures old(Candidates()) == [] ==> d == Unreachable && queue == [] && current == null
      ensures old(Candidates()) != [] ==>
        var r := old(Candidates())[old(Chosen(Candidates()))];
        current == r && queue == Without(old(Candidates()), r) && r.ticksLeft == TICKS_PER_SLICE &&
        d == ResumeTarget(old(r.state), r.isKernel) &&
        r.state == (if old(r.state) == NotYetStarted then Running else old(r.state)) &&
        blockTick == (d == Unreachable) && r.blockers == old(r.blockers) && r.children == old(r.children)
      ensures forall p :: p in old(Candidates()) && p != current ==> unchanged(p)
      ensures nextPid == old(nextPid)
    {
      ghost var cands := Candidates();
      blockTick := true;
      if current != null {
        AddToQueue(current);
        current := null;
      }
      assert queue == cands;
      if queue == [] {
        var r := NextProcessToRun();
        return Unreachable;
      }
      ChosenUnchanged(cands);
      var r := NextProcessToRun();
      d := Start(r);
    }

    /**
     * The part of `schedule` after the pick: `r` becomes the running process
     * with a fresh slice, and `resume` starts or resumes it.
     */
    method Start(r: Process) returns (d: Dispatch)
      modifies this, r
      ensures current == r && queue == old(queue) && nextPid == old(nextPid)
      ensures r.ticksLeft == TICKS_PER_SLICE && d == ResumeTarget(old(r.state), r.isKernel)
      ensures r.state == (if old(r.state) == NotYetStarted then Running else old(r.state))
      ensures blockTick == (d == Unreachable) && r.blockers == old(r.blockers) && r.children == old(r.children)
    {
      current := r;
      r.ticksLeft := TICKS_PER_SLICE;
      d := ResumeTarget(r.state, r.isKernel);
      blockTick := true;
      if d != Unreachable {
        r.state := Running;
        blockTick := false;
      }
    }

    /**
     * `tick`: nothing while ticks are blocked; otherwise the running process
     * must exist and not be terminated (fatal otherwise, `ok == false`), its
     * ticks count down by one in 64-bit arithmetic, and the slice is over
     * when they reach 0.
     */
    method Tick() returns (ok: bool, switch: bool)
      modifies if current == null then {} else {current}
      ensures blockTick ==> ok && !switch && (current != null ==> current.ticksLeft == old(current.ticksLeft))
      ensures !blockTick ==> (ok <==> current != null && current.state != Terminated)
      ensures !blockTick && ok ==>
        current != null && current.ticksLeft == TicksAfter(old(current.ticksLeft), 1) && (switch <==> current.ticksLeft == 0)
      ensures current != null ==> current.state == old(current.state)
    {
      if blockTick {
        return true, false;
      }
      if current == null || current.state == Terminated {
        return false, false;
      }
      current.ticksLeft := Sub64(current.ticksLeft, 1);
      ok, switch := true, current.ticksLeft == 0;
    }

    /**
     * `create_process`: a new process with the next pid and the creator's
     * pwd joins the queue's tail, becomes the first child of the running
     * process, and, when `flags` asks for it, the creator starts waiting
     * for it. There must be a running process (`ok == false` otherwise).
     */
    method CreateProcess(flags: u64, isKernel: bool) returns (ok: bool, proc: Process?)
      requires Valid() && (current != null ==> IsPwd(current.pwd) && current !in queue)
      modifies this, current
      ensures Valid() && nextPid >= old(nextPid)
      ensures !ok <==> old(current) == null
      ensures ok ==> proc != null && current != null && fresh(proc) && proc.pid == old(nextPid) + 1 && nextPid == proc.pid
      ensures ok ==> proc.canBeOrphaned == (Bit(flags, EXEC_CAN_BE_ORPHANED_BIT) == 1) && proc.isKernel == isKernel
      ensures ok ==> proc.state == NotYetStarted && proc.pwd == current.pwd && proc.parent == current && proc.children == []
      ensures ok ==> queue == old(queue) + [proc] && current == old(current)
      ensures ok ==> current.children == [proc] + old(current.children)
      ensures ok ==> current.blockers == old(current.blockers) + (if Bit(flags, EXEC_IS_BLOCKING_BIT) == 1 then [proc.pid] else [])
      ensures ok ==> blockTick == (old(queue) == [] || old(blockTick))
    {
      var creator := current;
      if creator == null {
        return false, null;
      }
      var isBlocking := Bit(flags, EXEC_IS_BLOCKING_BIT) == 1;
      var canBeOrphaned := Bit(flags, EXEC_CAN_BE_ORPHANED_BIT) == 1;
      nextPid := nextPid + 1;
      proc := new Process(nextPid, canBeOrphaned, isKernel, creator.pwd);
      AddToQueue(proc);
      creator.AddChild(proc);
      if isBlocking {
        creator.AddBlockerProcess(proc.pid);
      }
      ok := true;
    }
  }
}
