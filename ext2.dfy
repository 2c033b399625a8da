/**
 * The arithmetic and bitmap parts of the kernel's ext2 driver
 * (`kernel/ext2.cpp`): where an inode lives in the inode tables, how its
 * 64-bit size is split across two 32-bit fields, how large a directory entry
 * really is, how a file block index is decomposed into indirect-block slots,
 * and how the block and inode bitmaps are searched, set and cleared.
 *
 * The driver's globals that `init_ext2` fills in from the superblock (block
 * size, inodes per group, the partition's first sector) are parameters here.
 * The inode is updated in place by `__inode_set_size`, so it is a class; the
 * bitmaps are byte arrays changed in place.
 */
module Ext2 {
  import opened Types
  import opened Bits
  import opened Math
  import opened CStrings
  import Paths

  const DIRECT_BLOCK_COUNT: u64 := 12
  const DIR_FTYPE_DIR: u8 := 2
  /** `sizeof(DirectoryEntry)`: inode number, record length, name length and file type. */
  const DIR_ENTRY_HEADER_BYTES: u64 := 8

  // ---------------------------------------------------------------------------
  // Inode numbers

  /** `inode_num - 1` in `u32`: inode numbers start at 1, and 0 wraps around. */
  function InodeIndex(inodeNum: u32): (r: u32)
    ensures inodeNum >= 1 ==> r + 1 == inodeNum
    ensures inodeNum == 0 ==> r == U32_MOD - 1
  {
    (inodeNum - 1) % U32_MOD
  }

  datatype GroupAndIndex = GroupAndIndex(group: u32, inGroupIndex: u32)

  /** `inode_num_to_group_and_index`: the block group of an inode and its slot in that group's table. */
  function InodeNumToGroupAndIndex(inodeNum: u32, inodesPerGroup: u32): (r: GroupAndIndex)
    requires inodesPerGroup > 0
    ensures r.inGroupIndex < inodesPerGroup
  {
    var index := InodeIndex(inodeNum);
    GroupAndIndex(index / inodesPerGroup, index % inodesPerGroup)
  }

  /** Counting `inodesPerGroup` inodes per group from inode 1 on reaches inode `n` again. */
  lemma GroupAndIndexRoundTrip(inodeNum: u32, inodesPerGroup: u32)
    requires inodesPerGroup > 0 && inodeNum >= 1
    ensures var r := InodeNumToGroupAndIndex(inodeNum, inodesPerGroup);
      r.group * inodesPerGroup + r.inGroupIndex + 1 == inodeNum
  {
    var index := InodeIndex(inodeNum);
    assert index == inodesPerGroup * (index / inodesPerGroup) + index % inodesPerGroup;
  }

  /** Every (group, slot) pair within the table is the place of exactly one inode number. */
  lemma GroupAndIndexUnique(inodeNum: u32, inodesPerGroup: u32, group: nat, slot: nat)
    requires inodesPerGroup > 0 && slot < inodesPerGroup
    requires group * inodesPerGroup + slot + 1 == inodeNum
    ensures InodeNumToGroupAndIndex(inodeNum, inodesPerGroup) == GroupAndIndex(group, slot)
  {
    DivModUnique(inodeNum - 1, inodesPerGroup, group, slot);
  }

  /** Inode 0 is not an inode: its index wraps to the last `u32` value. */
  lemma InodeZeroWraps(inodesPerGroup: u32)
    requires inodesPerGroup > 0
    ensures var r := InodeNumToGroupAndIndex(0, inodesPerGroup);
      r.group == (U32_MOD - 1) / inodesPerGroup && r.inGroupIndex == (U32_MOD - 1) % inodesPerGroup
  {
  }

  // ---------------------------------------------------------------------------
  // The inode's size and block counts

  /** The fields of an on-disk inode that the size and block-count helpers read and write. */
  class Inode {
    var sizeLo: u32
    var sizeHi: u32
    /** Blocks reserved for the file, counted in 512-byte sectors. */
    var reserved512Blocks: u32

    constructor (sizeLo: u32, sizeHi: u32, reserved512Blocks: u32)
      ensures this.sizeLo == sizeLo && this.sizeHi == sizeHi
      ensures this.reserved512Blocks == reserved512Blocks
    {
      this.sizeLo := sizeLo;
      this.sizeHi := sizeHi;
      this.reserved512Blocks := reserved512Blocks;
    }

    /** `inode_size`: `size_hi` above `size_lo`. */
    function Size(): (r: u64)
      reads this
      ensures r == sizeHi * U32_MOD + sizeLo
    {
      Join32(sizeHi, sizeLo)
    }

    /** `__inode_set_size`: the low and high halves of `size`; reading the size back gives `size`. */
    method SetSize(size: u64)
      modifies this
      ensures sizeLo == Low32(size) && sizeHi == High32(size)
      ensures reserved512Blocks == old(reserved512Blocks)
      ensures Size() == size
    {
      sizeLo := Low32(size);
      sizeHi := High32(size);
      JoinSplit(size);
    }

    /**
     * `inode_used_blocks`: the number of blocks the size needs, rounded up,
     * truncated to `u32` on return.
     */
    function UsedBlocks(blockSizeBytes: u32): (r: u32)
      reads this
      requires blockSizeBytes > 0
      ensures Size() + blockSizeBytes - 1 < U64_MOD && RoundUpDivide(Size(), blockSizeBytes) < U32_MOD ==>
        r * blockSizeBytes >= Size() && (r - 1) * blockSizeBytes < Size()
    {
      var blocks := RoundUpDivide(Size(), blockSizeBytes);
      if blocks < U32_MOD then blocks else blocks % U32_MOD
    }

    /** `inode_reserved_blocks`: reserved 512-byte sectors converted to whole blocks, rounded down. */
    function ReservedBlocks(blockSizeSectors: u32): (r: u32)
      reads this
      requires blockSizeSectors > 0
      ensures r * blockSizeSectors <= reserved512Blocks < (r + 1) * blockSizeSectors
    {
      var q := reserved512Blocks / blockSizeSectors;
      assert reserved512Blocks == blockSizeSectors * q + reserved512Blocks % blockSizeSectors;
      q
    }
  }

  /** A file size below 4 GiB lives entirely in `size_lo`. */
  lemma SmallSizeInLowHalf(size: u64)
    requires size < U32_MOD
    ensures Low32(size) == size && High32(size) == 0
  {
  }

  // ---------------------------------------------------------------------------
  // Sectors

  /**
   * `blocknum_to_lba`: the first sector of a block. The sum and product are
   * taken in `u32`, since the partition start, the block number and the
   * sectors per block are all 32-bit.
   */
  function BlocknumToLba(startLba: u32, blockSizeSectors: u32, blocknum: u32): (lba: u64)
    ensures lba < U32_MOD
    ensures startLba + blocknum * blockSizeSectors < U32_MOD ==> lba == startLba + blocknum * blockSizeSectors
  {
    (startLba + blocknum * blockSizeSectors) % U32_MOD
  }

  /** Consecutive blocks start `blockSizeSectors` sectors apart, as long as nothing wraps. */
  lemma BlocksAreContiguous(startLba: u32, blockSizeSectors: u32, blocknum: u32)
    requires blocknum + 1 < U32_MOD
    requires startLba + (blocknum + 1) * blockSizeSectors < U32_MOD
    ensures BlocknumToLba(startLba, blockSizeSectors, blocknum + 1)
         == BlocknumToLba(startLba, blockSizeSectors, blocknum) + blockSizeSectors
  {
    assert (blocknum + 1) * blockSizeSectors == blocknum * blockSizeSectors + blockSizeSectors;
  }

  // ---------------------------------------------------------------------------
  // Indirect block zones

  /**
   * The block-pointer counts and zone bounds `init_ext2` derives from the block
   * size: `ptrs` block numbers per indirect block, their square and cube, and
   * the first file block index past the direct, indirect, double-indirect and
   * triple-indirect zones.
   */
  datatype Zones = Zones(ptrs: u64, ptrs2: u64, ptrs3: u64,
                         directHighest: u64, indirectHighest: u64,
                         doubleHighest: u64, tripleHighest: u64)

  /** 64-bit wrapping multiplication. */
  function Mul64(a: u64, b: u64): (r: u64)
    ensures a * b < U64_MOD ==> r == a * b
  {
    if a * b < U64_MOD then a * b else (a * b) % U64_MOD
  }

  /**
   * What `init_ext2` computes from the block size, in `u64` with wrap-around;
   * `None` where its check that the triple-indirect count exceeds the
   * double-indirect count halts the kernel.
   */
  function ComputeZones(blockSizeBytes: u32): (r: Option<Zones>)
    ensures r.Some? ==> r.value.ptrs == blockSizeBytes / 4 && r.value.ptrs3 > r.value.ptrs2
    ensures r.Some? ==> r.value.directHighest == DIRECT_BLOCK_COUNT
  {
    var p := blockSizeBytes / 4;
    var p2 := Mul64(p, p);
    var p3 := Mul64(p, p2);
    if p3 <= p2 then None
    else
      var indirect := Add64(DIRECT_BLOCK_COUNT, p);
      var double := Add64(indirect, p2);
      Some(Zones(p, p2, p3, DIRECT_BLOCK_COUNT, indirect, double, Add64(double, p3)))
  }

  /** The zones as ext2 lays them out: 12 direct blocks, then `P`, `P^2` and `P^3` more. */
  predicate Exact(z: Zones)
  {
    z.ptrs > 0 && z.ptrs2 == z.ptrs * z.ptrs && z.ptrs3 == z.ptrs * z.ptrs2
    && z.directHighest == DIRECT_BLOCK_COUNT
    && z.indirectHighest == z.directHighest + z.ptrs
    && z.doubleHighest == z.indirectHighest + z.ptrs2
    && z.tripleHighest == z.doubleHighest + z.ptrs3
  }

  lemma MulLe(a: nat, b: nat, c: nat, d: nat)
    requires a <= c && b <= d
    ensures a * b <= c * d
  {
    assert a * b <= c * b;
    assert c * b <= c * d;
  }

  /** For every block size ext2 allows (up to 64 KiB) nothing wraps and the zones are exact. */
  lemma ZonesExact(blockSizeBytes: u32)
    requires 8 <= blockSizeBytes <= 0x1_0000
    ensures ComputeZones(blockSizeBytes).Some? && Exact(ComputeZones(blockSizeBytes).value)
  {
    var p := blockSizeBytes / 4;
    assert 2 <= p <= 0x4000;
    MulLe(p, p, 0x4000, 0x4000);
    var p2 := p * p;
    assert Mul64(p, p) == p2;
    MulLe(p, p2, 0x4000, 0x4000 * 0x4000);
    var p3 := p * p2;
    assert Mul64(p, p2) == p3;
    assert p3 > p2 by {
      assert p3 == p2 + (p - 1) * p2;
      MulAtLeast(p2, p - 1);
      assert p2 * (p - 1) == (p - 1) * p2;
    }
    assert Add64(DIRECT_BLOCK_COUNT, p) == DIRECT_BLOCK_COUNT + p;
    assert Add64(DIRECT_BLOCK_COUNT + p, p2) == DIRECT_BLOCK_COUNT + p + p2;
    assert Add64(DIRECT_BLOCK_COUNT + p + p2, p3) == DIRECT_BLOCK_COUNT + p + p2 + p3;
  }

  /**
   * A block size under 8 bytes holds at most one block number, so the cube
   * does not exceed the square and `init_ext2` halts.
   */
  lemma ZonesTinyBlockHalts(blockSizeBytes: u32)
    requires blockSizeBytes < 8
    ensures ComputeZones(blockSizeBytes).None?
  {
    var p := blockSizeBytes / 4;
    assert p == 0 || p == 1;
    assert p * p == p;
    assert Mul64(p, p) == p && Mul64(p, p) == Mul64(p, Mul64(p, p));
  }

  /** `indirect_blocks_indexes`: the slot in the indirect block, `i - direct_highest` in `u64`. */
  function IndirectIndexes(z: Zones, i: u64): (l1: u64)
  {
    Sub64(i, z.directHighest)
  }

  /** `double_indirect_blocks_indexes`: the slots in the first- and second-level blocks. */
  function DoubleIndirectIndexes(z: Zones, i: u64): (r: (u64, u64))
    requires z.ptrs > 0
  {
    var x := Sub64(i, z.indirectHighest);
    (x / z.ptrs, x % z.ptrs)
  }

  /** `triple_indirect_blocks_indexes`: the slots in the three levels of blocks. */
  function TripleIndirectIndexes(z: Zones, i: u64): (r: (u64, u64, u64))
    requires z.ptrs > 0 && z.ptrs2 > 0
  {
    var x := Sub64(i, z.doubleHighest);
    var rem := x % z.ptrs2;
    (x / z.ptrs2, rem / z.ptrs, rem % z.ptrs)
  }

  /** Inside the indirect zone the slot is in range and points back at `i`. */
  lemma IndirectZone(z: Zones, i: u64)
    requires Exact(z) && z.directHighest <= i < z.indirectHighest
    ensures var l1 := IndirectIndexes(z, i);
      l1 < z.ptrs && z.directHighest + l1 == i
  {
  }

  lemma DivBelow(x: nat, a: nat, b: nat)
    requires b > 0 && x < a * b
    ensures x / b < a
  {
    var q := x / b;
    assert q * b <= x by {
      assert x == q * b + x % b;
    }
    assert (a - q) * b > 0;
  }

  /** Inside the double-indirect zone both slots are in range and recombine to `i`. */
  lemma DoubleZone(z: Zones, i: u64)
    requires Exact(z) && z.indirectHighest <= i < z.doubleHighest
    ensures var (l2, l1) := DoubleIndirectIndexes(z, i);
      l2 < z.ptrs && l1 < z.ptrs && z.indirectHighest + l2 * z.ptrs + l1 == i
  {
    var x := i - z.indirectHighest;
    DivBelow(x, z.ptrs, z.ptrs);
    assert x == (x / z.ptrs) * z.ptrs + x % z.ptrs;
  }

  /** Any pair of in-range slots in the double-indirect zone is where exactly one file block lives. */
  lemma DoubleZoneUnique(z: Zones, l2: nat, l1: nat)
    requires Exact(z) && l2 < z.ptrs && l1 < z.ptrs
    ensures z.indirectHighest + l2 * z.ptrs + l1 < z.doubleHighest
    ensures DoubleIndirectIndexes(z, z.indirectHighest + l2 * z.ptrs + l1) == (l2, l1)
  {
    MulLe(l2, z.ptrs, z.ptrs - 1, z.ptrs);
    assert (z.ptrs - 1) * z.ptrs == z.ptrs2 - z.ptrs;
    DivModUnique(l2 * z.ptrs + l1, z.ptrs, l2, l1);
  }

  /** Two slots below `p` and `q` combine into one index below `p * q`. */
  lemma SlotsBelow(hi: nat, lo: nat, p: nat, q: nat)
    requires hi < p && lo < q
    ensures hi * q + lo < p * q
  {
    MulLe(hi + 1, q, p, q);
    assert (hi + 1) * q == hi * q + q;
  }

  /** Inside the triple-indirect zone all three slots are in range and recombine to `i`. */
  lemma TripleZone(z: Zones, i: u64)
    requires Exact(z) && z.doubleHighest <= i < z.tripleHighest
    ensures z.ptrs2 > 0
    ensures var (l3, l2, l1) := TripleIndirectIndexes(z, i);
      l3 < z.ptrs && l2 < z.ptrs && l1 < z.ptrs
      && z.doubleHighest + l3 * z.ptrs2 + l2 * z.ptrs + l1 == i
  {
    var p, p2 := z.ptrs, z.ptrs2;
    MulAtLeast(p, p);
    var x := i - z.doubleHighest;
    assert x < p * p2;
    DivBelow(x, p, p2);
    var l3, rem := x / p2, x % p2;
    assert x == l3 * p2 + rem;
    DivBelow(rem, p, p);
    var l2, l1 := rem / p, rem % p;
    assert rem == l2 * p + l1;
    assert TripleIndirectIndexes(z, i) == (l3, l2, l1);
  }

  /** Three slots below `p` combine into one index below `p^3`, and division takes them apart again. */
  lemma ComposeSlots(l3: nat, l2: nat, l1: nat, p: nat, p2: nat)
    requires l3 < p && l2 < p && l1 < p && p2 == p * p
    ensures var x := l3 * p2 + l2 * p + l1;
      p2 > 0 && 0 <= x < p * p2
      && x / p2 == l3 && (x % p2) / p == l2 && (x % p2) % p == l1
  {
    MulAtLeast(p, p);
    var a, b := l3 * p2, l2 * p;
    assert a == p2 * l3 && b == p * l2;
    var rem := b + l1;
    SlotsBelow(l2, l1, p, p);
    SlotsBelow(l3, rem, p, p2);
    DivModUnique(a + rem, p2, l3, rem);
    DivModUnique(rem, p, l2, l1);
  }

  /** Any triple of in-range slots in the triple-indirect zone is where exactly one file block lives. */
  lemma TripleZoneUnique(z: Zones, l3: nat, l2: nat, l1: nat, i: nat)
    requires Exact(z) && l3 < z.ptrs && l2 < z.ptrs && l1 < z.ptrs
    requires i == z.doubleHighest + l3 * z.ptrs2 + l2 * z.ptrs + l1
    ensures z.doubleHighest <= i < z.tripleHighest && z.ptrs2 > 0
      && TripleIndirectIndexes(z, i) == (l3, l2, l1)
  {
    ComposeSlots(l3, l2, l1, z.ptrs, z.ptrs2);
    TripleIndexesOf(z, i, i - z.doubleHighest);
  }

  /** `TripleIndirectIndexes` on an index `x` past the double-indirect zone. */
  lemma TripleIndexesOf(z: Zones, i: nat, x: nat)
    requires z.ptrs > 0 && z.ptrs2 > 0 && z.doubleHighest <= i < U64_MOD && x == i - z.doubleHighest
    ensures TripleIndirectIndexes(z, i) == (x / z.ptrs2, (x % z.ptrs2) / z.ptrs, (x % z.ptrs2) % z.ptrs)
  {
  }

  // ---------------------------------------------------------------------------
  // Directory entries

  /** A directory entry: its header and the bytes of its name as stored after the header. */
  datatype DirEntry = DirEntry(inodeNum: u32, length: u16, nameLength: u8, fileType: u8, name: seq<u8>)

  /**
   * `dir_entry_true_size`: the header plus the name, padded to a multiple of
   * 4 bytes — the least multiple of 4 that holds both.
   */
  function DirEntryTrueSize(nameLength: u32): (r: u64)
    ensures r % 4 == 0 && DIR_ENTRY_HEADER_BYTES + nameLength <= r < DIR_ENTRY_HEADER_BYTES + nameLength + 4
  {
    RoundUpAlign(DIR_ENTRY_HEADER_BYTES + nameLength, 4)
  }

  /**
   * `dir_entry_name_match` with a type filter: the entry must be a directory
   * when `isDir` is set, the lengths must agree, and `strncmp_workaround` must
   * find no difference in the first `nameLen` bytes.
   */
  function DirEntryNameMatch(e: DirEntry, name: seq<u8>, nameLen: u64, isDir: bool): (r: bool)
    requires nameLen == e.nameLength ==> Comparable(name, e.name, nameLen)
    ensures r ==> (!isDir || e.fileType == DIR_FTYPE_DIR) && nameLen == e.nameLength
  {
    var typeMatches := !isDir || e.fileType == DIR_FTYPE_DIR;
    typeMatches && nameLen == e.nameLength && StrNCmpResult(name, e.name, nameLen) == 0
  }

  /** `dir_entry_name_match` without a type filter. */
  function DirEntryNameMatchAnyType(e: DirEntry, name: seq<u8>, nameLen: u64): (r: bool)
    requires nameLen == e.nameLength ==> Comparable(name, e.name, nameLen)
    ensures r ==> nameLen == e.nameLength
  {
    nameLen == e.nameLength && StrNCmpResult(name, e.name, nameLen) == 0
  }

  /**
   * For a path component (no NUL among its `nameLen` bytes), an entry matches
   * exactly when the type filter passes, the lengths agree and the name bytes
   * are equal.
   */
  lemma NameMatchIff(e: DirEntry, name: seq<u8>, nameLen: u64, isDir: bool)
    requires nameLen <= |name| && nameLen <= |e.name| && 0 !in name[..nameLen]
    ensures DirEntryNameMatch(e, name, nameLen, isDir) <==>
      (!isDir || e.fileType == DIR_FTYPE_DIR) && nameLen == e.nameLength && name[..nameLen] == e.name[..nameLen]
    ensures DirEntryNameMatchAnyType(e, name, nameLen) <==> DirEntryNameMatch(e, name, nameLen, false)
  {
    if name[..nameLen] == e.name[..nameLen] {
      StrNCmpEqual(name, e.name, nameLen);
    }
  }

  // ---------------------------------------------------------------------------
  // Buffers and bitmaps

  /** `all_zero`: whether the first `size` bytes are all zero. */
  method AllZero(buffer: array<u8>, size: u64) returns (r: bool)
    requires size <= buffer.Length
    ensures r <==> forall i :: 0 <= i < size ==> buffer[i] == 0
  {
    var i: u64 := 0;
    while i < size
      invariant i <= size
      invariant forall j :: 0 <= j < i ==> buffer[j] == 0
    {
      if buffer[i] != 0 {
        return false;
      }
      i := i + 1;
    }
    return true;
  }

  /** `__builtin_ffs`: one more than the index of the lowest set bit, or 0 when no bit is set. */
  function Ffs(x: nat): (r: nat)
    ensures x == 0 <==> r == 0
  {
    if x == 0 then 0
    else if x % 2 == 1 then 1
    else Ffs(x / 2) + 1
  }

  /** `Ffs` does find the lowest set bit, and within a word of `n` bits. */
  lemma {:induction false} FfsLowest(x: nat, n: nat)
    requires 0 < x < Pow2(n)
    ensures 0 < Ffs(x) <= n
    ensures Bit(x, Ffs(x) - 1) == 1 && forall j :: 0 <= j < Ffs(x) - 1 ==> Bit(x, j) == 0
  {
    if x % 2 == 0 {
      assert n > 0 && Pow2(n) == 2 * Pow2(n - 1);
      FfsLowest(x / 2, n - 1);
      var f := Ffs(x);
      BitShift(x, f - 1);
      forall j | 0 <= j < f - 1
        ensures Bit(x, j) == 0
      {
        if j > 0 {
          BitShift(x, j);
        }
      }
    }
  }

  /** Bit `k` of a bitmap: bit `k % 8` of byte `k / 8`. */
  function BitmapBit(b: seq<u8>, k: nat): (r: nat)
    requires k / 8 < |b|
    ensures r < 2
  {
    Bit(b[k / 8], k % 8)
  }

  /** Every bit below `n` is set. */
  predicate AllSetBelow(b: seq<u8>, n: nat)
    requires n <= 8 * |b|
  {
    forall k :: 0 <= k < n ==> BitmapBit(b, k) == 1
  }

  /** The lowest clear bit among the first `n`, searching from `from` on. */
  function FirstClearFrom(b: seq<u8>, from: nat, n: nat): (r: Option<nat>)
    requires n <= 8 * |b|
    decreases n - from
  {
    if from >= n then None
    else if BitmapBit(b, from) == 0 then Some(from)
    else FirstClearFrom(b, from + 1, n)
  }

  /** The lowest clear bit among the first `n` bits, if there is one. */
  function FirstClear(b: seq<u8>, n: nat): (r: Option<nat>)
    requires n <= 8 * |b|
  {
    FirstClearFrom(b, 0, n)
  }

  lemma {:induction false} FirstClearFromSpec(b: seq<u8>, from: nat, n: nat)
    requires n <= 8 * |b|
    requires forall k :: 0 <= k < from && k < n ==> BitmapBit(b, k) == 1
    ensures FirstClearFrom(b, from, n).None? <==> AllSetBelow(b, n)
    ensures FirstClearFrom(b, from, n).Some? ==>
      var k := FirstClearFrom(b, from, n).value;
      k < n && BitmapBit(b, k) == 0 && AllSetBelow(b, k)
    decreases n - from
  {
    if from < n && BitmapBit(b, from) != 0 {
      FirstClearFromSpec(b, from + 1, n);
    }
  }

  /** `FirstClear` finds the lowest clear bit, and finds nothing exactly when every bit is set. */
  lemma FirstClearSpec(b: seq<u8>, n: nat)
    requires n <= 8 * |b|
    ensures FirstClear(b, n).None? <==> AllSetBelow(b, n)
    ensures FirstClear(b, n).Some? ==>
      var k := FirstClear(b, n).value;
      k < n && BitmapBit(b, k) == 0 && AllSetBelow(b, k)
  {
    FirstClearFromSpec(b, 0, n);
  }

  /** Any clear bit with every bit below it set is what `FirstClear` finds. */
  lemma FirstClearIsLowest(b: seq<u8>, n: nat, k: nat)
    requires k < n <= 8 * |b| && BitmapBit(b, k) == 0 && AllSetBelow(b, k)
    ensures FirstClear(b, n) == Some(k)
  {
    FirstClearSpec(b, n);
    var f := FirstClear(b, n).value;
    assert !(f < k) && !(k < f);
  }

  /** `byte | (1 << i)` on a `u8`. */
  function SetBitInByte(x: u8, i: nat): (r: u8)
    requires i < 8
  {
    Pow2Small();
    Or(x, Pow2(i), 8)
  }

  /** `byte & ~(1 << i)` on a `u8`. */
  function ClearBitInByte(x: u8, i: nat): (r: u8)
    requires i < 8
  {
    Pow2Small();
    Pow2Le(i, 7);
    And(x, Not(Pow2(i), 8), 8)
  }

  /** Setting bit `i` of a byte sets that bit and keeps the others; on a clear bit it adds `2^i`. */
  lemma SetBitInByteSpec(x: u8, i: nat)
    requires i < 8
    ensures forall j :: 0 <= j < 8 ==> Bit(SetBitInByte(x, i), j) == if j == i then 1 else Bit(x, j)
    ensures Bit(x, i) == 0 ==> SetBitInByte(x, i) == x + Pow2(i)
  {
    Pow2Small();
    forall j | 0 <= j < 8
      ensures Bit(SetBitInByte(x, i), j) == if j == i then 1 else Bit(x, j)
    {
      OrPow2Bit(x, i, 8, j);
    }
    if Bit(x, i) == 0 {
      OrPow2Value(x, i, 8);
    }
  }

  /** Clearing bit `i` of a byte clears that bit and keeps the others; on a set bit it subtracts `2^i`. */
  lemma ClearBitInByteSpec(x: u8, i: nat)
    requires i < 8
    ensures forall j :: 0 <= j < 8 ==> Bit(ClearBitInByte(x, i), j) == if j == i then 0 else Bit(x, j)
    ensures Bit(x, i) == 1 ==> ClearBitInByte(x, i) == x - Pow2(i)
  {
    Pow2Small();
    forall j | 0 <= j < 8
      ensures Bit(ClearBitInByte(x, i), j) == if j == i then 0 else Bit(x, j)
    {
      AndNotPow2Bit(x, i, 8, j);
    }
    if Bit(x, i) == 1 {
      AndNotPow2Value(x, i, 8);
    }
  }

  /** The bitmap with bit `k` set. */
  function SetBitmapBit(b: seq<u8>, k: nat): (r: seq<u8>)
    requires k / 8 < |b|
    ensures |r| == |b|
  {
    b[k / 8 := SetBitInByte(b[k / 8], k % 8)]
  }

  /** The bitmap with bit `k` cleared. */
  function ClearBitmapBit(b: seq<u8>, k: nat): (r: seq<u8>)
    requires k / 8 < |b|
    ensures |r| == |b|
  {
    b[k / 8 := ClearBitInByte(b[k / 8], k % 8)]
  }

  /** Bits `j` and `k` of a bitmap are the same bit exactly when `j == k`. */
  lemma SameBit(j: nat, k: nat)
    requires j / 8 == k / 8 && j % 8 == k % 8
    ensures j == k
  {
  }

  /** Setting bit `k` of a bitmap sets that bit and no other. */
  lemma SetBitmapBitOnly(b: seq<u8>, k: nat, j: nat)
    requires k / 8 < |b| && j / 8 < |b|
    ensures BitmapBit(SetBitmapBit(b, k), j) == if j == k then 1 else BitmapBit(b, j)
  {
    SetBitInByteSpec(b[k / 8], k % 8);
    if j / 8 == k / 8 && j % 8 == k % 8 {
      SameBit(j, k);
    }
  }

  /** Clearing bit `k` of a bitmap clears that bit and no other. */
  lemma ClearBitmapBitOnly(b: seq<u8>, k: nat, j: nat)
    requires k / 8 < |b| && j / 8 < |b|
    ensures BitmapBit(ClearBitmapBit(b, k), j) == if j == k then 0 else BitmapBit(b, j)
  {
    ClearBitInByteSpec(b[k / 8], k % 8);
    if j / 8 == k / 8 && j % 8 == k % 8 {
      SameBit(j, k);
    }
  }

  /** Freeing a bit that was just allocated gives the bitmap back. */
  lemma SetThenClear(b: seq<u8>, k: nat)
    requires k / 8 < |b| && BitmapBit(b, k) == 0
    ensures ClearBitmapBit(SetBitmapBit(b, k), k) == b
  {
    var m, i := k / 8, k % 8;
    var x := b[m];
    SetBitInByteSpec(x, i);
    var y := SetBitInByte(x, i);
    assert Bit(y, i) == 1;
    ClearBitInByteSpec(y, i);
    assert ClearBitInByte(y, i) == x;
    assert SetBitmapBit(b, k) == b[m := y];
    assert b[m := y][m := x] == b;
  }

  /** The result of `bitmap_find_zero_and_set`: whether a clear bit was found, and where. */
  datatype FindZeroResult = FindZeroResult(foundZero: bool, byteIndex: u64, bitIndex: u64)

  /**
   * What searching the first `bitcount` bits and setting the lowest clear one
   * should do: report and set that bit, or report nothing found and change nothing.
   */
  predicate FindZeroAndSetSpec(before: seq<u8>, after: seq<u8>, bitcount: u64, r: FindZeroResult)
    requires bitcount <= 8 * |before|
  {
    FirstClearSpec(before, bitcount);
    match FirstClear(before, bitcount)
    case None => r == FindZeroResult(false, 0, 0) && after == before
    case Some(k) =>
      r == FindZeroResult(true, k / 8, k % 8) && k / 8 < |before| && after == SetBitmapBit(before, k)
  }

  /** Bits of byte `m` below `i` all set extend "every bit below `8m` set" to `8m + i`. */
  lemma ExtendInByte(b: seq<u8>, m: nat, i: nat)
    requires m < |b| && i <= 8 && AllSetBelow(b, 8 * m)
    requires forall j :: 0 <= j < i ==> Bit(b[m], j) == 1
    ensures AllSetBelow(b, 8 * m + i)
  {
    forall k | 8 * m <= k < 8 * m + i
      ensures BitmapBit(b, k) == 1
    {
      DivModUnique(k, 8, m, k - 8 * m);
    }
  }

  /** A byte whose complement is zero has all eight bits set. */
  lemma FullByte(x: u8)
    requires Not(x, 8) == 0
    ensures forall j :: 0 <= j < 8 ==> Bit(x, j) == 1
  {
    Pow2Small();
    forall j | 0 <= j < 8
      ensures Bit(x, j) == 1
    {
      NotBit(x, 8, j);
    }
  }

  /**
   * `~byte` has a set bit: `ffs` of it names the lowest clear bit of `byte`,
   * and all bits below it are set.
   */
  lemma LowestClearInByte(x: u8)
    requires Not(x, 8) != 0
    ensures 0 < Ffs(Not(x, 8)) <= 8
    ensures Bit(x, Ffs(Not(x, 8)) - 1) == 0
    ensures forall j :: 0 <= j < Ffs(Not(x, 8)) - 1 ==> Bit(x, j) == 1
  {
    Pow2Small();
    var c := Not(x, 8);
    FfsLowest(c, 8);
    NotBit(x, 8, Ffs(c) - 1);
    forall j | 0 <= j < Ffs(c) - 1
      ensures Bit(x, j) == 1
    {
      NotBit(x, 8, j);
    }
  }

  /**
   * The loop over the whole bytes: the first byte with a clear bit and the
   * lowest clear bit in it, or every bit of the whole bytes set.
   */
  method ScanWholeBytes(bitmap: array<u8>, bytecount: u64) returns (found: bool, byteI: u64, bitI: u64)
    requires bytecount <= bitmap.Length
    ensures found ==> (byteI < bytecount && bitI < 8 && Bit(bitmap[byteI], bitI) == 0
                       && AllSetBelow(bitmap[..], 8 * byteI + bitI))
    ensures !found ==> byteI == bytecount && bitI == 0 && AllSetBelow(bitmap[..], 8 * bytecount)
  {
    Pow2Small();
    byteI, bitI := 0, 0;
    while byteI < bytecount
      invariant byteI <= bytecount && AllSetBelow(bitmap[..], 8 * byteI)
    {
      var x := bitmap[byteI];
      var byte := Not(x, 8);
      if byte != 0 {
        LowestClearInByte(x);
        bitI := Ffs(byte) - 1;
        ExtendInByte(bitmap[..], byteI, bitI);
        return true, byteI, bitI;
      }
      FullByte(x);
      ExtendInByte(bitmap[..], byteI, 8);
      byteI := byteI + 1;
    }
    return false, byteI, bitI;
  }

  /**
   * The partial last byte, searched when the whole bytes are full: the lowest
   * clear bit below `overflow`, if there is one.
   */
  method ScanLastByte(bitmap: array<u8>, byteI: u64, overflow: u64) returns (found: bool, bitI: u64)
    requires byteI < bitmap.Length && 0 < overflow < 8 && AllSetBelow(bitmap[..], 8 * byteI)
    ensures found ==> (bitI < overflow && Bit(bitmap[byteI], bitI) == 0
                       && AllSetBelow(bitmap[..], 8 * byteI + bitI))
    ensures !found ==> AllSetBelow(bitmap[..], 8 * byteI + overflow)
  {
    Pow2Small();
    var x := bitmap[byteI];
    var byte := Not(x, 8);
    var f := Ffs(byte);
    if f == 0 || f > overflow {
      if f == 0 {
        FullByte(x);
      } else {
        LowestClearInByte(x);
      }
      ExtendInByte(bitmap[..], byteI, overflow);
      return false, 0;
    }
    LowestClearInByte(x);
    bitI := f - 1;
    ExtendInByte(bitmap[..], byteI, bitI);
    return true, bitI;
  }

  /** `*byte |= (1 << bit_i)` after checking the bit is clear: the bitmap with that bit set. */
  method SetClearBit(bitmap: array<u8>, byteI: u64, bitI: u64)
    requires byteI < bitmap.Length && bitI < 8 && Bit(bitmap[byteI], bitI) == 0
    modifies bitmap
    ensures bitmap[..] == SetBitmapBit(old(bitmap[..]), 8 * byteI + bitI)
  {
    Pow2Small();
    Pow2Le(bitI, 7);
    AndPow2(bitmap[byteI], bitI, 8);
    assert And(bitmap[byteI], Pow2(bitI), 8) == 0;
    DivModUnique(8 * byteI + bitI, 8, byteI, bitI);
    bitmap[byteI] := SetBitInByte(bitmap[byteI], bitI);
  }

  /**
   * `bitmap_find_zero_and_set` as it should behave: the lowest clear bit
   * among the first `bitcount` is set and reported, and when every one of
   * them is set nothing is found and nothing changes.
   */
  method BitmapFindZeroAndSet(bitmap: array<u8>, bitcount: u64) returns (r: FindZeroResult)
    requires bitcount <= 8 * bitmap.Length
    modifies bitmap
    ensures FindZeroAndSetSpec(old(bitmap[..]), bitmap[..], bitcount, r)
  {
    var bytecount := bitcount / 8;
    var overflow := bitcount % 8;
    var found, byteI, bitI := ScanWholeBytes(bitmap, bytecount);
    if !found {
      if overflow == 0 {
        FirstClearSpec(bitmap[..], bitcount);
        return FindZeroResult(false, 0, 0);
      }
      found, bitI := ScanLastByte(bitmap, byteI, overflow);
      if !found {
        FirstClearSpec(bitmap[..], bitcount);
        return FindZeroResult(false, 0, 0);
      }
    }
    DivModUnique(8 * byteI + bitI, 8, byteI, bitI);
    FirstClearIsLowest(bitmap[..], bitcount, 8 * byteI + bitI);
    SetClearBit(bitmap, byteI, bitI);
    return FindZeroResult(true, byteI, bitI);
  }

  /**
   * `bitmap_find_zero_and_set` as written. When `bitcount` is a multiple of 8
   * and every bit is set, the code after the whole-byte loop runs with
   * `byte_i == bitcount / 8` and `bit_i == 0`: it checks bit 0 of the byte
   * just past the range, halting (`None`) when it is set and otherwise setting
   * it and reporting bit `bitcount` as found.
   */
  method BitmapFindZeroAndSetAsWritten(bitmap: array<u8>, bitcount: u64) returns (r: Option<FindZeroResult>)
    requires bitcount / 8 < bitmap.Length
    modifies bitmap
    ensures FirstClear(old(bitmap[..]), bitcount).Some? || bitcount % 8 != 0 ==>
      r.Some? && FindZeroAndSetSpec(old(bitmap[..]), bitmap[..], bitcount, r.value)
    ensures FirstClear(old(bitmap[..]), bitcount).None? && bitcount % 8 == 0 ==>
      (r.None? <==> BitmapBit(old(bitmap[..]), bitcount) == 1)
      && (r.None? ==> bitmap[..] == old(bitmap[..]))
      && (r.Some? ==> r.value == FindZeroResult(true, bitcount / 8, 0)
                      && bitmap[..] == SetBitmapBit(old(bitmap[..]), bitcount))
  {
    var bytecount := bitcount / 8;
    var overflow := bitcount % 8;
    var found, byteI, bitI := ScanWholeBytes(bitmap, bytecount);
    if !found && overflow != 0 {
      found, bitI := ScanLastByte(bitmap, byteI, overflow);
      if !found {
        FirstClearSpec(bitmap[..], bitcount);
        return Some(FindZeroResult(false, 0, 0));
      }
    }
    DivModUnique(8 * byteI + bitI, 8, byteI, bitI);
    if !found {
      // Whole bytes all set and no partial byte: the write lands past the range.
      FirstClearSpec(bitmap[..], bitcount);
      if Bit(bitmap[byteI], 0) == 1 {
        return None;
      }
      SetClearBit(bitmap, byteI, 0);
      return Some(FindZeroResult(true, byteI, 0));
    }
    FirstClearIsLowest(bitmap[..], bitcount, 8 * byteI + bitI);
    SetClearBit(bitmap, byteI, bitI);
    return Some(FindZeroResult(true, byteI, bitI));
  }

  /**
   * The overrun in one picture: a full one-byte bitmap followed by a zero
   * byte. Searching its 8 bits reports bit 8, outside the range, and sets it.
   */
  method FullBitmapOverrun() returns (r: Option<FindZeroResult>, after: seq<u8>)
    ensures r == Some(FindZeroResult(true, 1, 0)) && after == [0xFF, 1]
  {
    var bitmap := new u8[2](i => if i == 0 then 0xFF else 0);
    assert bitmap[..] == [0xFF, 0];
    Pow2Small();
    FullByte(0xFF);
    assert AllSetBelow(bitmap[..], 8);
    FirstClearSpec(bitmap[..], 8);
    assert Bit(0, 0) == 0;
    r := BitmapFindZeroAndSetAsWritten(bitmap, 8);
    after := bitmap[..];
    SetBitInByteSpec(0, 0);
  }

  /**
   * `bitmap_unset`: clears bit `index`; when that bit is not set the kernel's
   * assertion halts (`halted`) and nothing changes.
   */
  method BitmapUnset(bitmap: array<u8>, index: u64) returns (halted: bool)
    requires index / 8 < bitmap.Length
    modifies bitmap
    ensures halted <==> BitmapBit(old(bitmap[..]), index) == 0
    ensures halted ==> bitmap[..] == old(bitmap[..])
    ensures !halted ==> bitmap[..] == ClearBitmapBit(old(bitmap[..]), index)
  {
    Pow2Small();
    var byteI := index / 8;
    var bitI := index % 8;
    Pow2Le(bitI, 7);
    AndPow2(bitmap[byteI], bitI, 8);
    if And(bitmap[byteI], Pow2(bitI), 8) == 0 {
      return true;
    }
    bitmap[byteI] := ClearBitInByte(bitmap[byteI], bitI);
    return false;
  }

  // ---------------------------------------------------------------------------
  // Paths

  /**
   * `path_lengths`: the path's length with trailing slashes dropped, and the
   * length of its parent's prefix, up to and including the slash before the
   * last component (0 when there is none).
   */
  method PathLengths(path: seq<u8>) returns (pathLen: int, parentPathLen: int)
    requires 0 in path
    ensures 0 <= parentPathLen <= pathLen <= NulIndex(path)
    ensures forall k :: pathLen <= k < NulIndex(path) ==> path[k] == Paths.SLASH
    ensures pathLen == 0 || path[pathLen - 1] != Paths.SLASH
    ensures forall k :: parentPathLen <= k < pathLen ==> path[k] != Paths.SLASH
    ensures parentPathLen == 0 || path[parentPathLen - 1] == Paths.SLASH
  {
    var n := Strlen(path);
    var i: int := n as int - 1;
    while i >= 0 && path[i] == Paths.SLASH
      invariant -1 <= i < n
      invariant forall k :: i < k < n ==> path[k] == Paths.SLASH
    {
      i := i - 1;
    }
    pathLen := i + 1;
    while i >= 0 && path[i] != Paths.SLASH
      invariant -1 <= i < pathLen
      invariant forall k :: i < k < pathLen ==> path[k] != Paths.SLASH
    {
      i := i - 1;
    }
    parentPathLen := i + 1;
  }
}
