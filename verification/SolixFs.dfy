/** The SolixFS data path: bitmap block allocation, twelve direct pointers per inode, and the
    block-by-block loops of file_read and file_write, refined to plain byte sequences.
 */
module SolixFs {
  import opened Bitmap
  import opened Machine

  const BLOCK_SIZE: nat := 4096
  const DIRECT: nat := 12
  /** The largest file the direct pointers can hold. */
  const MAX_SIZE: nat := 49152

  type Byte = bv8

  // ----- values: inodes, disk, file contents -----

  datatype Inode = Inode(size: nat, blocks: nat, direct: seq<nat>)

  /** The device: its blocks by number. */
  type Disk = seq<seq<Byte>>

  /** The data area lies on the device, and every block holds 4096 bytes. */
  ghost predicate DiskOk(disk: Disk, base: nat, total: nat) {
    && base + total <= |disk|
    && forall k :: 0 <= k < |disk| ==> |disk[k]| == BLOCK_SIZE
  }

  /** Every block below the size is allocated, and every nonzero pointer names a claimed block. */
  ghost predicate InodeOk(units: seq<Unit>, total: nat, ino: Inode) {
    && |ino.direct| == DIRECT
    && ino.size <= MAX_SIZE
    && (forall b: nat :: b < DIRECT && b * BLOCK_SIZE < ino.size ==> ino.direct[b] != 0)
    && (forall b: nat :: b < DIRECT && ino.direct[b] != 0 ==>
          ino.direct[b] < total && ino.direct[b] / 8 < |units| && Test(units, 8, ino.direct[b]))
  }

  /** No block belongs to two places, within one inode or across inodes. */
  ghost predicate Disjoint(inodes: seq<Inode>)
    requires forall i :: 0 <= i < |inodes| ==> |inodes[i].direct| == DIRECT
  {
    forall i, b, j, c | 0 <= i < |inodes| && 0 <= j < |inodes| && 0 <= b < DIRECT && 0 <= c < DIRECT ::
      inodes[i].direct[b] == inodes[j].direct[c] != 0 ==> i == j && b == c
  }

  /** The mounted volume: the device, where its data area starts, the block bitmap and the inodes. */
  datatype Volume = Volume(disk: Disk, base: nat, total: nat, units: seq<Unit>, inodes: seq<Inode>)

  /** Bit 0 is reserved (block number 0 means "none"), every inode is well formed and no block has
      two owners. */
  ghost predicate VolumeOk(vol: Volume) {
    && DiskOk(vol.disk, vol.base, vol.total)
    && Covers(vol.units, 8, vol.total)
    && (0 < vol.total && 0 < |vol.units| && Test(vol.units, 8, 0))
    && (forall i :: 0 <= i < |vol.inodes| ==> InodeOk(vol.units, vol.total, vol.inodes[i]))
    && Disjoint(vol.inodes)
  }

  /** A volume whose inodes own nothing is well formed once bit 0 is reserved. */
  lemma EmptyVolumeOk(disk: Disk, base: nat, total: nat, units: seq<Unit>, n: nat)
    requires DiskOk(disk, base, total) && Covers(units, 8, total) && total > 0 && 0 in units[0]
    ensures VolumeOk(Volume(disk, base, total, units, seq(n, _ => Inode(0, 0, seq(DIRECT, _ => 0)))))
  {
  }

  /** The bytes of file `i`, read through its direct pointers. */
  ghost function Content(vol: Volume, i: nat): (s: seq<Byte>)
    requires VolumeOk(vol) && i < |vol.inodes|
    ensures |s| == vol.inodes[i].size
  {
    var ino := vol.inodes[i];
    seq(ino.size, p requires 0 <= p < ino.size =>
      PointerBelowSize(ino, p);
      vol.disk[vol.base + ino.direct[p / BLOCK_SIZE]][p % BLOCK_SIZE])
  }

  /** All files' bytes: what the volume means. */
  ghost function Contents(vol: Volume): (files: seq<seq<Byte>>)
    requires VolumeOk(vol)
    ensures |files| == |vol.inodes|
    ensures forall i: nat :: i < |files| ==> files[i] == Content(vol, i)
    ensures forall i: nat :: i < |files| ==> |files[i]| == vol.inodes[i].size
  {
    seq(|vol.inodes|, i requires 0 <= i < |vol.inodes| => Content(vol, i))
  }

  /** What a caller needs to know about an inode without looking at its pointers' targets. */
  lemma InodeBounds(vol: Volume, i: nat)
    requires VolumeOk(vol) && i < |vol.inodes|
    ensures |vol.inodes[i].direct| == DIRECT && vol.inodes[i].size <= MAX_SIZE && 0 < vol.total
    ensures vol.base + vol.total <= |vol.disk| && Covers(vol.units, 8, vol.total)
    ensures forall b: nat :: b < DIRECT ==>
              vol.inodes[i].direct[b] < vol.total && |vol.disk[vol.base + vol.inodes[i].direct[b]]| == BLOCK_SIZE
  {
  }

  lemma PointerBelowSize(ino: Inode, p: nat)
    requires p < ino.size <= MAX_SIZE
    ensures p / BLOCK_SIZE < DIRECT && (p / BLOCK_SIZE) * BLOCK_SIZE < ino.size
  {
  }

  lemma ByteInBlock(vol: Volume, i: nat, p: nat)
    requires VolumeOk(vol) && i < |vol.inodes| && p < vol.inodes[i].size
    ensures p / BLOCK_SIZE < DIRECT
    ensures Content(vol, i)[p] == vol.disk[vol.base + vol.inodes[i].direct[p / BLOCK_SIZE]][p % BLOCK_SIZE]
  {
  }

  /** The byte under position `p` of file `i`, below the size or not: an empty pointer leads to block 0. */
  ghost function RawByte(vol: Volume, i: nat, p: nat): Byte
    requires VolumeOk(vol) && i < |vol.inodes| && p < MAX_SIZE
  {
    InodeBounds(vol, i);
    vol.disk[vol.base + vol.inodes[i].direct[p / BLOCK_SIZE]][p % BLOCK_SIZE]
  }

  /** Below the size it is the file's byte. */
  lemma RawByteBelowSize(vol: Volume, i: nat, p: nat)
    requires VolumeOk(vol) && i < |vol.inodes| && p < vol.inodes[i].size
    ensures p < MAX_SIZE && RawByte(vol, i, p) == Content(vol, i)[p]
  {
    hide Content;
    ByteInBlock(vol, i, p);
  }

  /** `data` laid over `s` from position `o`, growing `s` when it reaches past the end. */
  function Splice(s: seq<Byte>, o: nat, data: seq<Byte>): (r: seq<Byte>)
    requires o <= |s|
    ensures |r| == if o + |data| < |s| then |s| else o + |data|
  {
    s[..o] + data + if o + |data| < |s| then s[o + |data|..] else []
  }

  lemma SpliceTwice(s: seq<Byte>, o: nat, d: seq<Byte>, e: seq<Byte>)
    requires o <= |s|
    ensures Splice(Splice(s, o, d), o + |d|, e) == Splice(s, o, d + e)
  {
  }

  lemma SpliceNext(s: seq<Byte>, o: nat, buf: seq<Byte>, w: nat, n: nat)
    requires o <= |s| && w + n <= |buf|
    ensures Splice(Splice(s, o, buf[..w]), o + w, buf[w..w + n]) == Splice(s, o, buf[..w + n])
  {
    SpliceTwice(s, o, buf[..w], buf[w..w + n]);
    assert buf[..w] + buf[w..w + n] == buf[..w + n];
  }

  /** The volume after laying `data` over the allocated block under offset `o` of file `i` and
      raising the size when needed. */
  ghost predicate Overwrites(vol: Volume, i: nat, o: nat, data: seq<Byte>, vol': Volume)
    requires VolumeOk(vol)
  {
    && i < |vol.inodes| && o <= vol.inodes[i].size
    && 0 < |data| && o % BLOCK_SIZE + |data| <= BLOCK_SIZE
    && o / BLOCK_SIZE < DIRECT && vol.inodes[i].direct[o / BLOCK_SIZE] != 0
    && var ino := vol.inodes[i];
    var n := vol.base + ino.direct[o / BLOCK_SIZE];
    vol' == vol.(disk := vol.disk[n := Splice(vol.disk[n], o % BLOCK_SIZE, data)],
                 inodes := vol.inodes[i := ino.(size := if o + |data| > ino.size then o + |data| else ino.size)])
  }

  lemma OverwriteKeepsVolume(vol: Volume, i: nat, o: nat, data: seq<Byte>, vol': Volume)
    requires VolumeOk(vol) && Overwrites(vol, i, o, data, vol')
    ensures VolumeOk(vol')
  {
    forall b: nat | b < DIRECT && b * BLOCK_SIZE < vol'.inodes[i].size ensures vol'.inodes[i].direct[b] != 0 {
      assert b == o / BLOCK_SIZE || b * BLOCK_SIZE < vol.inodes[i].size;
    }
  }

  lemma SpliceAt(s: seq<Byte>, o: nat, data: seq<Byte>, k: nat)
    requires o <= |s| && k < |Splice(s, o, data)|
    ensures o + |data| <= k ==> k < |s|
    ensures Splice(s, o, data)[k] == if o <= k < o + |data| then data[k - o] else s[k]
  {
  }

  /** Positions in one block: they differ as their offsets in it do. */
  lemma SameBlock(o: nat, p: nat)
    requires o / BLOCK_SIZE == p / BLOCK_SIZE
    ensures p - o == p % BLOCK_SIZE - o % BLOCK_SIZE
  {
  }

  /** A few bytes on in the same block. */
  lemma InBlock(o: nat, k: nat)
    requires o % BLOCK_SIZE + k < BLOCK_SIZE && o / BLOCK_SIZE < DIRECT
    ensures (o + k) / BLOCK_SIZE == o / BLOCK_SIZE && (o + k) % BLOCK_SIZE == o % BLOCK_SIZE + k && o + k < MAX_SIZE
  {
  }

  /** What is written without leaving the block of `o` is in that block. */
  lemma WithinBlock(o: nat, n: nat, p: nat)
    requires o % BLOCK_SIZE + n <= BLOCK_SIZE
    ensures o <= p < o + n ==> p / BLOCK_SIZE == o / BLOCK_SIZE
  {
  }

  /** Only one block changes, and only file `i` has it, at one position. */
  lemma OtherBlock(vol: Volume, i: nat, o: nat, data: seq<Byte>, vol': Volume, j: nat, b: nat)
    requires VolumeOk(vol) && Overwrites(vol, i, o, data, vol') && j < |vol.inodes| && b < DIRECT
    requires vol.inodes[j].direct[b] != 0 && (j != i || b != o / BLOCK_SIZE)
    ensures vol.inodes[j].direct[b] != vol.inodes[i].direct[o / BLOCK_SIZE]
  {
    hide Splice, DiskOk;
  }

  lemma PointersThere(vol: Volume, j: nat, p: nat)
    requires VolumeOk(vol) && j < |vol.inodes| && p < vol.inodes[j].size
    ensures |vol.inodes[j].direct| == DIRECT && p / BLOCK_SIZE < DIRECT && vol.inodes[j].direct[p / BLOCK_SIZE] != 0
  {
    PointerBelowSize(vol.inodes[j], p);
  }

  /** Byte `p` of file `j` after the overwrite. */
  lemma OverwriteByte(vol: Volume, i: nat, o: nat, data: seq<Byte>, vol': Volume, j: nat, p: nat)
    requires VolumeOk(vol) && Overwrites(vol, i, o, data, vol') && VolumeOk(vol')
    requires j < |vol.inodes| && p < vol'.inodes[j].size
    ensures Content(vol', j)[p] ==
            if j == i then Splice(Content(vol, i), o, data)[p] else Content(vol, j)[p]
  {
    hide Content, Splice, VolumeOk;
    InodeBounds(vol, i);
    InodeBounds(vol, j);
    ByteInBlock(vol', j, p);
    PointersThere(vol', j, p);
    if j == i && p / BLOCK_SIZE == o / BLOCK_SIZE {
      SameBlock(o, p);
      SpliceAt(Content(vol, i), o, data, p);
      SpliceAt(vol.disk[vol.base + vol.inodes[i].direct[o / BLOCK_SIZE]], o % BLOCK_SIZE, data, p % BLOCK_SIZE);
      if p < vol.inodes[i].size { ByteInBlock(vol, i, p); }
    } else {
      if j == i {
        WithinBlock(o, |data|, p);
        SpliceAt(Content(vol, i), o, data, p);
      }
      OtherBlock(vol, i, o, data, vol', j, p / BLOCK_SIZE);
      ByteInBlock(vol, j, p);
    }
  }

  /** The overwrite splices file `i` and leaves every other file's bytes alone. */
  lemma WriteSplices(vol: Volume, i: nat, o: nat, data: seq<Byte>, vol': Volume)
    requires VolumeOk(vol) && Overwrites(vol, i, o, data, vol')
    ensures VolumeOk(vol')
    ensures Contents(vol') == Contents(vol)[i := Splice(Content(vol, i), o, data)]
  {
    hide Content, VolumeOk;
    OverwriteKeepsVolume(vol, i, o, data, vol');
    forall j: nat | j < |vol.inodes|
      ensures Content(vol', j) == if j == i then Splice(Content(vol, i), o, data) else Content(vol, j)
    {
      forall p: nat | p < vol'.inodes[j].size
        ensures Content(vol', j)[p] == if j == i then Splice(Content(vol, i), o, data)[p] else Content(vol, j)[p]
      {
        OverwriteByte(vol, i, o, data, vol', j, p);
      }
    }
  }

  /** Claiming a clear bit keeps every inode well formed, and no inode pointed at the claimed block. */
  lemma ClaimKeepsInode(units: seq<Unit>, total: nat, n: nat, ino: Inode)
    requires InodeOk(units, total, ino) && n / 8 < |units| && !Test(units, 8, n)
    ensures InodeOk(Set(units, 8, n), total, ino)
    ensures forall b: nat :: b < DIRECT && ino.direct[b] != 0 ==> ino.direct[b] != n
  {
    forall b: nat | b < DIRECT && ino.direct[b] != 0 ensures Test(Set(units, 8, n), 8, ino.direct[b]) {
      UpdateIsLocal(units, 8, n, ino.direct[b]);
    }
  }

  /** The volume after claiming block `n` and attaching it to an empty pointer. */
  ghost predicate Attaches(vol: Volume, i: nat, b: nat, n: nat, vol': Volume)
    requires VolumeOk(vol)
  {
    && i < |vol.inodes| && b < DIRECT && vol.inodes[i].direct[b] == 0
    && 0 < n < vol.total && n / 8 < |vol.units| && !Test(vol.units, 8, n)
    && var ino := vol.inodes[i];
    vol' == vol.(units := Set(vol.units, 8, n),
                 inodes := vol.inodes[i := Inode(ino.size, ino.blocks + 1, ino.direct[b := n])])
  }

  lemma AttachKeepsVolume(vol: Volume, i: nat, b: nat, n: nat, vol': Volume)
    requires VolumeOk(vol) && Attaches(vol, i, b, n, vol')
    ensures VolumeOk(vol')
  {
    UpdateIsLocal(vol.units, 8, n, n);
    UpdateIsLocal(vol.units, 8, n, 0);
    forall j: nat | j < |vol.inodes|
      ensures InodeOk(vol'.units, vol.total, vol'.inodes[j])
      ensures forall c: nat :: c < DIRECT && vol.inodes[j].direct[c] != 0 ==> vol.inodes[j].direct[c] != n
    {
      ClaimKeepsInode(vol.units, vol.total, n, vol.inodes[j]);
    }
  }

  /** Attaching a block keeps every file's bytes. */
  lemma AttachBlock(vol: Volume, i: nat, b: nat, n: nat, vol': Volume)
    requires VolumeOk(vol) && Attaches(vol, i, b, n, vol')
    ensures VolumeOk(vol') && Contents(vol') == Contents(vol)
  {
    AttachKeepsVolume(vol, i, b, n, vol');
    forall j: nat | j < |vol.inodes| ensures Content(vol', j) == Content(vol, j) {
      hide Disjoint, VolumeOk;
      forall p: nat | p < vol.inodes[j].size ensures Content(vol', j)[p] == Content(vol, j)[p] {
        ByteInBlock(vol, j, p);
        ByteInBlock(vol', j, p);
        AttachKeepsPointer(vol, i, b, n, vol', j, p);
      }
    }
  }

  lemma AttachKeepsPointer(vol: Volume, i: nat, b: nat, n: nat, vol': Volume, j: nat, p: nat)
    requires VolumeOk(vol) && Attaches(vol, i, b, n, vol') && VolumeOk(vol')
    requires j < |vol.inodes| && p < vol.inodes[j].size
    ensures p / BLOCK_SIZE < DIRECT
    ensures vol'.inodes[j].direct[p / BLOCK_SIZE] == vol.inodes[j].direct[p / BLOCK_SIZE]
  {
    PointerBelowSize(vol.inodes[j], p);
  }

  // ----- how many blocks a write takes -----

  /** The positions at which an inode has a block. */
  ghost function Have(ino: Inode): set<nat> {
    set b: nat | b < DIRECT && b < |ino.direct| && ino.direct[b] != 0
  }

  /** A write of `k` bytes at offset `o` touches position `b`. */
  predicate Touches(o: nat, k: nat, b: nat) { 0 < k && o / BLOCK_SIZE <= b <= (o + k - 1) / BLOCK_SIZE }

  ghost function Touched(o: nat, k: nat): set<nat> {
    set b: nat | b < DIRECT && Touches(o, k, b)
  }

  /** The number of positions from `lo` up to `hi` without a block. */
  ghost function Missing(have: set<nat>, lo: nat, hi: nat): nat
    requires lo <= hi
    decreases hi
  {
    if lo == hi then 0 else Missing(have, lo, hi - 1) + if hi - 1 in have then 0 else 1
  }

  /** The number of blocks a write of `k` bytes at offset `o` has to allocate. */
  ghost function BlocksNeeded(have: set<nat>, o: nat, k: nat): nat {
    if k == 0 then 0 else Missing(have, o / BLOCK_SIZE, (o + k - 1) / BLOCK_SIZE + 1)
  }

  /** `k` is the longest prefix of `count` bytes that 12 blocks and the free blocks admit. */
  ghost predicate LongestWritable(have: set<nat>, free: int, o: nat, count: nat, k: nat) {
    && k <= count && o + k <= MAX_SIZE && BlocksNeeded(have, o, k) <= free
    && (k == count || o + k == MAX_SIZE || BlocksNeeded(have, o, k + 1) > free)
  }

  /** The next chunk of a write needs one block more exactly when its position has none. */
  lemma NeededStep(have: set<nat>, o: nat, w: nat, n: nat)
    requires 0 < n && (w == 0 || (o + w) % BLOCK_SIZE == 0)
    requires (o + w) % BLOCK_SIZE + n <= BLOCK_SIZE
    ensures BlocksNeeded(have, o, w + n) ==
            BlocksNeeded(have, o, w) + if (o + w) / BLOCK_SIZE in have then 0 else 1
  {
    var b := (o + w) / BLOCK_SIZE;
    assert (o + w + n - 1) / BLOCK_SIZE == b;
    if w > 0 {
      assert (o + w - 1) / BLOCK_SIZE + 1 == b;
    }
    assert Missing(have, b, b) == 0;
  }

  /** Where a write of `count` bytes at `o` stands after `w` of them: at a block boundary unless at
      either end, with a block at every position touched so far. */
  ghost predicate Progress(before: set<nat>, have: set<nat>, o: nat, w: nat, count: nat) {
    && o + w <= MAX_SIZE
    && (w == 0 || w == count || (o + w) % BLOCK_SIZE == 0)
    && have == before + Touched(o, w)
  }

  /** The next chunk takes one more block exactly when its position has none, and getting it one keeps
      the progress condition. */
  lemma Advance(before: set<nat>, have: set<nat>, o: nat, w: nat, count: nat)
    requires Progress(before, have, o, w, count) && w < count && (o + w) / BLOCK_SIZE < DIRECT
    ensures var b, n := (o + w) / BLOCK_SIZE, Min(BLOCK_SIZE - (o + w) % BLOCK_SIZE, count - w);
      && Progress(before, have + {b}, o, w + n, count)
      && BlocksNeeded(before, o, w + n) == BlocksNeeded(before, o, w + 1)
           == BlocksNeeded(before, o, w) + if b in have then 0 else 1
  {
    hide BlocksNeeded;
    var b, n := (o + w) / BLOCK_SIZE, Min(BLOCK_SIZE - (o + w) % BLOCK_SIZE, count - w);
    if n < count - w {
      assert o + w + n == (b + 1) * BLOCK_SIZE;
    }
    TouchedStep(o, w, n);
    assert have + {b} == before + Touched(o, w + n);
    NeededStep(before, o, w, 1);
    NeededStep(before, o, w, n);
  }

  lemma TouchedStep(o: nat, w: nat, n: nat)
    requires 0 < n && (w == 0 || (o + w) % BLOCK_SIZE == 0) && (o + w) / BLOCK_SIZE < DIRECT
    requires (o + w) % BLOCK_SIZE + n <= BLOCK_SIZE
    ensures (o + w) / BLOCK_SIZE !in Touched(o, w)
    ensures Touched(o, w + n) == Touched(o, w) + {(o + w) / BLOCK_SIZE}
  {
    var b := (o + w) / BLOCK_SIZE;
    assert (o + w + n - 1) / BLOCK_SIZE == b;
    assert w > 0 ==> (o + w - 1) / BLOCK_SIZE + 1 == b;
  }

  lemma ProgressTouched(before: set<nat>, have: set<nat>, o: nat, w: nat, count: nat)
    requires Progress(before, have, o, w, count)
    ensures have == before + Touched(o, w)
  {
  }

  lemma NothingYet(file: seq<Byte>, have: set<nat>, o: nat, buf: seq<Byte>)
    requires o <= |file| && o <= MAX_SIZE
    ensures Splice(file, o, buf[..0]) == file && Progress(have, have, o, 0, |buf|) && BlocksNeeded(have, o, 0) == 0
  {
    assert Touched(o, 0) == {};
  }

  lemma {:induction false} MissingGrows(have: set<nat>, lo: nat, mid: nat, hi: nat)
    requires lo <= mid <= hi
    ensures Missing(have, lo, mid) <= Missing(have, lo, hi)
  {
    if mid == hi {
    } else {
      MissingGrows(have, lo, mid, hi - 1);
    }
  }

  /** The length a write returns is determined by the blocks it has, the free count and the request. */
  lemma LongestWritableIsUnique(have: set<nat>, free: int, o: nat, count: nat, k: nat, l: nat)
    requires LongestWritable(have, free, o, count, k) && LongestWritable(have, free, o, count, l)
    ensures k == l
  {
    if k < l {
      MissingGrows(have, o / BLOCK_SIZE, (o + k) / BLOCK_SIZE + 1, (o + l - 1) / BLOCK_SIZE + 1);
    } else if l < k {
      MissingGrows(have, o / BLOCK_SIZE, (o + l) / BLOCK_SIZE + 1, (o + k - 1) / BLOCK_SIZE + 1);
    }
  }

  // ----- how many bytes a read asks for -----

  /** file_read's clipping, with the 32-bit addition it uses. */
  function BytesToRead(offset: nat, size: nat, count: nat): nat
    requires offset < size
  {
    if (offset + count) % TWO32 > size then size - offset else count
  }

  /** The clip keeps the read inside the file exactly when the addition does not wrap. */
  lemma ClipIsExact(offset: nat, size: nat, count: nat)
    requires offset < size < TWO32 && count < TWO32
    ensures BytesToRead(offset, size, count) == Min(count, size - offset) <==> offset + count < TWO32
  {
    if offset + count >= TWO32 {
      assert (offset + count) % TWO32 == offset + count - TWO32;
    }
  }

  /** A request that wraps is not clipped at all. */
  lemma WrappedReadOverruns()
    ensures BytesToRead(1, 2, TWO32 - 1) == TWO32 - 1
  {
    assert (1 + (TWO32 - 1)) % TWO32 == 0;
  }

  /** Where file_seek leaves the offset: the target, wrapped to 32 bits and clamped to the size, or
      the old offset when `whence` is unknown. */
  function SeekTarget(current: nat, size: nat, offset: nat, whence: int): nat {
    match whence
    case 0 => Min(offset, size)
    case 1 => Min((current + offset) % TWO32, size)
    case 2 => size
    case _ => current
  }

  // ----- the mounted filesystem -----

  /** An open file's node. `offset` is the field file_read and file_write move. */
  class Vnode {
    const inode: nat
    var offset: nat

    constructor (inode: nat)
      ensures this.inode == inode && offset == 0
    {
      this.inode := inode;
      offset := 0;
    }
  }

  class FileSystem {
    const totalBlocks: nat
    const inodeCount: nat
    const dataBlocks: nat
    var freeBlocks: int
    var freeInodes: int
    var blockBitmap: seq<Unit>
    var inodeBitmap: seq<Unit>
    var inodeTable: seq<Inode>
    const diskBuffer: array<Byte>
    var disk: Disk

    /** The superblock's counters agree with the bitmaps. */
    ghost predicate CountersOk()
      reads this
    {
      && Covers(blockBitmap, 8, totalBlocks)
      && Covers(inodeBitmap, 8, inodeCount)
      && freeBlocks == CountClear(blockBitmap, 8, totalBlocks)
      && freeInodes == CountClear(inodeBitmap, 8, inodeCount)
    }

    ghost function Vol(): Volume
      reads this
    {
      Volume(disk, dataBlocks, totalBlocks, blockBitmap, inodeTable)
    }

    ghost predicate Valid()
      reads this
    {
      CountersOk() && diskBuffer.Length == BLOCK_SIZE && VolumeOk(Vol())
    }

    ghost function Files(): (files: seq<seq<Byte>>)
      requires Valid()
      reads this
      ensures |files| == |inodeTable|
      ensures forall i: nat :: i < |files| ==> |files[i]| == inodeTable[i].size
    {
      Contents(Vol())
    }

    /** solixfs_init once the superblock's magic matched: the volume, the inode bitmap and the free
        counters as they are on the disk. What is mounted is valid exactly when the volume is and the
        counters are right. */
    constructor (vol: Volume, inodeBitmap: seq<Unit>, inodeCount: nat, freeBlocks: int, freeInodes: int)
      ensures Vol() == vol && this.inodeBitmap == inodeBitmap && this.inodeCount == inodeCount
      ensures this.freeBlocks == freeBlocks && this.freeInodes == freeInodes && fresh(diskBuffer)
      ensures Valid() <==>
                && VolumeOk(vol) && Covers(inodeBitmap, 8, inodeCount)
                && freeBlocks == CountClear(vol.units, 8, vol.total)
                && freeInodes == CountClear(inodeBitmap, 8, inodeCount)
    {
      totalBlocks, dataBlocks := vol.total, vol.base;
      blockBitmap, inodeTable, disk := vol.units, vol.inodes, vol.disk;
      this.inodeBitmap, this.inodeCount := inodeBitmap, inodeCount;
      this.freeBlocks, this.freeInodes := freeBlocks, freeInodes;
      diskBuffer := new Byte[BLOCK_SIZE];
    }

    /** What holds of inode `i` and of the counter in every valid state. */
    lemma Bounds(i: nat)
      requires Valid() && i < |inodeTable|
      ensures |inodeTable[i].direct| == DIRECT && inodeTable[i].size <= MAX_SIZE && freeBlocks >= 0
    {
    }

    /** Claims the lowest clear bit. Block 0 doubles as the failure value, so 0 is returned both when
        no bit is clear and when bit 0 was. */
    method AllocBlock() returns (block: nat)
      requires CountersOk()
      modifies this`freeBlocks, this`blockBitmap
      ensures CountersOk()
      ensures old(freeBlocks) == 0 ==>
                block == 0 && blockBitmap == old(blockBitmap) && freeBlocks == 0
      ensures old(freeBlocks) > 0 ==>
                && block < totalBlocks && block / 8 < |blockBitmap|
                && !Test(old(blockBitmap), 8, block)
                && (forall i: nat :: i < block ==> i / 8 < |blockBitmap| && Test(old(blockBitmap), 8, i))
                && blockBitmap == Set(old(blockBitmap), 8, block)
                && freeBlocks == old(freeBlocks) - 1
    {
      CountExtremes(blockBitmap, 8, totalBlocks);
      for i := 0 to totalBlocks
        invariant blockBitmap == old(blockBitmap) && freeBlocks == old(freeBlocks)
        invariant forall j: nat :: j < i ==> j / 8 < |blockBitmap| && Test(blockBitmap, 8, j)
      {
        InRange(blockBitmap, 8, totalBlocks, i);
        var byte, bit := i / 8, i % 8;
        if bit !in blockBitmap[byte] {
          CountAfterUpdate(blockBitmap, 8, totalBlocks, i);
          blockBitmap := blockBitmap[byte := blockBitmap[byte] + {bit}];
          freeBlocks := freeBlocks - 1;
          return i;
        }
      }
      return 0;
    }

    /** Clears the bit of a block; the counter moves only when the bit was set, so a repeated free
        changes nothing. Only a set bit in the bitmap's last byte that stands for no block upsets it. */
    method FreeBlock(block: nat)
      requires CountersOk() && block / 8 < |blockBitmap|
      modifies this`freeBlocks, this`blockBitmap
      ensures CountersOk() <==> block < totalBlocks || !Test(old(blockBitmap), 8, block)
      ensures block / 8 < |blockBitmap| && blockBitmap == Clear(old(blockBitmap), 8, block)
      ensures freeBlocks == old(freeBlocks) + if Test(old(blockBitmap), 8, block) then 1 else 0
    {
      CountAfterUpdate(blockBitmap, 8, totalBlocks, block);
      var byte, bit := block / 8, block % 8;
      if bit in blockBitmap[byte] {
        blockBitmap := blockBitmap[byte := blockBitmap[byte] - {bit}];
        freeBlocks := freeBlocks + 1;
      } else {
        assert blockBitmap[byte] - {bit} == blockBitmap[byte];
      }
    }

    /** Inode numbers are 1-based, so 0 is returned exactly when no inode is free. */
    method AllocInode() returns (inode: nat)
      requires CountersOk()
      modifies this`freeInodes, this`inodeBitmap
      ensures CountersOk()
      ensures inode == 0 <==> old(freeInodes) == 0
      ensures inode == 0 ==> inodeBitmap == old(inodeBitmap)
      ensures inode > 0 ==>
                && inode <= inodeCount && (inode - 1) / 8 < |inodeBitmap|
                && !Test(old(inodeBitmap), 8, inode - 1)
                && (forall i: nat :: i < inode - 1 ==> i / 8 < |inodeBitmap| && Test(old(inodeBitmap), 8, i))
                && inodeBitmap == Set(old(inodeBitmap), 8, inode - 1)
    {
      CountExtremes(inodeBitmap, 8, inodeCount);
      for i := 0 to inodeCount
        invariant inodeBitmap == old(inodeBitmap) && freeInodes == old(freeInodes)
        invariant forall j: nat :: j < i ==> j / 8 < |inodeBitmap| && Test(inodeBitmap, 8, j)
      {
        InRange(inodeBitmap, 8, inodeCount, i);
        var byte, bit := i / 8, i % 8;
        if bit !in inodeBitmap[byte] {
          CountAfterUpdate(inodeBitmap, 8, inodeCount, i);
          inodeBitmap := inodeBitmap[byte := inodeBitmap[byte] + {bit}];
          freeInodes := freeInodes - 1;
          return i + 1;
        }
      }
      return 0;
    }

    /** The same for inodes, which are numbered from 1; 0 changes nothing. */
    method FreeInode(inode: nat)
      requires CountersOk() && (inode > 0 ==> (inode - 1) / 8 < |inodeBitmap|)
      modifies this`freeInodes, this`inodeBitmap
      ensures CountersOk() <==> inode <= inodeCount || !Test(old(inodeBitmap), 8, inode - 1)
      ensures inode == 0 ==> inodeBitmap == old(inodeBitmap)
      ensures inode > 0 ==>
                (inode - 1) / 8 < |inodeBitmap| && inodeBitmap == Clear(old(inodeBitmap), 8, inode - 1)
    {
      if inode == 0 { return; }
      var index := inode - 1;
      CountAfterUpdate(inodeBitmap, 8, inodeCount, index);
      var byte, bit := index / 8, index % 8;
      if bit in inodeBitmap[byte] {
        inodeBitmap := inodeBitmap[byte := inodeBitmap[byte] - {bit}];
        freeInodes := freeInodes + 1;
      } else {
        assert inodeBitmap[byte] - {bit} == inodeBitmap[byte];
      }
    }

    method ReadBlock(block: nat)
      requires diskBuffer.Length == BLOCK_SIZE && dataBlocks + block < |disk|
      requires |disk[dataBlocks + block]| == BLOCK_SIZE
      modifies diskBuffer
      ensures diskBuffer[..] == disk[dataBlocks + block]
    {
      Copy(diskBuffer, 0, disk[dataBlocks + block]);
    }

    method WriteBlock(block: nat)
      requires diskBuffer.Length == BLOCK_SIZE && dataBlocks + block < |disk|
      modifies this`disk
      ensures disk == old(disk)[dataBlocks + block := diskBuffer[..]]
    {
      disk := disk[dataBlocks + block := diskBuffer[..]];
    }

    /** The byte a read finds at position `p` of file `i`. */
    ghost function Raw(i: nat, p: nat): Byte
      requires Valid() && i < |inodeTable| && p < MAX_SIZE
      reads this
    {
      RawByte(Vol(), i, p)
    }

    lemma RawIsFile(i: nat)
      requires Valid() && i < |inodeTable|
      ensures |Files()[i]| <= MAX_SIZE && forall p: nat :: p < |Files()[i]| ==> Files()[i][p] == Raw(i, p)
    {
      hide Content, VolumeOk, CountersOk;
      Bounds(i);
      forall p: nat | p < |Files()[i]| ensures Files()[i][p] == Raw(i, p) {
        RawByteBelowSize(Vol(), i, p);
      }
    }

    /** A buffer that was `was` holds the `n` bytes from position `o` of file `i`, and is untouched behind
        them. */
    ghost predicate Delivered(buf: seq<Byte>, was: seq<Byte>, i: nat, o: nat, n: nat)
      requires Valid() && i < |inodeTable|
      reads this
    {
      && n <= |buf| == |was| && o + n <= MAX_SIZE
      && (forall p: nat :: p < n ==> buf[p] == Raw(i, o + p))
      && buf[n..] == was[n..]
    }

    lemma DeliveredMore(buf: seq<Byte>, buf': seq<Byte>, data: seq<Byte>, was: seq<Byte>, i: nat, o: nat, n: nat)
      requires Valid() && i < |inodeTable| && Delivered(buf, was, i, o, n)
      requires o + n + |data| <= MAX_SIZE && n + |data| <= |buf| && buf' == buf[..n] + data + buf[n + |data|..]
      requires forall k: nat :: k < |data| ==> data[k] == Raw(i, o + n + k)
      ensures Delivered(buf', was, i, o, n + |data|)
    {
      hide Valid, Raw;
      forall p: nat | p < n + |data| ensures buf'[p] == Raw(i, o + p) {
        if p >= n { assert data[p - n] == Raw(i, o + n + (p - n)); }
      }
      assert buf[n + |data|..] == buf[n..][|data|..] && was[n + |data|..] == was[n..][|data|..];
    }

    lemma NothingDelivered(was: seq<Byte>, i: nat, o: nat)
      requires Valid() && i < |inodeTable| && o <= MAX_SIZE
      ensures Delivered(was, was, i, o, 0)
    {
    }

    lemma DeliveredWithin(buf: seq<Byte>, was: seq<Byte>, i: nat, o: nat, n: nat)
      requires Valid() && i < |inodeTable| && Delivered(buf, was, i, o, n)
      ensures n <= |buf| == |was| && o + n <= MAX_SIZE
    {
    }

    /** What was delivered below the size is the file's. */
    lemma DeliveredBytes(buf: seq<Byte>, was: seq<Byte>, i: nat, o: nat, n: nat)
      requires Valid() && i < |inodeTable| && Delivered(buf, was, i, o, n)
      ensures n <= |buf| == |was| && buf[n..] == was[n..]
      ensures forall p: nat :: p < n && o + p < |Files()[i]| ==> buf[p] == Files()[i][o + p]
    {
      hide Valid, Files, Raw;
      RawIsFile(i);
    }

    /** One pass of file_read's loop: copies `n` bytes of the block under the offset to `buffer[at..]`. */
    method GetChunk(v: Vnode, buffer: array<Byte>, at: nat, n: nat, ghost was: seq<Byte>, ghost o: nat)
      requires Valid() && v.inode < |inodeTable| && buffer != diskBuffer
      requires v.offset % BLOCK_SIZE + n <= BLOCK_SIZE && v.offset / BLOCK_SIZE < DIRECT && at + n <= buffer.Length
      requires v.offset == o + at && Delivered(buffer[..], was, v.inode, o, at)
      modifies v`offset, buffer, diskBuffer
      ensures v.offset == old(v.offset) + n && Delivered(buffer[..], was, v.inode, o, at + n)
    {
      hide Content, VolumeOk, CountersOk, Delivered;
      InodeBounds(Vol(), v.inode);
      var offsetInBlock, block := v.offset % BLOCK_SIZE, inodeTable[v.inode].direct[v.offset / BLOCK_SIZE];
      ReadBlock(block);
      ghost var data, before := diskBuffer[offsetInBlock..offsetInBlock + n], buffer[..];
      Copy(buffer, at, diskBuffer[offsetInBlock..offsetInBlock + n]);
      forall k: nat | k < n ensures o + at + k < MAX_SIZE && data[k] == Raw(v.inode, o + at + k) {
        InBlock(v.offset, k);
      }
      if n > 0 { InBlock(v.offset, n - 1); }
      DeliveredMore(before, buffer[..], data, was, v.inode, o, at);
      v.offset := v.offset + n;
    }

    /** Reads at the vnode's offset. Without wrap-around of offset + count the result is the slice of
        the file that remains, at most `count` bytes of it. In every case the bytes are those of the
        blocks under the pointers, block 0 for an empty one; below the size they are the file's. */
    method FileRead(v: Vnode, buffer: array<Byte>, count: nat) returns (bytesRead: nat)
      requires Valid() && v.inode < |inodeTable|
      requires buffer != diskBuffer && count <= buffer.Length && count < TWO32
      modifies v`offset, buffer, diskBuffer
      ensures v.offset == old(v.offset) + bytesRead
      ensures old(v.offset) >= |Files()[v.inode]| ==> bytesRead == 0
      ensures old(v.offset) < |Files()[v.inode]| ==>
                bytesRead == Min(BytesToRead(old(v.offset), |Files()[v.inode]|, count), MAX_SIZE - old(v.offset))
      ensures bytesRead <= count
      ensures bytesRead == 0 || Delivered(buffer[..], old(buffer[..]), v.inode, old(v.offset), bytesRead)
      ensures forall p: nat :: p < bytesRead && old(v.offset) + p < |Files()[v.inode]| ==>
                buffer[p] == Files()[v.inode][old(v.offset) + p]
      ensures buffer[bytesRead..] == old(buffer[..])[bytesRead..]
    {
      hide Valid, Files, Vol, CountersOk, Raw, Delivered;
      Bounds(v.inode);
      RawIsFile(v.inode);
      ghost var o, was := v.offset, buffer[..];
      if v.offset >= inodeTable[v.inode].size { return 0; }
      var bytesToRead := count;
      if (v.offset + bytesToRead) % TWO32 > inodeTable[v.inode].size {
        bytesToRead := inodeTable[v.inode].size - v.offset;
      }
      bytesRead := 0;
      NothingDelivered(was, v.inode, o);
      while bytesRead < bytesToRead
        invariant bytesRead <= bytesToRead <= count
        invariant v.offset == o + bytesRead <= MAX_SIZE && Delivered(buffer[..], was, v.inode, o, bytesRead)
        decreases bytesToRead - bytesRead
      {
        var blockOffset, offsetInBlock := v.offset / BLOCK_SIZE, v.offset % BLOCK_SIZE;
        var bytesInBlock := BLOCK_SIZE - offsetInBlock;
        if bytesInBlock > bytesToRead - bytesRead {
          bytesInBlock := bytesToRead - bytesRead;
        }
        if blockOffset >= DIRECT { break; }
        DeliveredWithin(buffer[..], was, v.inode, o, bytesRead);
        GetChunk(v, buffer, bytesRead, bytesInBlock, was, o);
        DeliveredWithin(buffer[..], was, v.inode, o, bytesRead + bytesInBlock);
        bytesRead := bytesRead + bytesInBlock;
      }
      DeliveredBytes(buffer[..], was, v.inode, o, bytesRead);
    }

    /** The allocation step of file_write: gives block `b` of inode `i` a block when it has none. */
    method EnsureBlock(i: nat, b: nat) returns (ok: bool)
      requires Valid() && i < |inodeTable| && b < DIRECT
      modifies this`freeBlocks, this`blockBitmap, this`inodeTable
      ensures Valid() && |inodeTable| == old(|inodeTable|)
      ensures ok <==> old(inodeTable[i].direct[b] != 0 || freeBlocks > 0)
      ensures var ino := old(inodeTable)[i];
        if ok && ino.direct[b] == 0 then
          && freeBlocks == old(freeBlocks) - 1
          && inodeTable[i].direct[b] != 0
          && inodeTable[i] == Inode(ino.size, ino.blocks + 1, ino.direct[b := inodeTable[i].direct[b]])
          && inodeTable == old(inodeTable)[i := inodeTable[i]]
        else freeBlocks == old(freeBlocks) && inodeTable == old(inodeTable)
      ensures Files() == old(Files())
    {
      var file := inodeTable[i];
      if file.direct[b] == 0 {
        var newBlock := AllocBlock();
        if newBlock == 0 { return false; }
        inodeTable := inodeTable[i := Inode(file.size, file.blocks + 1, file.direct[b := newBlock])];
        AttachBlock(old(Vol()), i, b, newBlock, Vol());
      }
      return true;
    }

    /** The copying step of file_write: lays `data` over the block under the vnode's offset. */
    method WriteChunk(v: Vnode, data: seq<Byte>)
      requires Valid() && v.inode < |inodeTable| && v.offset <= inodeTable[v.inode].size
      requires 0 < |data| && v.offset % BLOCK_SIZE + |data| <= BLOCK_SIZE
      requires v.offset / BLOCK_SIZE < DIRECT && inodeTable[v.inode].direct[v.offset / BLOCK_SIZE] != 0
      modifies this`disk, this`inodeTable, v`offset, diskBuffer
      ensures Valid() && |inodeTable| == old(|inodeTable|)
      ensures v.offset == old(v.offset) + |data|
      ensures inodeTable == old(inodeTable)[v.inode := inodeTable[v.inode]]
      ensures inodeTable[v.inode] == old(inodeTable[v.inode]).(size := inodeTable[v.inode].size)
      ensures Files() == old(Files())[v.inode := Splice(old(Files()[v.inode]), old(v.offset), data)]
    {
      hide Content, VolumeOk, CountClear;
      InodeBounds(Vol(), v.inode);
      var file := inodeTable[v.inode];
      var blockOffset, offsetInBlock := v.offset / BLOCK_SIZE, v.offset % BLOCK_SIZE;
      var n := file.direct[blockOffset];
      if offsetInBlock > 0 || |data| < BLOCK_SIZE {
        ReadBlock(n);
      }
      Copy(diskBuffer, offsetInBlock, data);
      assert diskBuffer[..] == Splice(disk[dataBlocks + n], offsetInBlock, data);
      WriteBlock(n);
      v.offset := v.offset + |data|;
      var file' := if v.offset > file.size then file.(size := v.offset) else file;
      inodeTable := inodeTable[v.inode := file'];
      WriteSplices(old(Vol()), v.inode, old(v.offset), data, Vol());
    }

    /** One pass of file_write's loop: allocate the block under the offset when there is none, then
        write the next `n` bytes of `buf` to it. Nothing changes when no block can be had. */
    method PutChunk(v: Vnode, buf: seq<Byte>, w: nat) returns (n: nat)
      requires Valid() && v.inode < |inodeTable| && v.offset <= inodeTable[v.inode].size
      requires w < |buf| && v.offset / BLOCK_SIZE < DIRECT
      modifies this`freeBlocks, this`disk, this`blockBitmap, this`inodeTable, v`offset, diskBuffer
      ensures Valid() && |inodeTable| == old(|inodeTable|)
      ensures n == 0 <==> old(v.offset / BLOCK_SIZE !in Have(inodeTable[v.inode]) && freeBlocks == 0)
      ensures n == 0 ==> Files() == old(Files()) && inodeTable == old(inodeTable) &&
                         freeBlocks == old(freeBlocks) && v.offset == old(v.offset)
      ensures n > 0 ==>
                var ino, ino', b := old(inodeTable)[v.inode], inodeTable[v.inode], old(v.offset) / BLOCK_SIZE;
                && n == Min(BLOCK_SIZE - old(v.offset) % BLOCK_SIZE, |buf| - w)
                && Files() == old(Files())[v.inode := Splice(old(Files())[v.inode], old(v.offset), buf[w..w + n])]
                && v.offset == old(v.offset) + n
                && inodeTable == old(inodeTable)[v.inode := ino']
                && Have(ino') == Have(ino) + {b}
                && freeBlocks == old(freeBlocks) - (if b in Have(ino) then 0 else 1)
                && ino'.blocks - ino.blocks == old(freeBlocks) - freeBlocks
    {
      hide Valid, Files, Vol, CountersOk, Splice;
      Bounds(v.inode);
      var bytesInBlock := BLOCK_SIZE - v.offset % BLOCK_SIZE;
      if bytesInBlock > |buf| - w {
        bytesInBlock := |buf| - w;
      }
      var ok := EnsureBlock(v.inode, v.offset / BLOCK_SIZE);
      if !ok { return 0; }
      WriteChunk(v, buf[w..w + bytesInBlock]);
      Bounds(v.inode);
      return bytesInBlock;
    }

    /** Writes at the vnode's offset, which file_seek keeps at or below the size. The file becomes the
        splice of its old bytes with the longest prefix of `buf` that fits; other files keep their
        bytes. */
    method FileWrite(v: Vnode, buf: seq<Byte>) returns (bytesWritten: nat)
      requires Valid() && v.inode < |inodeTable| && v.offset <= |Files()[v.inode]|
      modifies this`freeBlocks, this`disk, this`blockBitmap, this`inodeTable, v`offset, diskBuffer
      ensures Valid() && |inodeTable| == old(|inodeTable|)
      ensures LongestWritable(old(Have(inodeTable[v.inode])), old(freeBlocks), old(v.offset), |buf|, bytesWritten)
      ensures Files() == old(Files())[v.inode := Splice(old(Files()[v.inode]), old(v.offset), buf[..bytesWritten])]
      ensures v.offset == old(v.offset) + bytesWritten
      ensures inodeTable == old(inodeTable)[v.inode := inodeTable[v.inode]]
      ensures freeBlocks == old(freeBlocks) -
                BlocksNeeded(old(Have(inodeTable[v.inode])), old(v.offset), bytesWritten)
      ensures Have(inodeTable[v.inode]) == old(Have(inodeTable[v.inode])) + Touched(old(v.offset), bytesWritten)
      ensures inodeTable[v.inode].blocks - old(inodeTable[v.inode].blocks) == old(freeBlocks) - freeBlocks
    {
      hide Valid, Files, Vol, CountersOk, Missing, Have, Splice, BlocksNeeded;
      Bounds(v.inode);
      bytesWritten := 0;
      ghost var o, ino, files := v.offset, inodeTable[v.inode], Files();
      NothingYet(files[v.inode], Have(ino), o, buf);
      hide Progress;
      while bytesWritten < |buf|
        invariant Valid() && |inodeTable| == old(|inodeTable|)
        invariant bytesWritten <= |buf| && v.offset == o + bytesWritten <= inodeTable[v.inode].size <= MAX_SIZE
        invariant Files() == files[v.inode := Splice(files[v.inode], o, buf[..bytesWritten])]
        invariant inodeTable == old(inodeTable)[v.inode := inodeTable[v.inode]]
        invariant freeBlocks == old(freeBlocks) - BlocksNeeded(Have(ino), o, bytesWritten)
        invariant inodeTable[v.inode].blocks - ino.blocks == old(freeBlocks) - freeBlocks
        invariant Progress(Have(ino), Have(inodeTable[v.inode]), o, bytesWritten, |buf|)
        decreases |buf| - bytesWritten
      {
        var blockOffset := v.offset / BLOCK_SIZE;
        if blockOffset >= DIRECT { break; }
        Advance(Have(ino), Have(inodeTable[v.inode]), o, bytesWritten, |buf|);
        var n := PutChunk(v, buf, bytesWritten);
        Bounds(v.inode);
        if n == 0 { break; }
        SpliceNext(files[v.inode], o, buf, bytesWritten, n);
        bytesWritten := bytesWritten + n;
      }
      Bounds(v.inode);
      ProgressTouched(Have(ino), Have(inodeTable[v.inode]), o, bytesWritten, |buf|);
    }

    /** Moves the offset; every successful seek leaves it at or below the size. */
    method FileSeek(v: Vnode, offset: nat, whence: int) returns (status: int)
      requires Valid() && v.inode < |inodeTable| && v.offset < TWO32 && offset < TWO32
      modifies v`offset
      ensures status == 0 <==> whence in {0, 1, 2}
      ensures status == 0 || status == -1
      ensures v.offset == SeekTarget(old(v.offset), |Files()[v.inode]|, offset, whence)
      ensures var size := |Files()[v.inode]|;
        && (whence == 0 ==> v.offset == if offset <= size then offset else size)
        && (whence == 1 && old(v.offset) + offset <= size ==> v.offset == old(v.offset) + offset)
        && (whence == 1 && size < old(v.offset) + offset < TWO32 ==> v.offset == size)
        && (whence == 1 && TWO32 <= old(v.offset) + offset <= TWO32 + size ==>
              v.offset == old(v.offset) + offset - TWO32)
        && (whence == 2 ==> v.offset == size)
        && (whence !in {0, 1, 2} ==> v.offset == old(v.offset))
    {
      match whence {
        case 0 => v.offset := offset;
        case 1 => v.offset := (v.offset + offset) % TWO32;
        case 2 => v.offset := inodeTable[v.inode].size;
        case _ => return -1;
      }
      if v.offset > inodeTable[v.inode].size {
        v.offset := inodeTable[v.inode].size;
      }
      return 0;
    }
  }

  /** memcpy of `src` into `dst` from position `at`. */
  method Copy(dst: array<Byte>, at: nat, src: seq<Byte>)
    requires at + |src| <= dst.Length
    modifies dst
    ensures dst[..] == old(dst[..at]) + src + old(dst[at + |src|..])
  {
    ghost var was := dst[..];
    assert Copied(was, at, src, |src|) == was[..at] + src + was[at + |src|..];
    hide Copied;
    CopyStart(was, at, src);
    for i := 0 to |src|
      invariant dst[..] == Copied(was, at, src, i)
    {
      CopyStep(was, at, src, i);
      dst[at + i] := src[i];
    }
  }
}
