/** The physical frame allocator: a bitmap of 32-bit words searched next-fit from the last allocation.
 */
module Frames {
  import opened Bitmap
  import opened Division
  import opened Machine

  class FrameAllocator {
    const bitmap: array<Unit>
    const totalFrames: nat
    var usedFrames: int
    var lastAllocFrame: nat

    /** The allocator as paging_init leaves it, for `memSize` bytes of memory. */
    constructor (memSize: nat)
      requires memSize >= PAGE_SIZE
      ensures Valid() && Owned() == {} && totalFrames == memSize / PAGE_SIZE && lastAllocFrame == 0
      ensures fresh(bitmap)
    {
      totalFrames := memSize / PAGE_SIZE;
      usedFrames := 0;
      lastAllocFrame := 0;
      bitmap := new Unit[(memSize / PAGE_SIZE + 31) / 32](_ => {});
      new;
      CountExtremes(bitmap[..], 32, totalFrames);
      assert forall i: nat :: i < totalFrames ==> i / 32 < |bitmap[..]| && !Test(bitmap[..], 32, i);
    }

    ghost predicate Valid()
      reads this, bitmap
    {
      && 0 < totalFrames && Covers(bitmap[..], 32, totalFrames)
      && lastAllocFrame < totalFrames
      && usedFrames == CountSet(bitmap[..], 32, totalFrames)
    }

    ghost function Owned(): set<nat>
      requires Valid()
      reads this, bitmap
    {
      Ones(bitmap[..], 32, totalFrames)
    }

    /** How far `f` is ahead of `start` in the cyclic search. */
    ghost function Distance(start: nat, f: nat): int {
      if f >= start then f - start else f + totalFrames - start
    }

    /** Every frame the search meets before `f` is owned. */
    ghost predicate OwnedBefore(f: nat)
      requires Valid()
      reads this, bitmap
    {
      forall g: nat :: g < totalFrames && Distance(lastAllocFrame, g) < Distance(lastAllocFrame, f) ==> g in Owned()
    }

    /** The search can end at one frame only. */
    lemma OneFirst(f: nat, g: nat)
      requires Valid() && f < totalFrames && g < totalFrames && f !in Owned() && g !in Owned()
      requires OwnedBefore(f) && OwnedBefore(g)
      ensures f == g
    {
      hide CountSet, Ones;
    }

    lemma OwnedIs(f: nat)
      requires Valid() && f < totalFrames
      ensures f / 32 < bitmap.Length && (f in Owned() <==> f % 32 in bitmap[f / 32])
      ensures Test(bitmap[..], 32, f) <==> f in Owned()
    {
      hide CountSet;
      InRange(bitmap[..], 32, totalFrames, f);
    }

    /** Claims the first frame from the last allocation on, in cyclic order, that nobody owns. A frame is
        claimed exactly when one is clear. The caller sees NULL exactly when none is, or when the frame
        claimed is frame 0. */
    method AllocFrame() returns (address: nat, ghost claimed: bool, ghost frame: nat)
      requires Valid()
      modifies this`usedFrames, this`lastAllocFrame, bitmap
      ensures Valid()
      ensures !claimed ==>
                && (forall f: nat :: f < totalFrames ==> f in old(Owned()))
                && address == 0 && Owned() == old(Owned()) && lastAllocFrame == old(lastAllocFrame)
      ensures claimed ==>
                && frame < totalFrames && frame !in old(Owned()) && Owned() == old(Owned()) + {frame}
                && address == frame * PAGE_SIZE && lastAllocFrame == frame
                && old(OwnedBefore(frame))
      ensures address == 0 <==>
                old((forall f: nat :: f < totalFrames ==> f in Owned()) || (0 !in Owned() && OwnedBefore(0)))
    {
      hide CountSet, Ones, Test;
      var startFrame := lastAllocFrame;
      for i := 0 to totalFrames
        invariant bitmap[..] == old(bitmap[..]) && lastAllocFrame == startFrame && usedFrames == old(usedFrames)
        invariant forall f: nat :: f < totalFrames && Distance(startFrame, f) < i ==> f in Owned()
      {
        WrapOnce(startFrame + i, totalFrames);
        var frameIndex := (startFrame + i) % totalFrames;
        var bitmapIndex, bitIndex := frameIndex / 32, frameIndex % 32;
        OwnedIs(frameIndex);
        if bitIndex !in bitmap[bitmapIndex] {
          CountAfterUpdate(bitmap[..], 32, totalFrames, frameIndex);
          OnesAfterUpdate(bitmap[..], 32, totalFrames, frameIndex);
          assert OwnedBefore(frameIndex);
          if 0 !in Owned() && OwnedBefore(0) { OneFirst(0, frameIndex); }
          bitmap[bitmapIndex] := bitmap[bitmapIndex] + {bitIndex};
          assert bitmap[..] == Set(old(bitmap[..]), 32, frameIndex);
          usedFrames := usedFrames + 1;
          lastAllocFrame := frameIndex;
          return frameIndex * PAGE_SIZE, true, frameIndex;
        }
      }
      return 0, false, 0;
    }

    /** Clears a frame's bit. The counter keeps counting owned frames exactly when the frame was owned. */
    method FreeFrame(address: nat)
      requires Valid() && address / PAGE_SIZE / 32 < bitmap.Length
      modifies this`usedFrames, bitmap
      ensures Valid() <==> address / PAGE_SIZE in old(Owned())
      ensures usedFrames == old(usedFrames) - 1
      ensures Valid() ==> Owned() == old(Owned()) - {address / PAGE_SIZE}
    {
      var frameIndex := address / PAGE_SIZE;
      var bitmapIndex, bitIndex := frameIndex / 32, frameIndex % 32;
      CountAfterUpdate(bitmap[..], 32, totalFrames, frameIndex);
      if frameIndex < totalFrames { OnesAfterUpdate(bitmap[..], 32, totalFrames, frameIndex); }
      bitmap[bitmapIndex] := bitmap[bitmapIndex] - {bitIndex};
      assert bitmap[..] == Clear(old(bitmap[..]), 32, frameIndex);
      usedFrames := usedFrames - 1;
    }

    method IsOwned(frame: nat) returns (owned: bool)
      requires Valid()
      ensures owned <==> frame in Owned()
      ensures owned ==> frame < totalFrames
    {
      if frame >= totalFrames { return false; }
      InRange(bitmap[..], 32, totalFrames, frame);
      return frame % 32 in bitmap[frame / 32];
    }

    /** The counter is the number of owned frames. */
    lemma UsedIsOwned()
      requires Valid()
      ensures usedFrames == |Owned()|
    {
      CountIsCardinality(bitmap[..], 32, totalFrames);
    }
  }

  /** paging_init's part: no allocator, but a panic, on less than 4 MB or when kmalloc has no memory for the
      bitmap; `bitmapMemory` is what it returned. */
  method PagingInit(memSize: nat, bitmapMemory: nat) returns (frames: FrameAllocator?)
    ensures frames == null <==> memSize < 4 * 1024 * 1024 || bitmapMemory == 0
    ensures frames != null ==> fresh(frames) && fresh(frames.bitmap) && frames.Valid() && frames.Owned() == {}
    ensures frames != null ==> frames.totalFrames == memSize / PAGE_SIZE && frames.lastAllocFrame == 0
  {
    if memSize < 4 * 1024 * 1024 { return null; }
    if bitmapMemory == 0 { return null; }
    frames := new FrameAllocator(memSize);
  }

  /** The very first allocation claims frame 0 and hands its owner NULL. */
  method FirstFrameLooksLikeNull(memSize: nat, bitmapMemory: nat) returns (frames: FrameAllocator?, address: nat)
    requires memSize >= 4 * 1024 * 1024 && bitmapMemory != 0
    ensures address == 0 && frames != null && frames.Valid() && frames.Owned() == {0}
  {
    hide CountSet, Ones;
    frames := PagingInit(memSize, bitmapMemory);
    ghost var claimed, frame;
    address, claimed, frame := frames.AllocFrame();
    assert frames.Distance(0, 0) == 0;
  }

  datatype FrameOp = Alloc | Free(frame: nat)

  ghost function OwnedAfter(owned: set<nat>, op: FrameOp, got: set<nat>): set<nat> {
    if op.Alloc? then owned + got else owned - {op.frame}
  }

  /** An allocation gets one frame that nobody owns, or none exactly when all are owned. */
  ghost predicate Grants(total: nat, owned: set<nat>, op: FrameOp, got: set<nat>) {
    && got !! owned && |got| <= 1 && (forall f :: f in got ==> f < total)
    && (got == {} <==> op.Free? || forall f: nat :: f < total ==> f in owned)
  }

  /** What a run hands out. */
  ghost predicate Served(total: nat, owned: set<nat>, ops: seq<FrameOp>, given: seq<set<nat>>, owned': set<nat>)
    decreases |ops|
  {
    if ops == [] then given == [] && owned' == owned
    else
      && given != [] && Grants(total, owned, ops[0], given[0])
      && Served(total, OwnedAfter(owned, ops[0], given[0]), ops[1..], given[1..], owned')
  }

  /** One operation; frees of what is not owned are not attempted. */
  method Execute(frames: FrameAllocator, op: FrameOp, ghost owned: set<nat>) returns (ghost got: set<nat>)
    requires frames.Valid() && frames.Owned() == owned
    modifies frames, frames.bitmap
    ensures frames.Valid() && frames.Owned() == OwnedAfter(owned, op, got)
    ensures Grants(frames.totalFrames, owned, op, got)
  {
    hide CountSet, Ones;
    got := {};
    match op {
      case Alloc =>
        var address, claimed, frame := frames.AllocFrame();
        if claimed { got := {frame}; }
      case Free(frame) =>
        var mine := frames.IsOwned(frame);
        if mine {
          frames.FreeFrame(frame * PAGE_SIZE);
        }
    }
  }

  /** Every run that frees only frames it owns: the bitmap holds exactly the owned frames, and the
      counter is their number. Allocations of frame 0 count as owned although the caller sees NULL. */
  method Run(frames: FrameAllocator, ops: seq<FrameOp>, ghost owned: set<nat>)
    returns (ghost given: seq<set<nat>>, ghost owned': set<nat>)
    requires frames.Valid() && frames.Owned() == owned
    modifies frames, frames.bitmap
    ensures Served(frames.totalFrames, owned, ops, given, owned')
    ensures frames.Valid() && frames.Owned() == owned' && frames.usedFrames == |owned'|
    decreases |ops|
  {
    hide FrameAllocator.Valid, FrameAllocator.Owned, Grants, OwnedAfter;
    frames.UsedIsOwned();
    if ops == [] { return [], owned; }
    ghost var got := Execute(frames, ops[0], owned);
    ghost var rest;
    rest, owned' := Run(frames, ops[1..], OwnedAfter(owned, ops[0], got));
    given := [got] + rest;
    assert given[1..] == rest;
  }
}
