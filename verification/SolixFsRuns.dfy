/** Whole runs of file operations: any interleaving of reads, writes and seeks through any number of
    open vnodes on any number of files behaves as the same operations on plain byte sequences.
 */
module SolixFsRuns {
  import opened Machine
  import opened SolixFs

  datatype Op =
    | Read(v: nat, count: nat)
    | Write(v: nat, data: seq<Byte>)
    | Seek(v: nat, offset: nat, whence: int)

  datatype Reply = Data(bytes: seq<Byte>) | Count(k: nat) | Status(code: int)

  /** The files as byte sequences, the positions at which each has a block, and the number of free
      blocks; for each open vnode its file and its offset. */
  datatype View = View(files: seq<seq<Byte>>, have: seq<set<nat>>, free: int, nodes: seq<nat>, offsets: seq<nat>)

  ghost predicate WellFormed(a: View) {
    && |a.nodes| == |a.offsets| && |a.have| == |a.files|
    && (forall f :: 0 <= f < |a.files| ==> |a.files[f]| <= MAX_SIZE)
    && (forall v :: 0 <= v < |a.nodes| ==> a.nodes[v] < |a.files|)
    && (forall v :: 0 <= v < |a.nodes| ==> a.offsets[v] <= |a.files[a.nodes[v]]|)
  }

  /** A request on an open vnode whose 32-bit arithmetic cannot wrap. */
  predicate Request(vnodes: nat, op: Op) {
    && op.v < vnodes
    && (op.Read? ==> op.count < TWO32 - MAX_SIZE)
    && (op.Seek? ==> op.offset < TWO32)
  }

  /** The one reply there is: a read returns the rest of the file up to `count` bytes, a write accepts
      the longest prefix that 12 blocks and the free blocks admit. */
  ghost predicate Allowed(a: View, op: Op, r: Reply)
    requires WellFormed(a) && op.v < |a.nodes|
  {
    var o, file := a.offsets[op.v], a.files[a.nodes[op.v]];
    match op
    case Read(_, count) => r == Data(file[o..o + Min(count, |file| - o)])
    case Write(_, data) => r.Count? && LongestWritable(a.have[a.nodes[op.v]], a.free, o, |data|, r.k)
    case Seek(_, _, whence) => r == Status(if whence in {0, 1, 2} then 0 else -1)
  }

  ghost function After(a: View, op: Op, r: Reply): View
    requires WellFormed(a) && op.v < |a.nodes| && Allowed(a, op, r)
  {
    var o, f := a.offsets[op.v], a.nodes[op.v];
    match op
    case Read(v, _) => a.(offsets := a.offsets[v := o + |r.bytes|])
    case Write(v, data) =>
      a.(files := a.files[f := Splice(a.files[f], o, data[..r.k])], offsets := a.offsets[v := o + r.k],
         have := a.have[f := a.have[f] + Touched(o, r.k)], free := a.free - BlocksNeeded(a.have[f], o, r.k))
    case Seek(v, offset, whence) =>
      a.(offsets := a.offsets[v := SeekTarget(o, |a.files[f]|, offset, whence)])
  }

  /** State and operation determine the reply. */
  lemma ReplyIsUnique(a: View, op: Op, r: Reply, q: Reply)
    requires WellFormed(a) && op.v < |a.nodes| && Allowed(a, op, r) && Allowed(a, op, q)
    ensures r == q
  {
    if op.Write? {
      var f := a.nodes[op.v];
      LongestWritableIsUnique(a.have[f], a.free, a.offsets[op.v], |op.data|, r.k, q.k);
    }
  }

  /** Every operation keeps every vnode's offset at or below its file's size, whichever vnode it
      went through. */
  lemma StepKeepsWellFormed(a: View, op: Op, r: Reply)
    requires WellFormed(a) && op.v < |a.nodes| && Allowed(a, op, r)
    ensures WellFormed(After(a, op, r))
  {
  }

  /** `replies` are what plain byte sequences answer to `ops`, leading from `a` to `b`. */
  ghost predicate Explains(a: View, ops: seq<Op>, replies: seq<Reply>, b: View)
    requires WellFormed(a)
    decreases |ops|
  {
    if ops == [] then replies == [] && a == b
    else
      && replies != [] && ops[0].v < |a.nodes| && Allowed(a, ops[0], replies[0])
      && (StepKeepsWellFormed(a, ops[0], replies[0]);
          Explains(After(a, ops[0], replies[0]), ops[1..], replies[1..], b))
  }

  lemma {:induction false} RunKeepsWellFormed(a: View, ops: seq<Op>, replies: seq<Reply>, b: View)
    requires WellFormed(a) && Explains(a, ops, replies, b)
    ensures WellFormed(b) && b.nodes == a.nodes && |b.files| == |a.files|
    decreases |ops|
  {
    if ops == [] {
    } else {
      StepKeepsWellFormed(a, ops[0], replies[0]);
      RunKeepsWellFormed(After(a, ops[0], replies[0]), ops[1..], replies[1..], b);
    }
  }

  /** Operations through other vnodes that do not write file `f` leave its bytes and vnode `v` alone. */
  lemma {:induction false} OthersLeaveAlone(a: View, ops: seq<Op>, replies: seq<Reply>, b: View, v: nat)
    requires WellFormed(a) && Explains(a, ops, replies, b) && v < |a.nodes|
    requires forall op | op in ops ::
      op.v != v && (op.Write? && op.v < |a.nodes| ==> a.nodes[op.v] != a.nodes[v])
    ensures b.nodes == a.nodes && |b.files| == |a.files| && |b.offsets| == |a.offsets|
    ensures b.files[a.nodes[v]] == a.files[a.nodes[v]] && b.offsets[v] == a.offsets[v]
    decreases |ops|
  {
    if ops == [] {
    } else {
      StepKeepsWellFormed(a, ops[0], replies[0]);
      OthersLeaveAlone(After(a, ops[0], replies[0]), ops[1..], replies[1..], b, v);
    }
  }

  /** Write, seek back, let any operations that neither use this vnode nor write this file run, and
      read: the only allowed answer is exactly what was written. */
  lemma ReadBack(a: View, v: nat, data: seq<Byte>, k: nat, ops: seq<Op>, replies: seq<Reply>, b: View)
    requires WellFormed(a) && v < |a.nodes| && Allowed(a, Write(v, data), Count(k))
    requires forall op | op in ops ::
      op.v != v && (op.Write? && op.v < |a.nodes| ==> a.nodes[op.v] != a.nodes[v])
    requires var back := [Write(v, data), Seek(v, a.offsets[v], 0)];
      Explains(a, back + ops, [Count(k), Status(0)] + replies, b)
    ensures WellFormed(b) && v < |b.nodes|
    ensures forall r :: Allowed(b, Read(v, k), r) <==> r == Data(data[..k])
  {
    var o := a.offsets[v];
    var a1 := After(a, Write(v, data), Count(k));
    StepKeepsWellFormed(a, Write(v, data), Count(k));
    var a2 := After(a1, Seek(v, o, 0), Status(0));
    StepKeepsWellFormed(a1, Seek(v, o, 0), Status(0));
    var all, got := [Write(v, data), Seek(v, o, 0)] + ops, [Count(k), Status(0)] + replies;
    assert all[1..] == [Seek(v, o, 0)] + ops && got[1..] == [Status(0)] + replies;
    assert all[1..][1..] == ops && got[1..][1..] == replies;
    assert Explains(a1, all[1..], got[1..], b);
    assert Explains(a2, ops, replies, b);
    OthersLeaveAlone(a2, ops, replies, b, v);
    RunKeepsWellFormed(a2, ops, replies, b);
    assert b.files[a.nodes[v]][o..o + k] == data[..k];
  }

  /** A seek to the end and then a write append, wherever the offset was. */
  lemma EndThenWriteAppends(a: View, v: nat, n: nat, data: seq<Byte>, k: nat, b: View)
    requires WellFormed(a) && Explains(a, [Seek(v, n, 2), Write(v, data)], [Status(0), Count(k)], b)
    ensures v < |a.nodes| && k <= |data|
    ensures b.files == a.files[a.nodes[v] := a.files[a.nodes[v]] + data[..k]]
    ensures b.offsets == a.offsets[v := |b.files[a.nodes[v]]|]
  {
    hide WellFormed, LongestWritable, Touched, BlocksNeeded;
    var ops, replies := [Seek(v, n, 2), Write(v, data)], [Status(0), Count(k)];
    assert ops[1..] == [Write(v, data)] && replies[1..] == [Count(k)];
    assert ops[1..][1..] == [] && replies[1..][1..] == [];
    StepKeepsWellFormed(a, ops[0], replies[0]);
    var a1 := After(a, ops[0], replies[0]);
    assert Explains(a1, ops[1..], replies[1..], b);
    AppendedAt(a, a1, v, data, k);
  }

  lemma AppendedAt(a: View, a1: View, v: nat, data: seq<Byte>, k: nat)
    requires WellFormed(a) && WellFormed(a1) && v < |a.nodes|
    requires a1 == a.(offsets := a.offsets[v := |a.files[a.nodes[v]]|])
    requires Allowed(a1, Write(v, data), Count(k))
    ensures k <= |data|
    ensures var b := After(a1, Write(v, data), Count(k));
      && b.files == a.files[a.nodes[v] := a.files[a.nodes[v]] + data[..k]]
      && b.offsets == a.offsets[v := |b.files[a.nodes[v]]|]
  {
    hide Touched, BlocksNeeded;
    var file := a.files[a.nodes[v]];
    assert Splice(file, |file|, data[..k]) == file + data[..k];
  }

  /** A relative seek inside the file skips that many bytes: the next read starts there. A negative distance is
      given by its 32-bit complement. */
  lemma SeekSkips(a: View, v: nat, n: nat, count: nat, back: bool)
    requires WellFormed(a) && v < |a.nodes| && n <= MAX_SIZE
    requires if back then 0 < n <= a.offsets[v] else a.offsets[v] + n <= |a.files[a.nodes[v]]|
    ensures var o := if back then a.offsets[v] - n else a.offsets[v] + n;
      var b := After(a, Seek(v, if back then TWO32 - n else n, 1), Status(0));
      && WellFormed(b) && b == a.(offsets := a.offsets[v := o])
      && var file := a.files[a.nodes[v]];
      forall r :: Allowed(b, Read(v, count), r) <==> r == Data(file[o..o + Min(count, |file| - o)])
  {
    SkipTarget(a.offsets[v], |a.files[a.nodes[v]]|, n, back);
    hide SeekTarget;
  }

  lemma SkipTarget(o: nat, size: nat, n: nat, back: bool)
    requires size <= MAX_SIZE && n <= MAX_SIZE && o <= size && if back then 0 < n <= o else o + n <= size
    ensures SeekTarget(o, size, if back then TWO32 - n else n, 1) == if back then o - n else o + n
  {
  }

  /** What the mounted filesystem and its open vnodes stand for. */
  ghost function ViewOf(fs: FileSystem, vs: seq<Vnode>): View
    requires fs.Valid()
    reads fs, vs
  {
    View(fs.Files(), seq(|fs.inodeTable|, i requires 0 <= i < |fs.inodeTable| reads fs => Have(fs.inodeTable[i])),
         fs.freeBlocks, seq(|vs|, i requires 0 <= i < |vs| => vs[i].inode),
         seq(|vs|, i requires 0 <= i < |vs| reads vs => vs[i].offset))
  }

  ghost predicate Distinct(vs: seq<Vnode>) {
    forall i, j :: 0 <= i < j < |vs| ==> vs[i] != vs[j]
  }

  /** Without wrap-around a read asks for what remains. */
  lemma ReadLength(o: nat, size: nat, count: nat)
    requires o <= size <= MAX_SIZE && count < TWO32 - MAX_SIZE
    ensures o < size ==> Min(BytesToRead(o, size, count), MAX_SIZE - o) == Min(count, size - o)
  {
    if o < size { ClipIsExact(o, size, count); }
  }

  /** A read through vnode `op.v`. */
  method DoRead(fs: FileSystem, vs: seq<Vnode>, op: Op) returns (r: Reply)
    requires fs.Valid() && Distinct(vs) && WellFormed(ViewOf(fs, vs)) && Request(|vs|, op) && op.Read?
    modifies fs, vs, fs.diskBuffer
    ensures fs.Valid() && Allowed(old(ViewOf(fs, vs)), op, r)
    ensures ViewOf(fs, vs) == After(old(ViewOf(fs, vs)), op, r)
  {
    hide FileSystem.Valid, FileSystem.Files, FileSystem.Delivered, Have, BytesToRead;
    var v := vs[op.v];
    ghost var a, o := ViewOf(fs, vs), v.offset;
    assert a.nodes[op.v] == v.inode && a.offsets[op.v] == o;
    ghost var file := a.files[v.inode];
    var buffer := new Byte[op.count];
    ReadLength(o, |file|, op.count);
    var n := fs.FileRead(v, buffer, op.count);
    r := Data(buffer[..n]);
    assert |r.bytes| == Min(op.count, |file| - o);
    assert r.bytes == file[o..o + n];
    assert ViewOf(fs, vs).offsets == a.offsets[op.v := o + |r.bytes|];
  }

  lemma WithinFile(have: set<nat>, free: int, o: nat, count: nat, k: nat)
    requires LongestWritable(have, free, o, count, k)
    ensures k <= count && o + k <= MAX_SIZE
  {
  }

  /** A write through vnode `op.v`. */
  method DoWrite(fs: FileSystem, vs: seq<Vnode>, op: Op) returns (r: Reply)
    requires fs.Valid() && Distinct(vs) && WellFormed(ViewOf(fs, vs)) && Request(|vs|, op) && op.Write?
    modifies fs, vs, fs.diskBuffer
    ensures fs.Valid() && Allowed(old(ViewOf(fs, vs)), op, r)
    ensures ViewOf(fs, vs) == After(old(ViewOf(fs, vs)), op, r)
  {
    hide FileSystem.Valid, FileSystem.Files, Have, Splice, Touched, BlocksNeeded, LongestWritable;
    var v := vs[op.v];
    ghost var a, o, f := ViewOf(fs, vs), v.offset, v.inode;
    assert a.nodes[op.v] == f && a.offsets[op.v] == o && a.have[f] == Have(fs.inodeTable[f]);
    var n := fs.FileWrite(v, op.data);
    WithinFile(a.have[f], a.free, o, |op.data|, n);
    r := Count(n);
    assert ViewOf(fs, vs).offsets == a.offsets[op.v := o + n];
    assert ViewOf(fs, vs).have == a.have[f := a.have[f] + Touched(o, n)];
  }

  /** A seek of vnode `op.v`. */
  method DoSeek(fs: FileSystem, vs: seq<Vnode>, op: Op) returns (r: Reply)
    requires fs.Valid() && Distinct(vs) && WellFormed(ViewOf(fs, vs)) && Request(|vs|, op) && op.Seek?
    modifies fs, vs, fs.diskBuffer
    ensures fs.Valid() && Allowed(old(ViewOf(fs, vs)), op, r)
    ensures ViewOf(fs, vs) == After(old(ViewOf(fs, vs)), op, r)
  {
    hide FileSystem.Valid, FileSystem.Files, Have, SeekTarget;
    var v := vs[op.v];
    ghost var a, o := ViewOf(fs, vs), v.offset;
    assert a.nodes[op.v] == v.inode && a.offsets[op.v] == o;
    var code := fs.FileSeek(v, op.offset, op.whence);
    r := Status(code);
    assert ViewOf(fs, vs).offsets == a.offsets[op.v := v.offset];
  }

  /** One operation of the kernel answers as plain byte sequences do. */
  method Execute(fs: FileSystem, vs: seq<Vnode>, op: Op) returns (r: Reply)
    requires fs.Valid() && Distinct(vs) && WellFormed(ViewOf(fs, vs)) && Request(|vs|, op)
    modifies fs, vs, fs.diskBuffer
    ensures fs.Valid() && Allowed(old(ViewOf(fs, vs)), op, r)
    ensures ViewOf(fs, vs) == After(old(ViewOf(fs, vs)), op, r)
  {
    hide FileSystem.Valid, ViewOf, After, Allowed;
    match op {
      case Read(_, _) => r := DoRead(fs, vs, op);
      case Write(_, _) => r := DoWrite(fs, vs, op);
      case Seek(_, _, _) => r := DoSeek(fs, vs, op);
    }
  }

  lemma SameNodes(fs: FileSystem, vs: seq<Vnode>)
    requires fs.Valid()
    ensures |ViewOf(fs, vs).nodes| == |vs|
  {
    hide FileSystem.Valid;
  }

  /** Every run of the kernel's operations is the run plain byte sequences and a count of free blocks
      explain, and keeps the volume's invariant: blocks owned once, marked in the bitmap, and present
      below every size. */
  method Run(fs: FileSystem, vs: seq<Vnode>, ops: seq<Op>) returns (replies: seq<Reply>)
    requires fs.Valid() && Distinct(vs) && WellFormed(ViewOf(fs, vs))
    requires forall op :: op in ops ==> Request(|vs|, op)
    modifies fs, vs, fs.diskBuffer
    ensures fs.Valid()
    ensures Explains(old(ViewOf(fs, vs)), ops, replies, ViewOf(fs, vs))
    decreases |ops|
  {
    hide FileSystem.Valid, ViewOf, After, Allowed, WellFormed;
    if ops == [] { return []; }
    ghost var a := ViewOf(fs, vs);
    SameNodes(fs, vs);
    var r := Execute(fs, vs, ops[0]);
    StepKeepsWellFormed(a, ops[0], r);
    var rest := Run(fs, vs, ops[1..]);
    replies := [r] + rest;
    assert replies[1..] == rest;
  }
}
