/** Directories as files of 16-byte entries: dirlookup and dirlink of fs.c, which read them with readi and write them
    with writei. A name is the sequence of its characters before the terminating NUL. */
module DirEntries {
  import opened BlockMap
  import opened FileSystem
  import RedoLog

  const DIRSIZ := 14
  const DIRENT := 16 // sizeof(struct dirent)

  // ----- names -----

  /** Character k of a string, with NUL behind its end. */
  function Ch(s: seq<int>, k: nat): int {
    if k < |s| then s[k] else 0
  }

  ghost predicate Open(s: seq<int>, k: nat) {
    forall j :: 0 <= j < k ==> Ch(s, j) != 0
  }

  /** The names agree up to the first NUL, or up to DIRSIZ characters. */
  ghost predicate SameName(p: seq<int>, q: seq<int>) {
    forall k {:trigger Ch(p, k)} :: 0 <= k < DIRSIZ && Open(p, k) ==> Ch(p, k) == Ch(q, k)
  }

  ghost predicate IsName(name: seq<int>) {
    forall k :: 0 <= k < |name| ==> name[k] != 0
  }

  /** namecmp, which is strncmp up to DIRSIZ. */
  method NameCmp(p: seq<int>, q: seq<int>) returns (c: int)
    ensures c == 0 <==> SameName(p, q)
  {
    var i := 0;
    while i < DIRSIZ && Ch(p, i) != 0 && Ch(p, i) == Ch(q, i)
      invariant 0 <= i <= DIRSIZ && forall j {:trigger Ch(p, j)} :: 0 <= j < i ==> Ch(p, j) != 0 && Ch(p, j) == Ch(q, j)
    {
      i := i + 1;
    }
    if i == DIRSIZ {
      return 0;
    }
    assert Open(p, i);
    c := Ch(p, i) - Ch(q, i);
  }

  function Clip(name: seq<int>): seq<int> {
    if |name| > DIRSIZ then name[..DIRSIZ] else name
  }

  /** What strncpy puts in the name field. */
  function NameField(name: seq<int>): (r: seq<int>)
    ensures |r| == DIRSIZ
  {
    seq(DIRSIZ, k requires 0 <= k => Ch(name, k))
  }

  /** A stored name is found again under that name, cut to DIRSIZ characters, and under no other. */
  lemma {:induction false} FieldNames(name: seq<int>, other: seq<int>)
    requires IsName(name) && IsName(other)
    ensures SameName(other, NameField(name)) <==> Clip(other) == Clip(name)
  {
    var f := NameField(name);
    if Clip(other) == Clip(name) {
      forall k {:trigger Ch(other, k)} | 0 <= k < DIRSIZ ensures Ch(other, k) == Ch(f, k) {
        assert Ch(other, k) == Ch(Clip(other), k) && Ch(name, k) == Ch(Clip(name), k);
      }
    }
    if SameName(other, f) {
      var n := |Clip(other)|;
      forall k: nat | k <= n && k < DIRSIZ ensures Ch(other, k) == Ch(name, k) {
        assert Open(other, k);
        assert Ch(f, k) == Ch(name, k);
      }
      forall k | 0 <= k < n ensures k < |name| && name[k] == other[k] {
        assert Ch(other, k) == Ch(name, k);
      }
      if n > 0 {
        assert Ch(other, n - 1) == Ch(name, n - 1);
      }
      if n < DIRSIZ {
        assert Ch(other, n) == Ch(name, n) == 0;
        assert |name| == n;
      }
      assert Clip(name) == Clip(other);
    }
  }

  // ----- entries -----

  function Inum(e: seq<int>): int
    requires |e| == DIRENT
  {
    e[0] + 256 * e[1]
  }

  /** The entry that dirlink writes; inum is a 16-bit field. */
  function Entry16(inum: nat, name: seq<int>): (e: seq<int>)
    ensures |e| == DIRENT && Inum(e) == inum % 0x1_0000 && e[2..] == NameField(name)
  {
    [inum % 0x1_0000 % 256, inum % 0x1_0000 / 256] + NameField(name)
  }

  /** The entry at byte off of the directory s is in use under this name. */
  ghost predicate Named(s: seq<int>, off: nat, name: seq<int>) {
    off + DIRENT <= |s| && Inum(s[off..off + DIRENT]) != 0 && SameName(name, s[off + 2..off + DIRENT])
  }

  /** No entry before byte n has the name. */
  ghost predicate NoneNamed(s: seq<int>, n: nat, name: seq<int>) {
    forall off: nat {:trigger Named(s, off, name)} :: off < n && off % DIRENT == 0 ==> !Named(s, off, name)
  }

  /** How far dirlookup reads in directory s: up to the end of the entry of that name, or to the end. */
  ghost function Reach(s: seq<int>, off: nat, name: seq<int>): (r: nat)
    decreases |s| - off
  {
    if off + DIRENT > |s| then |s| else if Named(s, off, name) then off + DIRENT else Reach(s, off + DIRENT, name)
  }

  /** The search does not end in the middle of an entry. */
  ghost predicate Complete(s: seq<int>, name: seq<int>) {
    |s| % DIRENT == 0 || !NoneNamed(s, |s|, name)
  }

  lemma {:induction false} ReachBounds(s: seq<int>, off: nat, name: seq<int>)
    requires off <= |s|
    ensures off <= Reach(s, off, name) <= |s| && (off + DIRENT <= |s| ==> off + DIRENT <= Reach(s, off, name))
    decreases |s| - off
  {
    if off + DIRENT <= |s| && !Named(s, off, name) {
      ReachBounds(s, off + DIRENT, name);
    }
  }

  // ----- one entry after the other -----

  lemma {:induction false} EntryArithmetic(off: nat)
    requires off % DIRENT == 0
    ensures EndBlock(off, DIRENT) == off / BSIZE + 1 && EndBlock(0, off + DIRENT) == off / BSIZE + 1
    ensures EndBlock(0, off) == if off % BSIZE == 0 then off / BSIZE else off / BSIZE + 1
  {
  }

  /** The whole is solid if its parts are. */
  lemma {:induction false} SolidJoin(ino: seq<Inode>, blk: seq<Block>, i: nat, off: nat)
    requires Shaped(ino, blk) && i < |ino| && off + DIRENT <= ino[i].size <= MAXSIZE && off % DIRENT == 0
    requires Solid(ino, blk, i, 0, off) && Solid(ino, blk, i, off, DIRENT)
    ensures Solid(ino, blk, i, 0, off + DIRENT)
  {
    hide At;
    forall bn: nat {:trigger DataSlot(i, bn)} | bn < MAXFILE && bn * BSIZE < off + DIRENT
      ensures At(ino, blk, DataSlot(i, bn)) != 0
    {
      assert bn * BSIZE < off || off / BSIZE <= bn;
    }
  }

  /** The parts are solid if the whole is. */
  lemma {:induction false} SolidPart(ino: seq<Inode>, blk: seq<Block>, i: nat, n: nat, off: nat)
    requires Shaped(ino, blk) && i < |ino| && ino[i].size <= MAXSIZE && off < ino[i].size
    requires Solid(ino, blk, i, 0, n) && (off + DIRENT <= n || ino[i].size <= n)
    ensures Solid(ino, blk, i, off, DIRENT)
  {
    hide At;
  }

  /** Inside a block that has been read, the next entry is there. */
  lemma {:induction false} SolidNext(ino: seq<Inode>, blk: seq<Block>, i: nat, off: nat)
    requires Shaped(ino, blk) && i < |ino| && off < ino[i].size <= MAXSIZE && Solid(ino, blk, i, 0, off)
    requires off % DIRENT == 0 && off % BSIZE != 0
    ensures Solid(ino, blk, i, off, DIRENT)
  {
    hide At;
    forall bn: nat {:trigger DataSlot(i, bn)} |
      off / BSIZE <= bn < MAXFILE && bn * BSIZE < LastByte(ino, i, off, DIRENT)
      ensures At(ino, blk, DataSlot(i, bn)) != 0
    {
      assert bn == off / BSIZE;
    }
  }

  lemma {:induction false} LogBoundJoin(lh0: seq<int>, lh1: seq<int>, lh2: seq<int>, bitmapSector: int, addrs: seq<int>,
                                        addrs': seq<int>, k: int, lo: nat, hi: nat)
    requires LogBound(lh0, lh1, bitmapSector, addrs, k) && LogBound(lh1, lh2, bitmapSector, addrs', 1)
    requires Filled(addrs, addrs', lo, hi)
    ensures LogBound(lh0, lh2, bitmapSector, addrs', k + 1)
  {
    var d: set<int> :| |d| <= k && LoggedWithin(lh0, lh1, bitmapSector, addrs, d);
    var e: set<int> :| |e| <= 1 && LoggedWithin(lh1, lh2, bitmapSector, addrs', e);
    assert LoggedWithin(lh0, lh2, bitmapSector, addrs', d + e);
    assert |d + e| <= |d| + |e|;
  }

  /** One more entry has been read. In the middle of a block that changes nothing. */
  lemma {:induction false} ScanEntry(u: View, v: View, w: View, i: nat, off: nat)
    requires Scanned(u, v, i, 0, off) && Scanned(v, w, i, off, DIRENT) && off % DIRENT == 0
    requires off + DIRENT <= v.ino[i].size && (off % BSIZE != 0 ==> w == v)
    ensures Scanned(u, w, i, 0, off + DIRENT)
  {
    hide SameFiles, Solid, At, Filled, Clear, Lacks, LogBound, EndBlock;
    EntryArithmetic(off);
    SameFilesFacts(u, v, i);
    SameFilesFacts(v, w, i);
    SameFilesTrans(u, v, w, i);
    StillSolid(v, w, i, 0, off);
    SolidJoin(w.ino, w.blk, i, off);
    if off % BSIZE == 0 {
      FilledTrans(u.ino[i].addrs, v.ino[i].addrs, w.ino[i].addrs, 0, off / BSIZE, off / BSIZE + 1);
      if |u.bits| <= BPB {
        LogBoundJoin(u.lh, v.lh, w.lh, BitmapOf(u), v.ino[i].addrs, w.ino[i].addrs, off / BSIZE, off / BSIZE,
                     off / BSIZE + 1);
      }
    }
  }

  lemma {:induction false} SameContents(v: View, w: View, i: nat)
    requires SameFiles(v, w, i) && v.ino[i].size <= MAXSIZE
    ensures w.ino[i].size == v.ino[i].size && Contents(w.ino, w.blk, i) == Contents(v.ino, v.blk, i)
  {
    hide FileByte, Kept;
  }

  // ----- dirlookup -----

  /** Entries up to byte off of the directory have been read, and none has the name. */
  ghost predicate Searched(u: View, v: View, i: nat, off: nat, name: seq<int>, s: seq<int>) {
    && Scanned(u, v, i, 0, off) && u.ino[i].size <= MAXSIZE && s == Contents(u.ino, u.blk, i)
    && off <= |s| && off % DIRENT == 0 && NoneNamed(s, off, name) && Reach(s, off, name) == Reach(s, 0, name)
  }

  lemma {:induction false} SearchStart(u: View, i: nat, name: seq<int>)
    requires Shaped(u.ino, u.blk) && i < |u.ino| && u.ino[i].size <= MAXSIZE
    ensures Searched(u, u, i, 0, name, Contents(u.ino, u.blk, i))
  {
    hide Scanned, Contents, Named;
    ScanStart(u, i, 0);
  }

  lemma {:induction false} SearchFacts(u: View, v: View, i: nat, off: nat, name: seq<int>, s: seq<int>)
    requires Searched(u, v, i, off, name, s)
    ensures Scanned(u, v, i, 0, off) && SameFiles(u, v, i)
    ensures s == Contents(v.ino, v.blk, i) == Contents(u.ino, u.blk, i)
    ensures i < |v.ino| == |u.ino| && |v.bits| == |u.bits|
    ensures |s| == v.ino[i].size == u.ino[i].size <= MAXSIZE && v.ino[i].kind == u.ino[i].kind
    ensures off % DIRENT == 0 && NoneNamed(s, off, name) && Reach(s, off, name) == Reach(s, 0, name)
    ensures off <= Reach(s, 0, name) <= |s| && (off + DIRENT <= |s| ==> off + DIRENT <= Reach(s, 0, name))
    ensures Solid(v.ino, v.blk, i, 0, off)
    ensures RedoLog.NoDuplicates(u.lh) && RedoLog.NoDuplicates(v.lh) && |u.bits| <= BPB ==>
      |v.lh| <= |u.lh| + 2 + EndBlock(0, off)
    ensures Clear(u.bits) + Lacks(v.ino[i].addrs) <= Clear(v.bits) + EndBlock(0, off) + Lacks(u.ino[i].addrs)
  {
    hide Scanned, SameFiles, Contents, Reach, Solid, Named, Filled, RedoLog.NoDuplicates, EndBlock, Clear, Lacks;
    ScanFacts(u, v, i, 0, off);
    SameFilesFacts(u, v, i);
    SameContents(u, v, i);
    ReachBounds(s, off, name);
  }

  lemma {:induction false} SearchStep(u: View, v: View, w: View, i: nat, off: nat, name: seq<int>, s: seq<int>)
    requires Searched(u, v, i, off, name, s) && off + DIRENT <= |s|
    requires Scanned(v, w, i, off, DIRENT) && (off % BSIZE != 0 ==> w == v)
    ensures Scanned(u, w, i, 0, off + DIRENT)
    ensures Named(s, off, name) ==> Reach(s, 0, name) == off + DIRENT
    ensures !Named(s, off, name) ==> Searched(u, w, i, off + DIRENT, name, s)
  {
    hide Scanned, Contents, Named;
    SearchFacts(u, v, i, off, name, s);
    ScanEntry(u, v, w, i, off);
  }

  lemma {:induction false} SearchEnd(s: seq<int>, off: nat, name: seq<int>)
    requires off <= |s| && off % DIRENT == 0 && NoneNamed(s, off, name) && Reach(s, off, name) == Reach(s, 0, name)
    ensures off == |s| ==> Complete(s, name) && Reach(s, 0, name) == |s|
    ensures off < |s| < off + DIRENT ==> !Complete(s, name) && Reach(s, 0, name) == |s|
    ensures off + DIRENT <= |s| && Named(s, off, name) ==> Complete(s, name)
  {
    if off < |s| < off + DIRENT {
      forall p: nat {:trigger Named(s, p, name)} | p < |s| && p % DIRENT == 0 ensures !Named(s, p, name) {
        assert p >= off ==> p + DIRENT > |s|;
      }
    }
  }

  /** The next entry is in a block that has not been counted yet. */
  lemma {:induction false} NextBlock(off: nat, m: nat)
    requires off < m && off % BSIZE == 0
    ensures EndBlock(0, off) == off / BSIZE && EndBlock(0, m) >= EndBlock(0, off) + 1
  {
  }

  lemma {:induction false} NothingRead(ino: seq<Inode>, blk: seq<Block>, i: nat)
    requires Shaped(ino, blk) && i < |ino| && ino[i].size <= MAXSIZE
    ensures Solid(ino, blk, i, 0, 0)
  {
  }

  lemma {:induction false} NamedIs(s: seq<int>, off: nat, name: seq<int>)
    requires off + DIRENT <= |s|
    ensures s[off..off + DIRENT][2..] == s[off + 2..off + DIRENT]
    ensures Named(s, off, name) <==> Inum(s[off..off + DIRENT]) != 0 && SameName(name, s[off + 2..off + DIRENT])
  {
  }

  /** The entry at byte off, for a caller that has read all before it. */
  method ReadEntry(fs: FileSys, i: nat, off: nat) returns (r: Result<seq<int>>)
    requires fs.Valid() && i < |fs.inode| && fs.inode[i].kind == T_DIR && off < fs.inode[i].size && off % DIRENT == 0
    requires Solid(fs.inode, fs.block, i, 0, off)
    modifies fs`bitmap, fs`block, fs`lh, fs`inode, fs`owner
    ensures r == Panic(DirRead) ==> off + DIRENT > old(fs.inode)[i].size
    ensures r.Panic? ==> r.cause in {DirRead, OutOfBlocks, TooBig, OutsideTrans}
    ensures r == Panic(OutsideTrans) ==> !fs.busy
    ensures r.Ok? ==> fs.Valid() && off + DIRENT <= old(fs.inode)[i].size
    ensures r.Ok? ==> r.value == Contents(old(fs.inode), old(fs.block), i)[off..off + DIRENT]
    ensures r.Ok? ==> Scanned(old(fs.Now()), fs.Now(), i, off, DIRENT)
    ensures r == Panic(TooBig) ==> off % BSIZE == 0 && (|old(fs.bitmap)| <= BPB ==> fs.Near(old(fs.lh), 5))
    ensures r == Panic(TooBig) && !fs.busy ==> fs.Near(old(fs.lh), 4)
    ensures r == Panic(OutOfBlocks) ==> off % BSIZE == 0 && Clear(old(fs.bitmap)) < 1 + Lacks(old(fs.inode)[i].addrs)
    ensures off % BSIZE != 0 || Solid(old(fs.inode), old(fs.block), i, off, DIRENT) ==>
      unchanged(fs) && (r.Ok? || r == Panic(DirRead))
    ensures !fs.busy && (r.Ok? || r == Panic(DirRead)) ==>
      unchanged(fs) && Solid(old(fs.inode), old(fs.block), i, off, DIRENT)
  {
    hide FileSys.Valid, Scanned, Solid, Contents, EndBlock, Clear, Lacks, SameBytes;
    fs.ValidFacts();
    EntryArithmetic(off);
    if off % BSIZE != 0 {
      SolidNext(fs.inode, fs.block, i, off);
    }
    var got, dst := fs.ReadI(i, off, DIRENT);
    if got.Panic? {
      return Panic(got.cause);
    }
    if got.value != DIRENT {
      return Panic(DirRead);
    }
    return Ok(dst);
  }

  /** dirlookup: the offset of the first entry of that name, or -1. It reads no further than it must, and what it
      reads it fills in; so outside a transaction it succeeds exactly if there is no hole in what it reads. */
  method DirLookup(fs: FileSys, i: nat, name: seq<int>) returns (r: Result<int>)
    requires fs.Valid() && i < |fs.inode|
    modifies fs`bitmap, fs`block, fs`lh, fs`inode, fs`owner
    ensures r.Panic? ==> r.cause in {NotDir, DirRead, OutOfBlocks, TooBig, OutsideTrans}
    ensures r == Panic(NotDir) <==> old(fs.inode)[i].kind != T_DIR
    ensures r == Panic(OutsideTrans) ==> !fs.busy
    ensures
      var v, s := old(fs.Now()), Contents(old(fs.inode), old(fs.block), i);
      var m := Reach(s, 0, name);
      && (r.Ok? ==> fs.Valid() && Scanned(v, fs.Now(), i, 0, m))
      && (r.Ok? && r.value != -1 ==>
            0 <= r.value && r.value % DIRENT == 0 && Named(s, r.value, name) && NoneNamed(s, r.value, name))
      && (r == Ok(-1) ==> |s| % DIRENT == 0 && NoneNamed(s, |s|, name) && m == |s|)
      && (r == Panic(DirRead) ==> !Complete(s, name))
      && (r == Panic(TooBig) && |v.bits| <= BPB ==> fs.Near(v.lh, EndBlock(0, m) + 6))
      && (r == Panic(TooBig) && !fs.busy ==> fs.Near(v.lh, 4))
      && (r == Panic(OutOfBlocks) ==> Clear(v.bits) < EndBlock(0, m) + Lacks(v.ino[i].addrs))
      && (Solid(v.ino, v.blk, i, 0, m) && v.ino[i].kind == T_DIR ==> unchanged(fs) && (r.Ok? <==> Complete(s, name)))
      && (!fs.busy ==>
            (r.Ok? <==> v.ino[i].kind == T_DIR && Complete(s, name) && Solid(v.ino, v.blk, i, 0, m)))
      && (r.Ok? && fs.dinode[i] == v.ino[i] ==> (fs.dinode[i] == fs.inode[i] <==> NoneMissing(v.ino[i].addrs, 0, m)))
  {
    hide FileSys.Valid, Shaped, Scanned, SameFiles, Searched, Solid, NoneMissing, Contents, Reach, Named, NoneNamed,
         Complete, SameName,
         EndBlock, Clear, Lacks, SameBytes, RedoLog.NoDuplicates, Filled;
    fs.ValidFacts();
    if fs.inode[i].kind != T_DIR {
      return Panic(NotDir);
    }
    ghost var v0, s := fs.Now(), Contents(fs.inode, fs.block, i);
    ghost var m := Reach(s, 0, name);
    ghost var solid := Solid(v0.ino, v0.blk, i, 0, m);
    SearchStart(v0, i, name);
    NothingRead(v0.ino, v0.blk, i);
    var off := 0;
    while off < fs.inode[i].size
      invariant fs.Valid() && i < |fs.inode| && Searched(v0, fs.Now(), i, off, name, s) && fs.inode[i].size == |s|
      invariant solid || !fs.busy ==> unchanged(fs)
      invariant !fs.busy ==> Solid(v0.ino, v0.blk, i, 0, off)
      decreases |s| - off
    {
      ghost var v := fs.Now();
      fs.ValidFacts();
      SearchFacts(v0, v, i, off, name, s);
      SearchEnd(s, off, name);
      if off % BSIZE == 0 {
        NextBlock(off, m);
      }
      if solid {
        SolidPart(v0.ino, v0.blk, i, m, off);
      }
      var e := ReadEntry(fs, i, off);
      if e.Panic? {
        return Panic(e.cause);
      }
      SearchStep(v0, v, fs.Now(), i, off, name, s);
      var c := NameCmp(name, e.value[2..]);
      NamedIs(s, off, name);
      if Inum(e.value) != 0 && c == 0 {
        if !fs.busy {
          SolidJoin(v0.ino, v0.blk, i, off);
        }
        ScanFills(v0, fs.Now(), i, 0, m);
        return Ok(off);
      }
      SearchFacts(v0, fs.Now(), i, off + DIRENT, name, s);
      if !fs.busy {
        SolidJoin(v0.ino, v0.blk, i, off);
      }
      off := off + DIRENT;
    }
    SearchFacts(v0, fs.Now(), i, off, name, s);
    SearchEnd(s, off, name);
    ScanFills(v0, fs.Now(), i, 0, m);
    return Ok(-1);
  }

  // ----- dirlink -----

  /** The offset of the first free entry, or the end. */
  ghost function Vacant(s: seq<int>, off: nat): (r: nat)
    decreases |s| - off
  {
    if off + DIRENT > |s| then |s| else if Inum(s[off..off + DIRENT]) == 0 then off else Vacant(s, off + DIRENT)
  }

  lemma {:induction false} VacantBounds(s: seq<int>, off: nat)
    requires off <= |s| && off % DIRENT == 0 && |s| % DIRENT == 0
    ensures off <= Vacant(s, off) <= |s| && Vacant(s, off) % DIRENT == 0
    ensures Vacant(s, off) < |s| ==>
      Vacant(s, off) + DIRENT <= |s| && Inum(s[Vacant(s, off)..Vacant(s, off) + DIRENT]) == 0
    decreases |s| - off
  {
    if off + DIRENT <= |s| && Inum(s[off..off + DIRENT]) != 0 {
      VacantBounds(s, off + DIRENT);
    }
  }

  lemma {:induction false} VacantStep(s: seq<int>, off: nat)
    ensures off == |s| ==> Vacant(s, off) == off
    ensures off + DIRENT <= |s| ==>
      Vacant(s, off) == if Inum(s[off..off + DIRENT]) == 0 then off else Vacant(s, off + DIRENT)
  {
  }

  /** dirlink's search for an empty entry, in a directory that has been read. */
  method FindVacant(fs: FileSys, i: nat) returns (r: Result<nat>)
    requires fs.Valid() && i < |fs.inode| && fs.inode[i].kind == T_DIR
    requires Solid(fs.inode, fs.block, i, 0, fs.inode[i].size)
    modifies fs`bitmap, fs`block, fs`lh, fs`inode, fs`owner
    ensures unchanged(fs) && (r.Panic? ==> r.cause == DirRead && fs.inode[i].size % DIRENT != 0)
    ensures r.Ok? ==> r.value == Vacant(Contents(fs.inode, fs.block, i), 0) <= fs.inode[i].size
  {
    hide FileSys.Valid, Shaped, Scanned, Solid, Contents, EndBlock, Clear, Lacks, Vacant;
    fs.ValidFacts();
    ghost var s := Contents(fs.inode, fs.block, i);
    var off := 0;
    while off < fs.inode[i].size
      invariant 0 <= off <= |s| && off % DIRENT == 0 && unchanged(fs) && Vacant(s, off) == Vacant(s, 0)
      decreases |s| - off
    {
      SolidUpTo(fs.inode, fs.block, i, off);
      SolidPart(fs.inode, fs.block, i, fs.inode[i].size, off);
      VacantStep(s, off);
      var e := ReadEntry(fs, i, off);
      if e.Panic? {
        return Panic(e.cause);
      }
      if Inum(e.value) == 0 {
        return Ok(off);
      }
      off := off + DIRENT;
    }
    VacantStep(s, off);
    return Ok(off);
  }

  lemma {:induction false} SolidUpTo(ino: seq<Inode>, blk: seq<Block>, i: nat, off: nat)
    requires Shaped(ino, blk) && i < |ino| && off <= ino[i].size <= MAXSIZE && Solid(ino, blk, i, 0, ino[i].size)
    ensures Solid(ino, blk, i, 0, off)
  {
    hide At;
  }

  /** The second half of dirlink, in a directory that has been read: the entry goes over the first free one, and then
      no inode changes, or to the end, and then the inode is written back. */
  method AddEntry(fs: FileSys, i: nat, e: seq<int>) returns (r: Result<int>)
    requires fs.Valid() && i < |fs.inode| && fs.inode[i].kind == T_DIR && |e| == DIRENT
    requires Solid(fs.inode, fs.block, i, 0, fs.inode[i].size)
    modifies fs`bitmap, fs`block, fs`lh, fs`inode, fs`owner, fs`dinode
    ensures r.Panic? ==> r.cause in {DirRead, DirWrite, OutOfBlocks, TooBig, OutsideTrans}
    ensures r == Panic(OutsideTrans) ==> !fs.busy
    ensures r.Ok? ==> r == Ok(0) && fs.Valid() && |fs.inode| == |old(fs.inode)| && fs.busy
    ensures r.Ok? ==> Logged(old(fs.Now()), fs.Now()) && LoggedInodes(old(fs.dinode), fs.dinode, fs.lh)
    ensures
      var v, s := old(fs.Now()), Contents(old(fs.inode), old(fs.block), i);
      var at := Vacant(s, 0);
      && (r == Panic(DirRead) ==> |s| % DIRENT != 0)
      && (|s| % DIRENT == 0 ==>
            && (r == Panic(DirWrite) ==> at == |s| && |s| + DIRENT > MAXSIZE)
            && (r == Panic(TooBig) && |v.bits| <= BPB ==> fs.Near(v.lh, if at < |s| then 0 else 5))
            && (r == Panic(OutOfBlocks) ==> Clear(v.bits) < 1 + Lacks(v.ino[i].addrs))
            && (r.Ok? ==>
                  && at <= |s| && Contents(fs.inode, fs.block, i) == Splice(s, at, e)
                  && AllLogged(fs.Now(), i, at, DIRENT)
                  && (forall j :: 0 <= j < |v.ino| && j != i ==>
                        fs.inode[j] == v.ino[j] && Contents(fs.inode, fs.block, j) == Contents(v.ino, v.blk, j))
                  && (at < |s| ==> fs.inode[i] == v.ino[i] && fs.dinode == old(fs.dinode))
                  && (at == |s| ==> i < |old(fs.dinode)| && fs.dinode == old(fs.dinode)[i := fs.inode[i]])))
  {
    hide FileSys.Valid, Shaped, Solid, Contents, Vacant, EndBlock, Clear, Lacks, SameBytes, Filled, Splice, NoHoles,
         MappedOnce, NoneMissing, Logged, AllLogged, LoggedInodes;
    fs.ValidFacts();
    ghost var v, s := fs.Now(), Contents(fs.inode, fs.block, i);
    var off := FindVacant(fs, i);
    if off.Panic? {
      return Panic(off.cause);
    }
    if |s| % DIRENT == 0 {
      VacantBounds(s, 0);
      EntryArithmetic(off.value);
      if off.value < |s| {
        EntryMapped(v.ino, v.blk, i, off.value);
      }
    }
    var w := fs.WriteI(i, e, off.value, DIRENT);
    if w.Panic? {
      return Panic(w.cause);
    }
    if w.value != DIRENT {
      return Panic(DirWrite);
    }
    assert e[..DIRENT] == e;
    if |s| % DIRENT == 0 && off.value < |s| {
      SpliceInside(s, off.value, e);
      AddrsKept(v.ino, v.blk, i, off.value, fs.inode[i].addrs);
    }
    return Ok(0);
  }

  /** Writing into a block that is there fills no slot. */
  lemma {:induction false} AddrsKept(ino: seq<Inode>, blk: seq<Block>, i: nat, off: nat, addrs: seq<int>)
    requires MappedOnce(ino, blk, i, off, DIRENT)
    requires Filled(ino[i].addrs, addrs, off / BSIZE, EndBlock(off, DIRENT))
    ensures addrs == ino[i].addrs
  {
    FilledNothing(ino[i].addrs, addrs, off / BSIZE, EndBlock(off, DIRENT));
  }

  /** dirlink: refuse a name that is there, and otherwise write the entry over the first free one, or at the end. The
      searches fill the holes of the directory; so the inode on disk is then the one in memory exactly if the directory
      grew or had none. */
  method DirLink(fs: FileSys, i: nat, name: seq<int>, inum: nat) returns (r: Result<int>)
    requires fs.Valid() && i < |fs.inode|
    modifies fs`bitmap, fs`block, fs`lh, fs`inode, fs`owner, fs`dinode
    ensures r.Panic? ==> r.cause in {NotDir, DirRead, DirWrite, OutOfBlocks, TooBig, OutsideTrans}
    ensures r == Panic(NotDir) <==> old(fs.inode)[i].kind != T_DIR
    ensures r == Panic(OutsideTrans) ==> !fs.busy
    ensures r.Ok? ==> fs.Valid() && |fs.inode| == |old(fs.inode)| && (r.value == 0 || r.value == -1)
    ensures r.Ok? ==> Logged(old(fs.Now()), fs.Now()) && LoggedInodes(old(fs.dinode), fs.dinode, fs.lh)
    ensures
      var v, s := old(fs.Now()), Contents(old(fs.inode), old(fs.block), i);
      var at, m := Vacant(s, 0), EndBlock(0, |s|);
      && (r == Ok(-1) ==> !NoneNamed(s, |s|, name) && Scanned(v, fs.Now(), i, 0, Reach(s, 0, name)))
      && (r == Ok(0) ==>
            && NoneNamed(s, |s|, name) && |s| % DIRENT == 0 && at <= |s| && fs.busy
            && Contents(fs.inode, fs.block, i) == Splice(s, at, Entry16(inum, name))
            && AllLogged(fs.Now(), i, at, DIRENT)
            && (forall j :: 0 <= j < |v.ino| && j != i ==>
                  fs.inode[j] == v.ino[j] && Contents(fs.inode, fs.block, j) == Contents(v.ino, v.blk, j)))
      && (r == Panic(DirRead) ==> !Complete(s, name))
      && (r == Panic(DirWrite) ==> NoneNamed(s, |s|, name) && at == |s| && |s| + DIRENT > MAXSIZE)
      && (r == Panic(TooBig) && |v.bits| <= BPB && fs.busy ==> fs.Near(v.lh, m + if at < |s| then 6 else 7))
      && (r == Panic(OutOfBlocks) ==> Clear(v.bits) < m + 1 + Lacks(v.ino[i].addrs))
      && (r == Ok(0) && old(fs.dinode)[i] == v.ino[i] ==>
            (fs.dinode[i] == fs.inode[i] <==> at == |s| || NoneMissing(v.ino[i].addrs, 0, |s|)))
  {
    hide FileSys.Valid, Shaped, Scanned, SameFiles, Solid, NoneMissing, Contents, Reach, Named, NoneNamed, Complete,
         Vacant, EndBlock, Clear, Lacks, RedoLog.NoDuplicates, Filled, Splice, Logged, AllLogged, LoggedInodes;
    fs.ValidFacts();
    NoInodes(fs.dinode, fs.lh);
    ghost var v0, s := fs.Now(), Contents(fs.inode, fs.block, i);
    ReachBounds(s, 0, name);
    EndGrows(0, Reach(s, 0, name), |s|);
    var found := DirLookup(fs, i, name);
    if found.Panic? {
      return Panic(found.cause);
    }
    fs.ValidFacts();
    ghost var v := fs.Now();
    ScanFacts(v0, v, i, 0, Reach(s, 0, name));
    SameFilesFacts(v0, v, i);
    NoInodes(fs.dinode, fs.lh);
    if found.value >= 0 {
      NameIsThere(s, found.value, name);
      return Ok(-1);
    }
    SameContents(v0, v, i);
    OtherFiles(v0, v, i);
    ScanFills(v0, v, i, 0, |s|);
    r := AddEntry(fs, i, Entry16(inum, name));
    if r.Ok? {
      LoggedTrans(v0, v, fs.Now());
    }
    VacantBounds(s, 0);
  }

  lemma {:induction false} NameIsThere(s: seq<int>, off: nat, name: seq<int>)
    requires off % DIRENT == 0 && Named(s, off, name)
    ensures !NoneNamed(s, |s|, name)
  {
  }

  lemma {:induction false} SpliceInside(s: seq<int>, off: nat, data: seq<int>)
    requires off + |data| <= |s|
    ensures |Splice(s, off, data)| == |s|
  {
  }

  lemma {:induction false} EntryMapped(ino: seq<Inode>, blk: seq<Block>, i: nat, off: nat)
    requires Shaped(ino, blk) && i < |ino| && ino[i].size <= MAXSIZE && Solid(ino, blk, i, 0, ino[i].size)
    requires off % DIRENT == 0 && off + DIRENT <= ino[i].size
    ensures MappedOnce(ino, blk, i, off, DIRENT)
  {
    EntryArithmetic(off);
    assert At(ino, blk, DataSlot(i, off / BSIZE)) != 0;
  }

  lemma {:induction false} OtherFiles(v: View, w: View, i: nat)
    requires SameFiles(v, w, i) && forall j :: 0 <= j < |v.ino| ==> v.ino[j].size <= MAXSIZE
    ensures |w.ino| == |v.ino| && Shaped(v.ino, v.blk) && Shaped(w.ino, w.blk)
    ensures forall j :: 0 <= j < |v.ino| && j != i ==>
      w.ino[j] == v.ino[j] && Contents(w.ino, w.blk, j) == Contents(v.ino, v.blk, j)
  {
    hide FileByte, Kept;
  }

  // ----- what dirlink does to names -----

  /** After dirlink the name is found where it was put, and every other name where it was. */
  lemma {:induction false} LinkedIsFound(s: seq<int>, name: seq<int>, inum: nat, other: seq<int>, off: nat)
    requires |s| % DIRENT == 0 && NoneNamed(s, |s|, name) && inum % 0x1_0000 != 0 && IsName(name) && IsName(other)
    requires Clip(other) != Clip(name) && off % DIRENT == 0
    ensures Vacant(s, 0) <= |s|
    ensures var at, s' := Vacant(s, 0), Splice(s, Vacant(s, 0), Entry16(inum, name));
      && Named(s', at, name) && NoneNamed(s', at, name)
      && (Named(s', off, other) <==> Named(s, off, other))
  {
    hide Vacant, SameName, Clip, NameField;
    VacantBounds(s, 0);
    var at, e := Vacant(s, 0), Entry16(inum, name);
    var s' := Splice(s, at, e);
    SplicedEntry(s, at, e, at);
    FieldNames(name, name);
    FieldNames(name, other);
    SplicedEntry(s, at, e, off);
    forall p: nat {:trigger Named(s', p, name)} | p < at && p % DIRENT == 0 ensures !Named(s', p, name) {
      SplicedEntry(s, at, e, p);
      assert !Named(s, p, name);
    }
  }

  lemma {:induction false} SplicedEntry(s: seq<int>, at: nat, e: seq<int>, off: nat)
    requires |s| % DIRENT == 0 && at % DIRENT == 0 && at <= |s| && |e| == DIRENT && off % DIRENT == 0
    ensures var s' := Splice(s, at, e);
      if off == at then
        at + DIRENT <= |s'| && s'[at..at + DIRENT] == e && s'[at + 2..at + DIRENT] == e[2..]
      else
        && (off + DIRENT <= |s'| <==> off + DIRENT <= |s|)
        && (off + DIRENT <= |s| ==>
              s'[off..off + DIRENT] == s[off..off + DIRENT] && s'[off + 2..off + DIRENT] == s[off + 2..off + DIRENT])
  {
    assert off < at ==> off + DIRENT <= at;
    assert off > at ==> off >= at + DIRENT;
  }

  // ----- a directory with a hole -----

  /** The root directory that mkfs leaves after exactly 32 entries: one block, and the size of two. */
  function RoundedRoot(first: nat): Inode {
    Inode(T_DIR, 0, 0, 1, 2 * BSIZE, [first as int] + seq(NDIRECT, _ => 0))
  }

  function UnusedInode(): Inode {
    Inode(0, 0, 0, 0, 0, seq(NDIRECT + 1, _ => 0))
  }

  function RootBlocks(first: nat, entries: Block): seq<Block> {
    seq(first + 5, b => if b == first then entries else ZERO_BLOCK)
  }

  ghost predicate InUse(s: seq<int>, off: nat) {
    off + DIRENT <= |s| && Inum(s[off..off + DIRENT]) != 0
  }

  /** All 32 entries are in use, under other names. */
  ghost predicate Occupied(s: seq<int>, name: seq<int>) {
    && NoneNamed(s, |s|, name)
    && forall off: nat {:trigger InUse(s, off)} :: off < |s| && off % DIRENT == 0 ==> InUse(s, off)
  }

  lemma {:induction false} RootOwns(first: nat, entries: Block)
    requires 0 < first < BPB - 4 && |entries.bytes| == BSIZE
    ensures Owns(first, seq(first + 5, b => b <= first), [UnusedInode(), RoundedRoot(first)],
                 RootBlocks(first, entries),
                 seq(first + 5, b => if b == first then By(Direct(1, 0)) else Nobody))
  {
    var ino := [UnusedInode(), RoundedRoot(first)];
    var blk := RootBlocks(first, entries);
    assert At(ino, blk, Direct(1, 0)) == first;
    forall x: Slot | x.Valid(2) && At(ino, blk, x) != 0 ensures x == Direct(1, 0) {
    }
  }

  /** What that directory holds: the entries, and a block of zeros that is not there. */
  lemma {:induction false} RootContents(first: nat, entries: Block)
    requires 0 < first < BPB - 4 && |entries.bytes| == BSIZE
    ensures var ino, blk := [UnusedInode(), RoundedRoot(first)], RootBlocks(first, entries);
      && Shaped(ino, blk) && Contents(ino, blk, 1) == entries.bytes + ZERO_BLOCK.bytes
      && !Solid(ino, blk, 1, 0, 2 * BSIZE) && !NoneMissing(ino[1].addrs, 0, 2 * BSIZE)
  {
    var ino, blk := [UnusedInode(), RoundedRoot(first)], RootBlocks(first, entries);
    forall p: nat | p < 2 * BSIZE ensures FileByte(ino, blk, 1, p) == (entries.bytes + ZERO_BLOCK.bytes)[p] {
      assert p / BSIZE == 0 || p / BSIZE == 1;
      assert At(ino, blk, DataSlot(1, p / BSIZE)) == if p < BSIZE then first else 0;
    }
    assert Contents(ino, blk, 1) == entries.bytes + ZERO_BLOCK.bytes;
    assert At(ino, blk, DataSlot(1, 1)) == 0;
    assert ino[1].addrs[SlotIndex(1)] == 0;
  }

  /** The search for a name that is not there reads to the end, and the first free entry is in the hole. */
  lemma {:induction false} RootSearch(entries: Block, name: seq<int>)
    requires |entries.bytes| == BSIZE && Occupied(entries.bytes, name)
    ensures var s := entries.bytes + ZERO_BLOCK.bytes;
      |s| == 2 * BSIZE && NoneNamed(s, |s|, name) && Reach(s, 0, name) == |s| && Vacant(s, 0) == BSIZE
  {
    hide Reach, Vacant, SameName;
    var s := entries.bytes + ZERO_BLOCK.bytes;
    forall off: nat {:trigger Named(s, off, name)} | off < |s| && off % DIRENT == 0 ensures !Named(s, off, name) {
      RootEntry(entries, off);
      assert off < BSIZE ==> !Named(entries.bytes, off, name);
    }
    ReachesEnd(s, 0, name);
    forall off: nat {:trigger InUse(s, off)} | off < BSIZE && off % DIRENT == 0 ensures InUse(s, off) {
      RootEntry(entries, off);
      assert InUse(entries.bytes, off);
    }
    RootEntry(entries, BSIZE);
    VacantIs(s, 0, BSIZE);
  }

  lemma {:induction false} RootEntry(entries: Block, off: nat)
    requires |entries.bytes| == BSIZE && off % DIRENT == 0 && off < 2 * BSIZE
    ensures var s := entries.bytes + ZERO_BLOCK.bytes;
      && off + DIRENT <= |s|
      && (if off < BSIZE then
            && off + DIRENT <= BSIZE && s[off..off + DIRENT] == entries.bytes[off..off + DIRENT]
            && s[off + 2..off + DIRENT] == entries.bytes[off + 2..off + DIRENT]
          else Inum(s[off..off + DIRENT]) == 0)
  {
    var s := entries.bytes + ZERO_BLOCK.bytes;
    if off >= BSIZE {
      assert s[off] == 0 && s[off + 1] == 0;
    }
  }

  lemma {:induction false} ReachesEnd(s: seq<int>, off: nat, name: seq<int>)
    requires NoneNamed(s, |s|, name) && off % DIRENT == 0
    ensures Reach(s, off, name) == |s|
    decreases |s| - off
  {
    if off + DIRENT <= |s| {
      ReachesEnd(s, off + DIRENT, name);
    }
  }

  lemma {:induction false} VacantIs(s: seq<int>, off: nat, at: nat)
    requires off <= at && off % DIRENT == 0 && at % DIRENT == 0 && at + DIRENT <= |s| && Inum(s[at..at + DIRENT]) == 0
    requires forall p: nat {:trigger InUse(s, p)} :: off <= p < at && p % DIRENT == 0 ==> InUse(s, p)
    ensures Vacant(s, off) == at
    decreases at - off
  {
    if off < at {
      assert InUse(s, off);
      VacantIs(s, off + DIRENT, at);
    }
  }

  /** The file system with that root, and four free blocks. */
  method MakeRoot(first: nat, entries: Block, name: seq<int>) returns (fs: FileSys)
    requires 0 < first < BPB - 4 && |entries.bytes| == BSIZE && Occupied(entries.bytes, name)
    ensures fresh(fs) && fs.Valid() && !fs.busy && fs.lh == [] && fs.nlog == LOGSIZE && |fs.bitmap| <= BPB
    ensures Clear(fs.bitmap) >= 4 && fs.inode == fs.dinode == [UnusedInode(), RoundedRoot(first)]
    ensures fs.block == RootBlocks(first, entries)
  {
    hide Owns, Occupied;
    var bits := seq(first + 5, b => b <= first);
    RootOwns(first, entries);
    FourClear(bits, first);
    fs := new FileSys(first, LOGSIZE, bits, RootBlocks(first, entries), [UnusedInode(), RoundedRoot(first)],
                      seq(first + 5, b => if b == first then By(Direct(1, 0)) else Nobody));
  }

  lemma {:induction false} FourClear(bits: seq<bool>, first: nat)
    requires |bits| == first + 5 && forall b :: first < b < |bits| ==> !bits[b]
    ensures Clear(bits) >= 4
  {
    var a, b := bits[..first + 4], bits[..first + 3];
    var c, d := bits[..first + 2], bits[..first + 1];
    assert a[..first + 3] == b && b[..first + 2] == c && c[..first + 1] == d;
    assert Clear(bits) == Clear(a) + 1 && Clear(a) == Clear(b) + 1;
    assert Clear(b) == Clear(c) + 1 && Clear(c) == Clear(d) + 1;
  }

  /** Looking for a name that is not there, outside a transaction as open does it without O_CREATE: panic. */
  method AbsentNamePanics(first: nat, entries: Block, name: seq<int>) returns (fs: FileSys, r: Result<int>)
    requires 0 < first < BPB - 4 && |entries.bytes| == BSIZE && Occupied(entries.bytes, name)
    ensures r == Panic(OutsideTrans)
  {
    hide Occupied, Reach, Contents, Solid, NoneMissing, Clear, Scanned, FileSys.Valid, Named;
    fs := MakeRoot(first, entries, name);
    RootContents(first, entries);
    RootSearch(entries, name);
    r := DirLookup(fs, 1, name);
  }

  /** A new entry inside a transaction: the block that it goes to is in the inode in memory, and not in the one on
      disk. */
  method EntryInHole(first: nat, entries: Block, name: seq<int>, inum: nat) returns (fs: FileSys, r: Result<int>)
    requires 0 < first < BPB - 4 && |entries.bytes| == BSIZE && Occupied(entries.bytes, name)
    ensures fs.Valid() && |fs.inode| == |fs.dinode| == 2 && r == Ok(0) && fs.dinode[1] != fs.inode[1]
    ensures Contents(fs.inode, fs.block, 1) ==
      Splice(entries.bytes + ZERO_BLOCK.bytes, BSIZE, Entry16(inum, name))
  {
    hide Occupied, Reach, Vacant, Contents, Solid, NoneMissing, Clear, Scanned, FileSys.Valid, Named, Splice;
    fs := MakeRoot(first, entries, name);
    RootContents(first, entries);
    RootSearch(entries, name);
    fs.BeginTrans();
    r := DirLink(fs, 1, name, inum);
    fs.ValidFacts();
  }
}
