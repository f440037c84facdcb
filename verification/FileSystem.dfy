/** Block allocation, block maps and file contents (fs.c), and filewrite's transactions (file.c).

    The state is what bread and log_write show of the disk: the bitmap blocks as one sequence of
    bits, the data blocks, and the on-disk inodes, beside the in-memory inodes and the list of
    sectors logged by the open transaction. */
module FileSystem {
  import opened BlockMap
  import RedoLog

  const BPB := 4096
  const IPB := 8
  const LOGSIZE := RedoLog.LOGSIZE
  const T_DIR := 1
  const T_DEV := 3
  const CHUNK := (LOGSIZE - 1 - 1 - 2) / 2 * 512 // filewrite's max

  datatype Cause =
    TooBig | OutsideTrans | OutOfBlocks | FreeingFree | OutOfRange | ShortWrite | NotDir | DirRead | DirWrite

  datatype Result<+T> = Ok(value: T) | Panic(cause: Cause)

  /** The sectors of inode i and of the bit of block b. */
  function IBlock(i: nat): nat {
    i / IPB + 2
  }

  function BBlock(b: nat, ninodes: nat): nat {
    b / BPB + ninodes / IPB + 3
  }

  /** Inodes share a sector exactly if they agree on i / IPB, bits exactly if they agree on b / BPB; inode sectors come
      before bitmap sectors, and both before the blocks exactly if those start behind the last bitmap sector. */
  lemma {:induction false} SectorsApart(ninodes: nat, size: nat, first: nat, i: nat, j: nat, b: nat, c: nat)
    requires i < ninodes && j < ninodes && b < size && c < size
    ensures IBlock(i) == IBlock(j) <==> i / IPB == j / IPB
    ensures BBlock(b, ninodes) == BBlock(c, ninodes) <==> b / BPB == c / BPB
    ensures 2 <= IBlock(i) < BBlock(b, ninodes)
    ensures first > BBlock(size - 1, ninodes) <==>
      forall k: nat {:trigger BBlock(k, ninodes)} :: k < size ==> first > BBlock(k, ninodes)
  {
    assert i / IPB <= ninodes / IPB;
    forall k: nat {:trigger BBlock(k, ninodes)} | k < size ensures BBlock(k, ninodes) <= BBlock(size - 1, ninodes) {
      assert k / BPB <= (size - 1) / BPB;
    }
  }

  ghost function Sectors(lh: seq<int>): set<int> {
    set s | s in lh
  }

  lemma {:induction false} AbsorbedSectors(lh: seq<int>, s: int)
    requires RedoLog.NoDuplicates(lh)
    ensures RedoLog.NoDuplicates(RedoLog.Absorbed(lh, s))
    ensures Sectors(RedoLog.Absorbed(lh, s)) == Sectors(lh) + {s}
    ensures |lh| <= |RedoLog.Absorbed(lh, s)| <= |lh| + 1
  {
    hide RedoLog.Slot;
    assert forall t :: t in lh + [s] <==> t in lh || t == s;
  }

  lemma {:induction false} CountSectors(lh: seq<int>)
    requires RedoLog.NoDuplicates(lh)
    ensures |Sectors(lh)| == |lh|
  {
    if lh != [] {
      var n := |lh| - 1;
      CountSectors(lh[..n]);
      assert Sectors(lh) == Sectors(lh[..n]) + {lh[n]};
    }
  }

  /** The indirect block that addrs names, if any. */
  ghost function IndirectOf(addrs: seq<int>): set<int>
    requires |addrs| == NDIRECT + 1
  {
    if addrs[NDIRECT] == 0 then {} else {addrs[NDIRECT]}
  }

  /** The inode tables differ at most in the block addresses of inode i. */
  ghost predicate OnlyAddrs(ino: seq<Inode>, ino': seq<Inode>, i: nat) {
    i < |ino| == |ino'| && ino' == ino[i := ino[i].(addrs := ino'[i].addrs)]
  }

  lemma {:induction false} SubsetSize<T>(a: set<T>, b: set<T>)
    requires a <= b
    ensures |a| <= |b|
  {
    if x :| x in a {
      SubsetSize(a - {x}, b - {x});
    }
  }

  lemma {:induction false} ThreeMore(lh: seq<int>, lh': seq<int>, x: int, y: int, addrs: seq<int>)
    requires RedoLog.NoDuplicates(lh) && RedoLog.NoDuplicates(lh') && |addrs| == NDIRECT + 1
    requires Sectors(lh') <= Sectors(lh) + {x, y} + IndirectOf(addrs)
    ensures |lh'| <= |lh| + 3
  {
    CountSectors(lh);
    CountSectors(lh');
    SubsetSize(Sectors(lh'), Sectors(lh) + {x, y} + IndirectOf(addrs));
  }

  lemma {:induction false} OneMore(lh: seq<int>, lh': seq<int>, x: int)
    requires RedoLog.NoDuplicates(lh) && RedoLog.NoDuplicates(lh') && Sectors(lh') <= Sectors(lh) + {x}
    ensures |lh'| <= |lh| + 1
  {
    CountSectors(lh);
    CountSectors(lh');
    SubsetSize(Sectors(lh'), Sectors(lh) + {x});
  }

  /** What readi and writei may add to the log: the bitmap block, the indirect block, and data blocks. */
  ghost predicate LoggedWithin(lh0: seq<int>, lh: seq<int>, bitmapSector: int, addrs: seq<int>, data: set<int>) {
    |addrs| == NDIRECT + 1 && Sectors(lh) <= Sectors(lh0) + {bitmapSector} + IndirectOf(addrs) + data
  }

  lemma {:induction false} LoggedCount(lh0: seq<int>, lh: seq<int>, bitmapSector: int, addrs: seq<int>, data: set<int>)
    requires RedoLog.NoDuplicates(lh0) && RedoLog.NoDuplicates(lh)
    requires LoggedWithin(lh0, lh, bitmapSector, addrs, data)
    ensures |lh| <= |lh0| + 1 + |data| + if addrs[NDIRECT] == 0 then 0 else 1
  {
    CountSectors(lh0);
    CountSectors(lh);
    SubsetSize(Sectors(lh), Sectors(lh0) + {bitmapSector} + IndirectOf(addrs) + data);
  }

  lemma {:induction false} LoggedMore(lh0: seq<int>, lh: seq<int>, lh': seq<int>, bitmapSector: int, addrs: seq<int>,
                                      addrs': seq<int>, data: set<int>, a: int, bn: nat)
    requires LoggedWithin(lh0, lh, bitmapSector, addrs, data) && Filled(addrs, addrs', bn, bn + 1)
    requires Sectors(lh') <= Sectors(lh) + {bitmapSector, a} + IndirectOf(addrs')
    ensures LoggedWithin(lh0, lh', bitmapSector, addrs', data + {a}) && |data + {a}| <= |data| + 1
  {
  }

  /** One past the last block that bytes off .. off + n - 1 touch. */
  function EndBlock(off: nat, n: nat): nat {
    if n == 0 then off / BSIZE else (off + n - 1) / BSIZE + 1
  }

  /** Every block below the file's size is reached through a slot in use. */
  ghost predicate NoHoles(d: Inode) {
    && |d.addrs| == NDIRECT + 1
    && forall bn: nat {:trigger SlotIndex(bn)} :: bn * BSIZE < d.size ==> d.addrs[SlotIndex(bn)] != 0
  }

  /** Every inode slot that bytes off .. off + n - 1 go through is in use. */
  ghost predicate NoneMissing(addrs: seq<int>, off: nat, n: nat)
    requires |addrs| == NDIRECT + 1
  {
    forall bn: nat {:trigger SlotIndex(bn)} :: off / BSIZE <= bn < EndBlock(off, n) ==> addrs[SlotIndex(bn)] != 0
  }

  /** A hole-free file stays hole-free, and within its size nothing is missing. */
  lemma {:induction false} NoHolesKept(d: Inode, addrs: seq<int>, off: nat, n: nat)
    requires NoHoles(d) && off <= d.size && Filled(d.addrs, addrs, off / BSIZE, EndBlock(off, n))
    ensures off + n <= d.size ==> NoneMissing(d.addrs, off, n)
    ensures NoHoles(d.(addrs := addrs, size := if off + n > d.size then off + n else d.size))
  {
    forall bn: nat | bn * BSIZE < (if off + n > d.size then off + n else d.size) ensures addrs[SlotIndex(bn)] != 0 {
      if bn * BSIZE >= d.size {
        assert off / BSIZE <= bn < EndBlock(off, n);
      }
    }
  }

  /** One round moves on by one block, and stops at a block boundary or at the end. */
  lemma {:induction false} RoundArithmetic(off: nat, tot: nat, n: nat, m: nat)
    requires tot < n && (tot > 0 ==> (off + tot) % BSIZE == 0)
    requires m == if n - tot < BSIZE - (off + tot) % BSIZE then n - tot else BSIZE - (off + tot) % BSIZE
    ensures 0 < m <= n - tot
    ensures EndBlock(off, tot) == (off + tot) / BSIZE && EndBlock(off, tot + m) == EndBlock(off, tot) + 1
    ensures tot + m < n ==> (off + tot + m) % BSIZE == 0
    ensures EndBlock(off, tot) < EndBlock(off, n)
    ensures n <= CHUNK ==> EndBlock(off, tot) <= off / BSIZE + 3
  {
  }

  lemma {:induction false} LastBlock(off: nat, n: nat)
    ensures off / BSIZE <= EndBlock(off, n)
    ensures n <= CHUNK ==> EndBlock(off, n) <= off / BSIZE + 4
    ensures EndBlock(off, 0) == off / BSIZE
  {
  }

  lemma {:induction false} IndirectInRange(first: nat, bitmap: seq<bool>, ino: seq<Inode>, blk: seq<Block>,
                                           owner: seq<Owner>, i: nat)
    requires Owns(first, bitmap, ino, blk, owner) && i < |ino|
    ensures |bitmap| == |blk| == |owner|
    ensures ino[i].addrs[NDIRECT] != 0 ==> 0 < ino[i].addrs[NDIRECT] < |blk|
  {
    assert At(ino, blk, Indirect(i)) == ino[i].addrs[NDIRECT];
  }

  /** The chunks that filewrite makes of k bytes. */
  function Chunks(k: nat): nat {
    if k == 0 then 0 else if k <= CHUNK then 1 else 1 + Chunks(k - CHUNK)
  }

  /** k bytes make whole chunks. */
  predicate Whole(k: nat) {
    k == 0 || (k >= CHUNK && Whole(k - CHUNK))
  }

  lemma {:induction false} NoChunks(addrs: seq<int>)
    ensures Chunks(0) == 0 && Whole(0) && Lacks(addrs) <= 1
  {
  }

  lemma {:induction false} NextChunk(k: nat, n1: nat, n: nat)
    requires k < n && Whole(k) && n1 == if n - k > CHUNK then CHUNK else n - k
    ensures Chunks(k + n1) == Chunks(k) + 1 <= Chunks(n) && (Whole(k + n1) || k + n1 == n)
  {
    if k > 0 {
      NextChunk(k - CHUNK, n1, n - CHUNK);
    }
  }

  /** Blocks whose bit is clear. */
  function Clear(bitmap: seq<bool>): nat {
    if bitmap == [] then 0 else Clear(bitmap[..|bitmap| - 1]) + if bitmap[|bitmap| - 1] then 0 else 1
  }

  lemma {:induction false} ClearLess(bitmap: seq<bool>, b: nat)
    requires b < |bitmap| && !bitmap[b]
    ensures Clear(bitmap) == Clear(bitmap[b := true]) + 1
  {
    var n := |bitmap| - 1;
    if b < n {
      ClearLess(bitmap[..n], b);
      assert bitmap[b := true][..n] == bitmap[..n][b := true];
    } else {
      assert bitmap[b := true][..n] == bitmap[..n];
    }
  }

  lemma {:induction false} NoneClear(bitmap: seq<bool>)
    requires forall b :: 0 <= b < |bitmap| ==> bitmap[b]
    ensures Clear(bitmap) == 0
  {
    if bitmap != [] {
      NoneClear(bitmap[..|bitmap| - 1]);
    }
  }

  /** The block of addresses that a file may still need. */
  function Lacks(addrs: seq<int>): nat {
    if |addrs| == NDIRECT + 1 && addrs[NDIRECT] == 0 then 1 else 0
  }

  lemma {:induction false} LacksAfter(ino: seq<Inode>, i: nat, k: nat, v: int)
    requires i < |ino| && k <= NDIRECT && |ino[i].addrs| == NDIRECT + 1 && v != 0
    ensures Lacks(SetAddr(ino, i, k, v)[i].addrs) == if k < NDIRECT then Lacks(ino[i].addrs) else 0
  {
  }

  // ----- the loop of writei -----

  /** What reading and writing a file may change: inodes in memory, blocks, bitmap and log header. */
  datatype View = View(ino: seq<Inode>, blk: seq<Block>, bits: seq<bool>, lh: seq<int>)

  /** The sector of the bitmap, if it has only one. */
  function BitmapOf(v: View): nat {
    BBlock(0, |v.ino|)
  }

  /** Nothing has left the log, and every block and every bit that changed is in it. */
  ghost predicate Logged(v: View, w: View) {
    && |w.ino| == |v.ino| && |w.blk| == |v.blk| && |w.bits| == |v.bits| && Sectors(v.lh) <= Sectors(w.lh)
    && (forall b {:trigger w.blk[b]} :: 0 <= b < |v.blk| && w.blk[b] != v.blk[b] ==> b in Sectors(w.lh))
    && (forall b {:trigger w.bits[b]} :: 0 <= b < |v.bits| && w.bits[b] != v.bits[b] ==>
          BBlock(b, |v.ino|) in Sectors(w.lh))
  }

  lemma {:induction false} LoggedTrans(u: View, v: View, w: View)
    requires Logged(u, v) && Logged(v, w)
    ensures Logged(u, w)
  {
    hide Sectors, BBlock;
    forall b {:trigger w.blk[b]} | 0 <= b < |u.blk| && w.blk[b] != u.blk[b] ensures b in Sectors(w.lh) {
      assert v.blk[b] != u.blk[b] ==> b in Sectors(v.lh);
    }
    forall b {:trigger w.bits[b]} | 0 <= b < |u.bits| && w.bits[b] != u.bits[b]
      ensures BBlock(b, |u.ino|) in Sectors(w.lh)
    {
      assert v.bits[b] != u.bits[b] ==> BBlock(b, |u.ino|) in Sectors(v.lh);
    }
  }

  /** Inodes in memory are not logged, and logging more does no harm. */
  lemma {:induction false} LoggedMoreSectors(u: View, v: View, w: View)
    requires Logged(u, v) && w == v.(ino := w.ino, lh := w.lh) && |w.ino| == |v.ino| && Sectors(v.lh) <= Sectors(w.lh)
    ensures Logged(u, w)
  {
  }

  lemma {:induction false} LoggedBlock(u: View, v: View, w: View, a: nat)
    requires Logged(u, v) && a < |v.blk| == |w.blk| && w == v.(blk := v.blk[a := w.blk[a]], lh := w.lh)
    requires Sectors(w.lh) == Sectors(v.lh) + {a}
    ensures Logged(u, w)
  {
  }

  /** Every inode that changed on disk is in the log. */
  ghost predicate LoggedInodes(d: seq<Inode>, d': seq<Inode>, lh: seq<int>) {
    |d'| == |d| && forall j {:trigger d'[j]} :: 0 <= j < |d| && d'[j] != d[j] ==> IBlock(j) in Sectors(lh)
  }

  lemma {:induction false} NoInodes(d: seq<Inode>, lh: seq<int>)
    ensures LoggedInodes(d, d, lh)
  {
  }

  lemma {:induction false} LoggedSelf(v: View)
    ensures Logged(v, v)
  {
  }

  /** What a step that looks up block bn of file i does to slots, bitmap and log. */
  ghost predicate Account(v: View, w: View, i: nat, bn: nat) {
    && Shaped(v.ino, v.blk) && Shaped(w.ino, w.blk) && OnlyAddrs(v.ino, w.ino, i) && |w.bits| == |v.bits|
    && Filled(v.ino[i].addrs, w.ino[i].addrs, bn, bn + 1)
    && Clear(v.bits) + Lacks(w.ino[i].addrs) <= Clear(w.bits) + 1 + Lacks(v.ino[i].addrs)
    && Logged(v, w)
    && (|v.bits| <= BPB ==> exists a :: Sectors(w.lh) <= Sectors(v.lh) + {BitmapOf(v), a} + IndirectOf(w.ino[i].addrs))
  }

  /** The same for the n bytes from off on: which slots were filled, and how many blocks and sectors that took at
      most. */
  ghost predicate Accounts(v: View, w: View, i: nat, off: nat, n: nat) {
    && Shaped(v.ino, v.blk) && Shaped(w.ino, w.blk) && OnlyAddrs(v.ino, w.ino, i) && |w.bits| == |v.bits|
    && Filled(v.ino[i].addrs, w.ino[i].addrs, off / BSIZE, EndBlock(off, n))
    && Clear(v.bits) + Lacks(w.ino[i].addrs) <= Clear(w.bits) + EndBlock(off, n) - off / BSIZE + Lacks(v.ino[i].addrs)
    && Logged(v, w)
    && (|v.bits| <= BPB ==>
          LogBound(v.lh, w.lh, BitmapOf(v), w.ino[i].addrs, EndBlock(off, n) - off / BSIZE))
  }

  lemma {:induction false} AccountStart(v: View, i: nat, off: nat)
    requires Shaped(v.ino, v.blk) && i < |v.ino|
    ensures Accounts(v, v, i, off, 0) && EndBlock(off, 0) == off / BSIZE
  {
    LoggedSelf(v);
    assert LoggedWithin(v.lh, v.lh, BitmapOf(v), v.ino[i].addrs, {});
  }

  lemma {:induction false} AccountFacts(v: View, w: View, i: nat, off: nat, n: nat)
    requires Accounts(v, w, i, off, n)
    ensures Shaped(v.ino, v.blk) && Shaped(w.ino, w.blk) && OnlyAddrs(v.ino, w.ino, i) && |w.bits| == |v.bits|
    ensures |w.ino| == |v.ino| && Filled(v.ino[i].addrs, w.ino[i].addrs, off / BSIZE, EndBlock(off, n)) && Logged(v, w)
    ensures Clear(v.bits) + Lacks(w.ino[i].addrs) <=
      Clear(w.bits) + EndBlock(off, n) - off / BSIZE + Lacks(v.ino[i].addrs)
    ensures RedoLog.NoDuplicates(v.lh) && RedoLog.NoDuplicates(w.lh) && |v.bits| <= BPB ==>
      |w.lh| <= |v.lh| + 1 + EndBlock(off, n) - off / BSIZE + if w.ino[i].addrs[NDIRECT] == 0 then 0 else 1
  {
    hide Filled, Logged, LogBound, RedoLog.NoDuplicates;
    if RedoLog.NoDuplicates(v.lh) && RedoLog.NoDuplicates(w.lh) && |v.bits| <= BPB {
      LogBounded(v.lh, w.lh, BitmapOf(v), w.ino[i].addrs, EndBlock(off, n) - off / BSIZE);
    }
  }

  lemma {:induction false} AccountStep(u: View, v: View, w: View, i: nat, off: nat, n: nat, k: nat)
    requires Accounts(u, v, i, off, n) && Account(v, w, i, (off + n) / BSIZE)
    requires EndBlock(off, n) == (off + n) / BSIZE && EndBlock(off, n + k) == EndBlock(off, n) + 1
    ensures Accounts(u, w, i, off, n + k)
  {
    hide Filled, Clear, Lacks, Sectors, Logged, LogBound;
    LastBlock(off, n);
    LoggedTrans(u, v, w);
    FilledTrans(u.ino[i].addrs, v.ino[i].addrs, w.ino[i].addrs, off / BSIZE, EndBlock(off, n), EndBlock(off, n) + 1);
    if |u.bits| <= BPB {
      LogBoundMore(u.lh, v.lh, w.lh, BitmapOf(u), v.ino[i].addrs, w.ino[i].addrs, EndBlock(off, n) - off / BSIZE,
                   (off + n) / BSIZE);
    }
  }

  /** Every block that bytes off .. off + n - 1 of file i fall in is there, and in the log. */
  ghost predicate AllLogged(w: View, i: nat, off: nat, n: nat) {
    && Shaped(w.ino, w.blk) && i < |w.ino|
    && forall bn: nat {:trigger DataSlot(i, bn)} :: off / BSIZE <= bn < EndBlock(off, n) && bn < MAXFILE ==>
         At(w.ino, w.blk, DataSlot(i, bn)) != 0 && At(w.ino, w.blk, DataSlot(i, bn)) in Sectors(w.lh)
  }

  lemma {:induction false} AllLoggedMore(v: View, w: View, i: nat, off: nat, n: nat, k: nat)
    requires AllLogged(v, i, off, n) && Shaped(w.ino, w.blk) && |w.ino| == |v.ino| && Kept(v.ino, v.blk, w.ino, w.blk)
    requires Logged(v, w) && EndBlock(off, n + k) == EndBlock(off, n) + 1 <= MAXFILE
    requires At(w.ino, w.blk, DataSlot(i, EndBlock(off, n))) != 0
    requires At(w.ino, w.blk, DataSlot(i, EndBlock(off, n))) in Sectors(w.lh)
    ensures AllLogged(w, i, off, n + k)
  {
    hide At, Sectors;
    forall bn: nat {:trigger DataSlot(i, bn)} | off / BSIZE <= bn < EndBlock(off, n + k) && bn < MAXFILE
      ensures At(w.ino, w.blk, DataSlot(i, bn)) != 0 && At(w.ino, w.blk, DataSlot(i, bn)) in Sectors(w.lh)
    {
      if bn < EndBlock(off, n) {
        assert At(v.ino, v.blk, DataSlot(i, bn)) != 0;
      }
    }
  }

  /** The same after the size of file i has changed and more has been logged. */
  lemma {:induction false} LoggedGrew(u: View, v: View, w: View, i: nat, off: nat, n: nat)
    requires Logged(u, v) && AllLogged(v, i, off, n) && w.blk == v.blk && w.bits == v.bits
    requires Sectors(v.lh) <= Sectors(w.lh)
    requires |w.ino| == |v.ino| && w.ino == v.ino[i := v.ino[i].(size := w.ino[i].size)]
    ensures Logged(u, w) && AllLogged(w, i, off, n)
  {
    hide Sectors, BBlock;
    forall bn: nat {:trigger DataSlot(i, bn)} | off / BSIZE <= bn < EndBlock(off, n) && bn < MAXFILE
      ensures At(w.ino, w.blk, DataSlot(i, bn)) == At(v.ino, v.blk, DataSlot(i, bn))
    {
    }
  }

  /** After the bytes of done have been written at off. */
  ghost predicate Progress(v: View, w: View, i: nat, off: nat, done: seq<int>) {
    && Accounts(v, w, i, off, |done|) && Written(v.ino, v.blk, w.ino, w.blk, i, off, done)
    && AllLogged(w, i, off, |done|)
  }

  lemma {:induction false} ProgressStart(v: View, i: nat, off: nat)
    requires Shaped(v.ino, v.blk) && i < |v.ino|
    ensures Progress(v, v, i, off, []) && EndBlock(off, 0) == off / BSIZE
  {
    hide FileByte, Accounts, At;
    AccountStart(v, i, off);
  }

  lemma {:induction false} ProgressFacts(v: View, w: View, i: nat, off: nat, done: seq<int>)
    requires Progress(v, w, i, off, done)
    ensures Accounts(v, w, i, off, |done|) && |w.bits| == |v.bits| && |w.ino| == |v.ino|
    ensures Logged(v, w) && AllLogged(w, i, off, |done|)
    ensures Shaped(v.ino, v.blk) && Shaped(w.ino, w.blk) && OnlyAddrs(v.ino, w.ino, i)
    ensures |w.ino[i].addrs| == NDIRECT + 1 && Written(v.ino, v.blk, w.ino, w.blk, i, off, done)
    ensures Filled(v.ino[i].addrs, w.ino[i].addrs, off / BSIZE, EndBlock(off, |done|))
    ensures Clear(v.bits) + Lacks(w.ino[i].addrs) <=
      Clear(w.bits) + EndBlock(off, |done|) - off / BSIZE + Lacks(v.ino[i].addrs)
    ensures RedoLog.NoDuplicates(v.lh) && RedoLog.NoDuplicates(w.lh) && |v.bits| <= BPB ==>
      |w.lh| <= |v.lh| + 1 + EndBlock(off, |done|) - off / BSIZE + if w.ino[i].addrs[NDIRECT] == 0 then 0 else 1
  {
    hide Accounts, Written, Filled, Logged, AllLogged;
    AccountFacts(v, w, i, off, |done|);
  }

  lemma {:induction false} AccountLogs(v: View, w: View, i: nat, bn: nat)
    requires Account(v, w, i, bn)
    ensures Logged(v, w)
  {
  }

  lemma {:induction false} ProgressStep(u: View, v: View, w: View, i: nat, off: nat, done: seq<int>, piece: seq<int>)
    requires Progress(u, v, i, off, done) && Account(v, w, i, (off + |done|) / BSIZE)
    requires Shaped(v.ino, v.blk) && Shaped(w.ino, w.blk) && |w.ino| == |v.ino|
    requires Written(v.ino, v.blk, w.ino, w.blk, i, off + |done|, piece) && Kept(v.ino, v.blk, w.ino, w.blk)
    requires EndBlock(off, |done|) == (off + |done|) / BSIZE
    requires EndBlock(off, |done| + |piece|) == EndBlock(off, |done|) + 1 <= MAXFILE
    requires At(w.ino, w.blk, DataSlot(i, (off + |done|) / BSIZE)) != 0
    requires At(w.ino, w.blk, DataSlot(i, (off + |done|) / BSIZE)) in Sectors(w.lh)
    ensures Progress(u, w, i, off, done + piece)
  {
    hide Accounts, Account, Written, Logged, AllLogged, Kept, At, Sectors;
    AccountLogs(v, w, i, (off + |done|) / BSIZE);
    AllLoggedMore(v, w, i, off, |done|, |piece|);
    AccountFacts(u, v, i, off, |done|);
    AccountStep(u, v, w, i, off, |done|, |piece|);
    WrittenMore(u.ino, u.blk, v.ino, v.blk, w.ino, w.blk, i, off, done, piece);
  }

  /** The n bytes from off on lie in one block, and it is there. */
  ghost predicate MappedOnce(ino: seq<Inode>, blk: seq<Block>, i: nat, off: nat, n: nat) {
    && Shaped(ino, blk) && i < |ino| && 0 < n && off + n <= MAXSIZE && EndBlock(off, n) == off / BSIZE + 1
    && At(ino, blk, DataSlot(i, off / BSIZE)) != 0
  }

  lemma {:induction false} OnceOnly(ino: seq<Inode>, blk: seq<Block>, i: nat, off: nat, n: nat)
    requires MappedOnce(ino, blk, i, off, n)
    ensures EndBlock(off, n) == off / BSIZE + 1 && 0 < n && off + n <= MAXSIZE && Shaped(ino, blk) && i < |ino|
    ensures At(ino, blk, DataSlot(i, off / BSIZE)) != 0
  {
  }

  /** Only the bitmap block, the indirect block and at most k data blocks have been logged since lh0. */
  ghost predicate LogBound(lh0: seq<int>, lh: seq<int>, bitmapSector: int, addrs: seq<int>, k: int) {
    exists data: set<int> :: |data| <= k && LoggedWithin(lh0, lh, bitmapSector, addrs, data)
  }

  lemma {:induction false} LogBounded(lh0: seq<int>, lh: seq<int>, bitmapSector: int, addrs: seq<int>, k: int)
    requires RedoLog.NoDuplicates(lh0) && RedoLog.NoDuplicates(lh) && LogBound(lh0, lh, bitmapSector, addrs, k)
    ensures |addrs| == NDIRECT + 1 && |lh| <= |lh0| + 1 + k + if addrs[NDIRECT] == 0 then 0 else 1
  {
    var data: set<int> :| |data| <= k && LoggedWithin(lh0, lh, bitmapSector, addrs, data);
    LoggedCount(lh0, lh, bitmapSector, addrs, data);
  }

  lemma {:induction false} LogBoundMore(lh0: seq<int>, lh: seq<int>, lh': seq<int>, bitmapSector: int, addrs: seq<int>,
                                        addrs': seq<int>, k: int, bn: nat)
    requires LogBound(lh0, lh, bitmapSector, addrs, k) && Filled(addrs, addrs', bn, bn + 1) && |addrs'| == NDIRECT + 1
    requires exists a :: Sectors(lh') <= Sectors(lh) + {bitmapSector, a} + IndirectOf(addrs')
    ensures LogBound(lh0, lh', bitmapSector, addrs', k + 1)
  {
    hide Filled, Sectors, LoggedWithin;
    var data: set<int> :| |data| <= k && LoggedWithin(lh0, lh, bitmapSector, addrs, data);
    var a :| Sectors(lh') <= Sectors(lh) + {bitmapSector, a} + IndirectOf(addrs');
    LoggedMore(lh0, lh, lh', bitmapSector, addrs, addrs', data, a, bn);
  }

  // ----- the loop of readi -----

  ghost predicate SameFiles(v: View, w: View, i: nat) {
    && Shaped(v.ino, v.blk) && Shaped(w.ino, w.blk) && OnlyAddrs(v.ino, w.ino, i) && |w.bits| == |v.bits|
    && SameBytes(v.ino, v.blk, w.ino, w.blk) && Kept(v.ino, v.blk, w.ino, w.blk)
  }

  /** Block bn of file i has been looked up, and made if there was none. */
  ghost predicate LooksUp(v: View, w: View, i: nat, bn: nat) {
    SameFiles(v, w, i) && Account(v, w, i, bn) && bn < MAXFILE && At(w.ino, w.blk, DataSlot(i, bn)) != 0
  }

  /** After tot bytes have been read from off on: no byte differs, and no block of the range is missing any more. */
  ghost predicate Scanned(v: View, w: View, i: nat, off: nat, tot: nat) {
    && SameFiles(v, w, i) && Accounts(v, w, i, off, tot)
    && w.ino[i].size <= MAXSIZE && Solid(w.ino, w.blk, i, off, tot)
  }

  lemma {:induction false} ScanStart(v: View, i: nat, off: nat)
    requires Shaped(v.ino, v.blk) && i < |v.ino| && off <= v.ino[i].size <= MAXSIZE
    ensures Scanned(v, v, i, off, 0) && Range(v.ino, v.blk, i, off, 0) == [] && Solid(v.ino, v.blk, i, off, 0)
  {
    hide FileByte, Accounts;
    AccountStart(v, i, off);
  }

  lemma {:induction false} SameFilesFacts(v: View, w: View, i: nat)
    requires SameFiles(v, w, i)
    ensures Shaped(v.ino, v.blk) && Shaped(w.ino, w.blk) && i < |v.ino| == |w.ino| && |w.bits| == |v.bits|
    ensures w.ino[i] == v.ino[i].(addrs := w.ino[i].addrs) && |v.ino[i].addrs| == |w.ino[i].addrs| == NDIRECT + 1
    ensures SameBytes(v.ino, v.blk, w.ino, w.blk) && OnlyAddrs(v.ino, w.ino, i)
  {
    hide SameBytes, Kept;
  }

  lemma {:induction false} ScanFacts(v: View, w: View, i: nat, off: nat, tot: nat)
    requires Scanned(v, w, i, off, tot)
    ensures SameFiles(v, w, i) && w.ino[i].size <= MAXSIZE && Solid(w.ino, w.blk, i, off, tot)
    ensures Logged(v, w) && Filled(v.ino[i].addrs, w.ino[i].addrs, off / BSIZE, EndBlock(off, tot))
    ensures Clear(v.bits) + Lacks(w.ino[i].addrs) <=
      Clear(w.bits) + EndBlock(off, tot) - off / BSIZE + Lacks(v.ino[i].addrs)
    ensures RedoLog.NoDuplicates(v.lh) && RedoLog.NoDuplicates(w.lh) && |v.bits| <= BPB ==>
      |w.lh| <= |v.lh| + 1 + EndBlock(off, tot) - off / BSIZE + if w.ino[i].addrs[NDIRECT] == 0 then 0 else 1
  {
    hide SameFiles, Accounts, Solid;
    AccountFacts(v, w, i, off, tot);
  }

  /** The inode in memory is as it was exactly if no slot was missing. */
  lemma {:induction false} ScanFills(v: View, w: View, i: nat, off: nat, tot: nat)
    requires Scanned(v, w, i, off, tot)
    ensures i < |v.ino| == |w.ino| && |v.ino[i].addrs| == NDIRECT + 1
    ensures w.ino[i] == v.ino[i] <==> NoneMissing(v.ino[i].addrs, off, tot)
  {
    hide SameFiles, Accounts, Solid, Filled, EndBlock;
    SameFilesFacts(v, w, i);
    AccountFacts(v, w, i, off, tot);
    FilledNothing(v.ino[i].addrs, w.ino[i].addrs, off / BSIZE, EndBlock(off, tot));
  }

  lemma {:induction false} SameFilesTrans(u: View, v: View, w: View, i: nat)
    requires SameFiles(u, v, i) && SameFiles(v, w, i)
    ensures SameFiles(u, w, i) && BitmapOf(u) == BitmapOf(v)
  {
    hide SameBytes, Kept, At;
    SameBytesTrans(u.ino, u.blk, v.ino, v.blk, w.ino, w.blk);
    KeptTrans(u.ino, u.blk, v.ino, v.blk, w.ino, w.blk);
  }

  lemma {:induction false} ScanStep(u: View, v: View, w: View, i: nat, off: nat, tot: nat, k: nat)
    requires Scanned(u, v, i, off, tot) && 0 < k && off + tot + k <= u.ino[i].size <= MAXSIZE
    requires EndBlock(off, tot) == (off + tot) / BSIZE && EndBlock(off, tot + k) == EndBlock(off, tot) + 1
    requires LooksUp(v, w, i, (off + tot) / BSIZE)
    ensures Scanned(u, w, i, off, tot + k)
  {
    hide SameFiles, Account, Accounts, Solid, At;
    SameFilesFacts(u, v, i);
    SameFilesFacts(v, w, i);
    SameFilesTrans(u, v, w, i);
    StillSolid(v, w, i, off, tot);
    SolidMore(w.ino, w.blk, i, off, tot, k);
    AccountStep(u, v, w, i, off, tot, k);
  }

  lemma {:induction false} ScanRange(u: View, v: View, i: nat, off: nat, tot: nat, k: nat)
    requires SameFiles(u, v, i) && off + tot + k <= u.ino[i].size <= MAXSIZE
    ensures Range(u.ino, u.blk, i, off, tot) + Range(v.ino, v.blk, i, off + tot, k) ==
      Range(u.ino, u.blk, i, off, tot + k)
  {
    hide SameBytes, Kept, Range, Contents;
    SameRange(u.ino, u.blk, v.ino, v.blk, i, off + tot, k);
    RangeFacts(u.ino, u.blk, i, off, tot, k);
  }

  lemma {:induction false} StillSolid(v: View, w: View, i: nat, off: nat, n: nat)
    requires SameFiles(v, w, i) && v.ino[i].size <= MAXSIZE
    ensures w.ino[i].size == v.ino[i].size && (Solid(v.ino, v.blk, i, off, n) ==> Solid(w.ino, w.blk, i, off, n))
  {
    hide SameBytes, Kept, Solid;
    SolidKept(v.ino, v.blk, w.ino, w.blk, i, off, n);
  }

  lemma {:induction false} SolidKept(ino: seq<Inode>, blk: seq<Block>, ino': seq<Inode>, blk': seq<Block>, i: nat,
                                     off: nat, n: nat)
    requires Shaped(ino, blk) && Shaped(ino', blk') && i < |ino| == |ino'| && Kept(ino, blk, ino', blk')
    requires ino'[i].size == ino[i].size <= MAXSIZE
    ensures Solid(ino, blk, i, off, n) ==> Solid(ino', blk', i, off, n)
  {
    hide At;
  }

  /** A range without holes and one more block. */
  lemma {:induction false} SolidMore(ino: seq<Inode>, blk: seq<Block>, i: nat, off: nat, tot: nat, k: nat)
    requires Shaped(ino, blk) && i < |ino| && off + tot + k <= ino[i].size <= MAXSIZE && Solid(ino, blk, i, off, tot)
    requires EndBlock(off, tot) == (off + tot) / BSIZE && EndBlock(off, tot + k) == EndBlock(off, tot) + 1 && 0 < k
    requires At(ino, blk, DataSlot(i, (off + tot) / BSIZE)) != 0
    ensures Solid(ino, blk, i, off, tot + k)
  {
    hide At;
    forall bn: nat {:trigger DataSlot(i, bn)} |
      off / BSIZE <= bn < MAXFILE && bn * BSIZE < off + tot + k
      ensures At(ino, blk, DataSlot(i, bn)) != 0
    {
      if bn * BSIZE >= off + tot {
        assert bn == (off + tot) / BSIZE;
      }
    }
  }

  lemma {:induction false} EndGrows(off: nat, m: nat, n: nat)
    requires m <= n
    ensures EndBlock(off, m) <= EndBlock(off, n)
  {
  }

  // ----- what filewrite stores -----

  /** Inodes, blocks and bitmap at their home sectors. */
  datatype Saved = Saved(dinode: seq<Inode>, block: seq<Block>, bits: seq<bool>)

  /** What commit_trans makes of the home sectors: those that the log lists become what bread shows of them. */
  ghost function Flushed(home: Saved, now: Saved, lh: seq<int>): Saved {
    Saved(
      seq(|now.dinode|, j requires 0 <= j < |now.dinode| =>
        if IBlock(j) in lh || j >= |home.dinode| then now.dinode[j] else home.dinode[j]),
      seq(|now.block|, b requires 0 <= b < |now.block| =>
        if b in lh || b >= |home.block| then now.block[b] else home.block[b]),
      seq(|now.bits|, b requires 0 <= b < |now.bits| =>
        if BBlock(b, |now.dinode|) in lh || b >= |home.bits| then now.bits[b] else home.bits[b]))
  }

  /** If all that changed is in the log, the commit brings all of it home. */
  lemma {:induction false} AllFlushed(v: View, w: View, d: seq<Inode>, d': seq<Inode>)
    requires Logged(v, w) && LoggedInodes(d, d', w.lh) && |d| == |v.ino|
    ensures Flushed(Saved(d, v.blk, v.bits), Saved(d', w.blk, w.bits), w.lh) == Saved(d', w.blk, w.bits)
  {
    var home, now := Saved(d, v.blk, v.bits), Saved(d', w.blk, w.bits);
    var r := Flushed(home, now, w.lh);
    assert forall j :: 0 <= j < |d| ==> r.dinode[j] == d'[j];
    assert r.dinode == d';
    assert forall b :: 0 <= b < |w.blk| ==> r.block[b] == w.blk[b];
    assert r.block == w.blk;
    assert forall b :: 0 <= b < |w.bits| ==> r.bits[b] == w.bits[b];
    assert r.bits == w.bits;
  }

  /** File i has got data at off, and all other files are as they were. */
  ghost predicate Stored(ino: seq<Inode>, blk: seq<Block>, ino': seq<Inode>, blk': seq<Block>, i: nat, off: nat,
                         data: seq<int>) {
    && Shaped(ino, blk) && Shaped(ino', blk') && i < |ino| == |ino'|
    && (forall j :: 0 <= j < |ino| ==> ino[j].size <= MAXSIZE && ino'[j].size <= MAXSIZE)
    && off <= ino[i].size && Contents(ino', blk', i) == Splice(Contents(ino, blk, i), off, data)
    && (forall j :: 0 <= j < |ino| && j != i ==> ino'[j] == ino[j] && Contents(ino', blk', j) == Contents(ino, blk, j))
  }

  lemma {:induction false} StoredNothing(ino: seq<Inode>, blk: seq<Block>, i: nat, off: nat, addr: seq<int>)
    requires Shaped(ino, blk) && i < |ino| && forall j :: 0 <= j < |ino| ==> ino[j].size <= MAXSIZE
    ensures off <= ino[i].size ==> Stored(ino, blk, ino, blk, i, off, addr[..0])
  {
    hide Splice, Contents;
    SpliceNothing(Contents(ino, blk, i), off);
    assert addr[..0] == [];
  }

  lemma {:induction false} StoredMore(ino: seq<Inode>, blk: seq<Block>, ino1: seq<Inode>, blk1: seq<Block>,
                                      ino2: seq<Inode>, blk2: seq<Block>, i: nat, off: nat, addr: seq<int>, k: nat,
                                      m: nat)
    requires k <= m <= |addr| && Stored(ino, blk, ino1, blk1, i, off, addr[..k])
    requires Stored(ino1, blk1, ino2, blk2, i, off + k, addr[k..m])
    ensures Stored(ino, blk, ino2, blk2, i, off, addr[..m]) && off + m <= ino2[i].size
  {
    hide Splice, FileByte;
    SpliceMore(Contents(ino, blk, i), off, addr, k, m);
  }

  /** Commit c of filewrite left parts[c] bytes stored: whole chunks, or all. */
  ghost predicate PartSaved(ino: seq<Inode>, blk: seq<Block>, now: Saved, i: nat, off: nat, addr: seq<int>, n: int,
                            part: nat) {
    part <= n <= |addr| && (Whole(part) || part == n) && Stored(ino, blk, now.dinode, now.block, i, off, addr[..part])
  }

  ghost predicate ChunksSaved(ino: seq<Inode>, blk: seq<Block>, saved: seq<Saved>, saved': seq<Saved>, i: nat, off: nat,
                              addr: seq<int>, n: int, parts: seq<nat>) {
    && |saved'| == |saved| + |parts| && saved <= saved'
    && (forall c {:trigger parts[c]} :: 0 <= c < |parts| ==>
          PartSaved(ino, blk, saved'[|saved| + c], i, off, addr, n, parts[c]))
    && (forall b, c {:trigger parts[b], parts[c]} :: 0 <= b < c < |parts| ==> parts[b] <= parts[c])
  }

  ghost predicate AllUpTo(parts: seq<nat>, k: nat) {
    forall c {:trigger parts[c]} :: 0 <= c < |parts| ==> parts[c] <= k
  }

  lemma {:induction false} NothingSaved(ino: seq<Inode>, blk: seq<Block>, saved: seq<Saved>, i: nat, off: nat,
                                        addr: seq<int>, n: int)
    ensures ChunksSaved(ino, blk, saved, saved, i, off, addr, n, []) && AllUpTo([], 0)
  {
  }

  lemma {:induction false} MoreSaved(ino: seq<Inode>, blk: seq<Block>, saved: seq<Saved>, saved1: seq<Saved>,
                                     bits: seq<bool>, dinode: seq<Inode>, block: seq<Block>, i: nat, off: nat,
                                     addr: seq<int>, n: int, parts: seq<nat>, k: nat) returns (parts': seq<nat>)
    requires ChunksSaved(ino, blk, saved, saved1, i, off, addr, n, parts) && AllUpTo(parts, k)
    requires k <= n <= |addr| && (Whole(k) || k == n) && Stored(ino, blk, dinode, block, i, off, addr[..k])
    ensures ChunksSaved(ino, blk, saved, saved1 + [Saved(dinode, block, bits)], i, off, addr, n, parts')
    ensures AllUpTo(parts', k)
  {
    hide Stored, Whole;
    parts' := parts + [k];
    var saved' := saved1 + [Saved(dinode, block, bits)];
    forall c {:trigger parts'[c]} | 0 <= c < |parts'|
      ensures PartSaved(ino, blk, saved'[|saved| + c], i, off, addr, n, parts'[c])
    {
      assert c < |parts| ==> parts'[c] == parts[c] && saved'[|saved| + c] == saved1[|saved| + c];
    }
  }

  /** The home sectors went from a to b, and lh lists every sector that changed. */
  ghost predicate Commits(a: Saved, b: Saved, lh: seq<int>) {
    && |b.dinode| == |a.dinode| && |b.block| == |a.block| && |b.bits| == |a.bits| && Flushed(a, b, lh) == b
  }

  /** From saved on, each commit brought home the sectors that its log lists. */
  ghost predicate Committed(saved: seq<Saved>, saved': seq<Saved>, logs: seq<seq<int>>) {
    && saved != [] && saved <= saved' && |saved'| == |saved| + |logs|
    && forall c {:trigger logs[c]} :: 0 <= c < |logs| ==>
         Commits(saved'[|saved| + c - 1], saved'[|saved| + c], logs[c])
  }

  lemma {:induction false} NothingCommitted(saved: seq<Saved>)
    requires saved != []
    ensures Committed(saved, saved, [])
  {
  }

  lemma {:induction false} MoreCommitted(saved: seq<Saved>, saved1: seq<Saved>, logs: seq<seq<int>>, b: Saved,
                                         lh: seq<int>)
    requires Committed(saved, saved1, logs) && Commits(saved1[|saved1| - 1], b, lh)
    ensures Committed(saved, saved1 + [b], logs + [lh])
  {
    hide Commits;
    var saved', logs' := saved1 + [b], logs + [lh];
    forall c {:trigger logs'[c]} | 0 <= c < |logs'|
      ensures Commits(saved'[|saved| + c - 1], saved'[|saved| + c], logs'[c])
    {
      assert c < |logs| ==> logs'[c] == logs[c] && saved'[|saved| + c] == saved1[|saved| + c];
    }
  }

  class FileSys {
    const first: nat           // blocks below this one hold metadata
    const nlog: nat
    var bitmap: seq<bool>
    var block: seq<Block>
    var dinode: seq<Inode>     // on disk
    var inode: seq<Inode>      // in memory
    var busy: bool             // a transaction is open
    var lh: seq<int>           // the sectors it has logged

    ghost var owner: seq<Owner>
    ghost var saved: seq<Saved> // the home sectors, as mkfs and each commit so far left them

    constructor (first: nat, nlog: nat, bitmap: seq<bool>, block: seq<Block>, inode: seq<Inode>,
                 ghost owner: seq<Owner>)
      requires Owns(first, bitmap, inode, block, owner) && forall i :: 0 <= i < |inode| ==> inode[i].size <= MAXSIZE
      ensures Valid() && this.first == first && this.nlog == nlog && this.bitmap == bitmap && this.block == block
      ensures this.inode == this.dinode == inode && !busy && lh == [] && saved == [Saved(inode, block, bitmap)]
    {
      this.first, this.nlog, this.bitmap, this.block, this.owner := first, nlog, bitmap, block, owner;
      this.inode, this.dinode, busy, lh := inode, inode, false, [];
      saved := [Saved(inode, block, bitmap)];
    }

    ghost predicate Valid()
      reads this
    {
      && Shaped(inode, block) && |bitmap| == |block|
      && Owns(first, bitmap, inode, block, owner)
      && |dinode| == |inode|
      && (forall i :: 0 <= i < |inode| ==> inode[i].size <= MAXSIZE)
      && RedoLog.NoDuplicates(lh) && saved != []
    }

    lemma {:induction false} ValidFacts()
      requires Valid()
      ensures |dinode| == |inode|
      ensures Shaped(inode, block) && RedoLog.NoDuplicates(lh)
      ensures forall j :: 0 <= j < |inode| ==> inode[j].size <= MAXSIZE
    {
    }

    function BitmapSector(b: nat): nat
      reads this
    {
      BBlock(b, |inode|)
    }

    function InodeSector(i: nat): nat {
      IBlock(i)
    }

    predicate LogFull()
      reads this
    {
      |lh| >= LOGSIZE || |lh| >= nlog - 1
    }

    ghost function Now(): View
      reads this
    {
      View(inode, block, bitmap, lh)
    }

    /** log_write, as seen by its callers. */
    method LogWrite(sector: nat) returns (r: Result<()>)
      requires RedoLog.NoDuplicates(lh)
      modifies this`lh
      ensures r == if old(LogFull()) then Panic(TooBig) else if !busy then Panic(OutsideTrans) else Ok(())
      ensures RedoLog.NoDuplicates(lh)
      ensures r.Panic? ==> lh == old(lh)
      ensures r.Ok? ==>
        && lh == RedoLog.Absorbed(old(lh), sector) && Sectors(lh) == Sectors(old(lh)) + {sector}
        && |lh| <= |old(lh)| + 1
    {
      if LogFull() {
        return Panic(TooBig);
      }
      if !busy {
        return Panic(OutsideTrans);
      }
      AbsorbedSectors(lh, sector);
      lh := RedoLog.Absorbed(lh, sector);
      return Ok(());
    }

    /** balloc's scan, a bitmap block at a time: the lowest clear bit, or the end. */
    method FindFree() returns (b: nat)
      ensures b <= |bitmap| && (b < |bitmap| ==> !bitmap[b])
      ensures forall c :: 0 <= c < b ==> bitmap[c]
    {
      b := 0;
      while b < |bitmap|
        invariant forall c :: 0 <= c < b && c < |bitmap| ==> bitmap[c]
      {
        var bi := 0;
        while bi < BPB && b + bi < |bitmap|
          invariant 0 <= bi <= BPB
          invariant forall c :: 0 <= c < b + bi && c < |bitmap| ==> bitmap[c]
        {
          if !bitmap[b + bi] {
            return b + bi;
          }
          bi := bi + 1;
        }
        b := b + BPB;
      }
      return |bitmap|;
    }

    /** balloc: mark and zero the lowest free block. */
    method BAlloc() returns (r: Result<nat>)
      requires |bitmap| == |block| && RedoLog.NoDuplicates(lh)
      modifies this`bitmap, this`block, this`lh
      ensures RedoLog.NoDuplicates(lh)
      ensures r == Panic(OutOfBlocks) <==> forall b :: 0 <= b < |old(bitmap)| ==> old(bitmap)[b]
      ensures r == Panic(TooBig) ==> Near(old(lh), 1)
      ensures r.Panic? ==> r.cause in {OutOfBlocks, TooBig, OutsideTrans} && (r.cause.OutsideTrans? ==> !busy)
      ensures r.Ok? ==>
        && r.value < |old(bitmap)| && !old(bitmap)[r.value]
        && (forall b :: 0 <= b < r.value ==> old(bitmap)[b])
        && bitmap == old(bitmap)[r.value := true]
        && block == old(block)[r.value := ZERO_BLOCK]
        && Sectors(lh) == Sectors(old(lh)) + {BitmapSector(r.value), r.value}
        && |lh| <= |old(lh)| + 2
      ensures r.Ok? ==> Logged(old(Now()), Now())
      ensures r == Panic(OutOfBlocks) ==> Clear(old(bitmap)) == 0
      ensures r.Ok? ==> busy && Clear(old(bitmap)) == Clear(bitmap) + 1
    {
      hide RedoLog.Absorbed, RedoLog.NoDuplicates, Sectors, Clear;
      var b := FindFree();
      if b == |bitmap| {
        NoneClear(bitmap);
        r := Panic(OutOfBlocks);
      } else {
        ClearLess(bitmap, b);
        bitmap := bitmap[b := true];
        var w := LogWrite(BitmapSector(b));
        if w.Ok? {
          block := block[b := ZERO_BLOCK];
          w := LogWrite(b);
        }
        r := if w.Panic? then Panic(w.cause) else Ok(b);
      }
    }

    /** Fewer than d further sectors fit in the log. */
    predicate Near(lh: seq<int>, d: nat) {
      |lh| + d >= LOGSIZE || |lh| + d >= nlog - 1
    }

    /** bmap for a direct block: allocate it if its slot is empty. */
    method MapDirect(i: nat, k: nat) returns (r: Result<int>)
      requires Valid() && i < |inode| && k < NDIRECT
      modifies this`bitmap, this`block, this`lh, this`inode, this`owner
      ensures r.Panic? ==> r.cause in {OutOfBlocks, TooBig, OutsideTrans}
      ensures r == Panic(OutsideTrans) ==> !busy
      ensures r == Panic(OutOfBlocks) ==> Clear(old(bitmap)) == 0
      ensures r.Ok? ==> Clear(old(bitmap)) <= Clear(bitmap) + 1
      ensures r == Panic(TooBig) ==> Near(old(lh), 1)
      ensures old(inode)[i].addrs[k] != 0 ==> r.Ok? && unchanged(this)
      ensures r.Ok? && !busy ==> old(inode)[i].addrs[k] != 0
      ensures r.Ok? ==>
        && Valid() && |block| == |old(block)| && 0 < r.value < |block|
        && inode == SetAddr(old(inode), i, k, r.value)
      ensures r.Ok? ==> SameBytes(old(inode), old(block), inode, block)
      ensures r.Ok? ==> SlotsKept(old(inode), old(block), inode, block, Direct(i, k))
      ensures r.Ok? ==> Kept(old(inode), old(block), inode, block) && Logged(old(Now()), Now())
      ensures r.Ok? ==> Sectors(lh) <= Sectors(old(lh)) + {BitmapSector(r.value), r.value} && |lh| <= |old(lh)| + 2
    {
      hide RedoLog.Absorbed, RedoLog.NoDuplicates, Sectors, FileByte, SameBytes, Kept, Clear;
      var addr := inode[i].addrs[k];
      assert At(inode, block, Direct(i, k)) == addr;
      NothingMapped(inode, block, i, k);
      if addr == 0 {
        var b := BAlloc();
        if b.Panic? {
          r := Panic(b.cause);
          return;
        }
        addr := b.value;
        ClaimDirect(first, old(bitmap), inode, old(block), owner, i, k, addr);
        inode := SetAddr(inode, i, k, addr);
        owner := owner[addr := By(Direct(i, k))];
      }
      OthersAreKept(old(inode), old(block), inode, block, Direct(i, k));
      r := Ok(addr);
    }

    /** bmap's first step for an indirect block: allocate the block of addresses if there is none. */
    method MapIndirect(i: nat) returns (r: Result<int>)
      requires Valid() && i < |inode|
      modifies this`bitmap, this`block, this`lh, this`inode, this`owner
      ensures r.Panic? ==> r.cause in {OutOfBlocks, TooBig, OutsideTrans}
      ensures r == Panic(OutsideTrans) ==> !busy
      ensures r == Panic(OutOfBlocks) ==> Clear(old(bitmap)) == 0
      ensures r.Ok? ==> Clear(old(bitmap)) == Clear(bitmap) + Lacks(old(inode)[i].addrs)
      ensures r == Panic(TooBig) ==> Near(old(lh), 1)
      ensures old(inode)[i].addrs[NDIRECT] != 0 ==> r.Ok? && unchanged(this)
      ensures r.Ok? && !busy ==> old(inode)[i].addrs[NDIRECT] != 0
      ensures r.Ok? ==>
        && Valid() && |block| == |old(block)| && 0 < r.value < |block|
        && inode == SetAddr(old(inode), i, NDIRECT, r.value)
      ensures r.Ok? ==> SameBytes(old(inode), old(block), inode, block)
      ensures r.Ok? ==> SlotsKept(old(inode), old(block), inode, block, Indirect(i))
      ensures r.Ok? ==> Kept(old(inode), old(block), inode, block) && Logged(old(Now()), Now())
      ensures r.Ok? ==> Sectors(lh) <= Sectors(old(lh)) + {BitmapSector(r.value), r.value} && |lh| <= |old(lh)| + 2
    {
      hide RedoLog.Absorbed, RedoLog.NoDuplicates, Sectors, FileByte, SameBytes, Kept, Clear;
      var addr := inode[i].addrs[NDIRECT];
      assert At(inode, block, Indirect(i)) == addr;
      NothingMapped(inode, block, i, NDIRECT);
      if addr == 0 {
        var b := BAlloc();
        if b.Panic? {
          r := Panic(b.cause);
          return;
        }
        addr := b.value;
        ClaimIndirect(first, old(bitmap), inode, old(block), owner, i, addr);
        inode := SetAddr(inode, i, NDIRECT, addr);
        owner := owner[addr := By(Indirect(i))];
      }
      OthersAreKept(old(inode), old(block), inode, block, Indirect(i));
      r := Ok(addr);
    }

    /** bmap's second step: allocate the data block if its word in the indirect block is 0. */
    method MapEntry(i: nat, j: nat) returns (r: Result<int>)
      requires Valid() && i < |inode| && j < NINDIRECT && 0 < inode[i].addrs[NDIRECT] < |block|
      modifies this`bitmap, this`block, this`lh, this`owner
      ensures r.Panic? ==> r.cause in {OutOfBlocks, TooBig, OutsideTrans}
      ensures r == Panic(OutsideTrans) ==> !busy
      ensures r == Panic(OutOfBlocks) ==> Clear(old(bitmap)) == 0
      ensures r.Ok? ==> Clear(old(bitmap)) <= Clear(bitmap) + 1
      ensures r == Panic(TooBig) ==> Near(old(lh), 2)
      ensures At(inode, old(block), Entry(i, j)) != 0 ==> r.Ok? && unchanged(this)
      ensures r.Ok? && !busy ==> At(inode, old(block), Entry(i, j)) != 0
      ensures r.Ok? ==>
        Valid() && |block| == |old(block)| && 0 < r.value < |block| && r.value == At(inode, block, Entry(i, j))
      ensures r.Ok? ==> SameBytes(inode, old(block), inode, block)
      ensures r.Ok? ==> SlotsKept(inode, old(block), inode, block, Entry(i, j))
      ensures r.Ok? ==> Kept(inode, old(block), inode, block) && Logged(old(Now()), Now())
      ensures r.Ok? ==> Sectors(lh) <= Sectors(old(lh)) + {BitmapSector(r.value), r.value, inode[i].addrs[NDIRECT]}
    {
      hide RedoLog.Absorbed, RedoLog.NoDuplicates, Sectors, FileByte, SameBytes, Kept, Clear;
      var ind := inode[i].addrs[NDIRECT];
      var addr := Word(block[ind], j);
      assert At(inode, block, Entry(i, j)) == addr;
      NothingMapped(inode, block, i, NDIRECT);
      if addr == 0 {
        var b := BAlloc();
        if b.Panic? {
          r := Panic(b.cause);
          return;
        }
        addr := b.value;
        ClaimEntry(first, old(bitmap), inode, old(block), owner, i, j, addr);
        block := block[ind := PutWord(block[ind], j, addr)];
        owner := owner[addr := By(Entry(i, j))];
        var w := LogWrite(ind);
        if w.Panic? {
          r := Panic(w.cause);
          return;
        }
      }
      OthersAreKept(inode, old(block), inode, block, Entry(i, j));
      r := Ok(addr);
    }

    /** bmap beyond the direct blocks. */
    method MapThrough(i: nat, j: nat) returns (r: Result<int>)
      requires Valid() && i < |inode| && j < NINDIRECT
      modifies this`bitmap, this`block, this`lh, this`inode, this`owner
      ensures r.Panic? ==> r.cause in {OutOfBlocks, TooBig, OutsideTrans}
      ensures r == Panic(TooBig) ==> Near(old(lh), if old(inode)[i].addrs[NDIRECT] == 0 then 4 else 2)
      ensures At(old(inode), old(block), Entry(i, j)) != 0 ==> r.Ok? && unchanged(this)
      ensures r.Ok? && !busy ==> At(old(inode), old(block), Entry(i, j)) != 0
      ensures r.Ok? ==>
        && Valid() && |bitmap| == |old(bitmap)| && 0 < r.value < |block|
        && r.value == At(inode, block, Entry(i, j))
      ensures r.Ok? ==>
        && |inode| == |old(inode)| && inode[i].addrs[NDIRECT] != 0
        && inode == SetAddr(old(inode), i, NDIRECT, inode[i].addrs[NDIRECT])
      ensures r.Ok? ==>
        && (old(inode)[i].addrs[NDIRECT] != 0 ==> inode == old(inode))
        && SameBytes(old(inode), old(block), inode, block) && Kept(old(inode), old(block), inode, block)
        && Logged(old(Now()), Now())
      ensures r.Ok? && |bitmap| <= BPB ==>
        Sectors(lh) <= Sectors(old(lh)) + {BitmapSector(0), r.value} + IndirectOf(inode[i].addrs)
      ensures r == Panic(OutsideTrans) ==> !busy
      ensures r == Panic(OutOfBlocks) ==> Clear(old(bitmap)) <= Lacks(old(inode)[i].addrs)
      ensures r.Ok? ==> Clear(old(bitmap)) <= Clear(bitmap) + 1 + Lacks(old(inode)[i].addrs)
    {
      hide RedoLog.Absorbed, RedoLog.NoDuplicates, FileByte, SameBytes, Kept, Clear;
      var ind := MapIndirect(i);
      if ind.Panic? {
        r := Panic(ind.cause);
        return;
      }
      ghost var ino, blk := inode, block;
      r := MapEntry(i, j);
      if r.Ok? {
        SameBytesTrans(old(inode), old(block), ino, blk, inode, block);
        KeptTrans(old(inode), old(block), ino, blk, inode, block);
      }
    }

    /** bmap: the block that holds block bn of file i, allocated if there was none. */
    method BMap(i: nat, bn: nat) returns (r: Result<int>)
      requires Valid() && i < |inode|
      modifies this`bitmap, this`block, this`lh, this`inode, this`owner
      ensures r == Panic(OutOfRange) <==> bn >= MAXFILE
      ensures r.Panic? ==> r.cause in {OutOfBlocks, TooBig, OutsideTrans, OutOfRange}
      ensures r == Panic(TooBig) ==> Near(old(lh), if old(inode)[i].addrs[NDIRECT] == 0 then 4 else 2)
      ensures bn < MAXFILE && At(old(inode), old(block), DataSlot(i, bn)) != 0 ==> r.Ok? && unchanged(this)
      ensures r.Ok? && !busy ==> At(old(inode), old(block), DataSlot(i, bn)) != 0
      ensures r.Ok? ==> Valid() && |bitmap| == |old(bitmap)| && OnlyAddrs(old(inode), inode, i)
      ensures r.Ok? ==> 0 < r.value < |block| && r.value == At(inode, block, DataSlot(i, bn))
      ensures r.Ok? ==> SameBytes(old(inode), old(block), inode, block) && Kept(old(inode), old(block), inode, block)
      ensures r.Ok? ==> Logged(old(Now()), Now()) && Filled(old(inode)[i].addrs, inode[i].addrs, bn, bn + 1)
      ensures r.Ok? && |bitmap| <= BPB ==>
        Sectors(lh) <= Sectors(old(lh)) + {BitmapSector(0), r.value} + IndirectOf(inode[i].addrs)
      ensures r == Panic(OutsideTrans) ==> !busy
      ensures r == Panic(OutOfBlocks) ==> Clear(old(bitmap)) <= Lacks(old(inode)[i].addrs)
      ensures r.Ok? ==> Clear(old(bitmap)) + Lacks(inode[i].addrs) <= Clear(bitmap) + 1 + Lacks(old(inode)[i].addrs)
    {
      hide Owns, RedoLog.Absorbed, RedoLog.NoDuplicates, FileByte, SameBytes, Kept, Clear, Lacks;
      if bn < NDIRECT {
        r := MapDirect(i, bn);
        assert SlotIndex(bn) == bn;
        if r.Ok? {
          LacksAfter(old(inode), i, bn, r.value);
        }
      } else if bn < MAXFILE {
        r := MapThrough(i, bn - NDIRECT);
        assert SlotIndex(bn) == NDIRECT;
        if r.Ok? {
          LacksAfter(old(inode), i, NDIRECT, inode[i].addrs[NDIRECT]);
        }
      } else {
        r := Panic(OutOfRange);
      }
    }

    /** iupdate: copy the in-memory inode to disk. */
    method IUpdate(i: nat) returns (r: Result<()>)
      requires Valid() && i < |inode|
      modifies this`dinode, this`lh
      ensures r == if old(LogFull()) then Panic(TooBig) else if !busy then Panic(OutsideTrans) else Ok(())
      ensures r.Ok? ==> Valid() && dinode == old(dinode)[i := inode[i]]
      ensures r.Ok? ==> Sectors(lh) == Sectors(old(lh)) + {InodeSector(i)} && |lh| <= |old(lh)| + 1
    {
      hide Owns, RedoLog.Absorbed, RedoLog.NoDuplicates;
      dinode := dinode[i := inode[i]];
      r := LogWrite(InodeSector(i));
    }

    /** One round of writei's loop. */
    method WriteRound(i: nat, off: nat, data: seq<int>) returns (r: Result<()>)
      requires Valid() && i < |inode| && off + |data| <= MAXSIZE && 0 < |data| <= BSIZE - off % BSIZE
      modifies this`bitmap, this`block, this`lh, this`inode, this`owner
      ensures r.Panic? ==> r.cause in {OutOfBlocks, TooBig, OutsideTrans}
      ensures r == Panic(TooBig) && |old(bitmap)| <= BPB ==>
        Near(old(lh), if old(inode)[i].addrs[NDIRECT] == 0 then 4 else 3)
      ensures r == Panic(TooBig) && At(old(inode), old(block), DataSlot(i, off / BSIZE)) != 0 ==> Near(old(lh), 0)
      ensures r.Ok? ==> Valid() && |inode| == |old(inode)| && Account(old(Now()), Now(), i, off / BSIZE)
      ensures r.Ok? ==> Written(old(inode), old(block), inode, block, i, off, data)
      ensures r.Ok? ==> Kept(old(inode), old(block), inode, block)
      ensures r.Ok? ==>
        var a := At(inode, block, DataSlot(i, off / BSIZE));
        a != 0 && a in Sectors(lh)
      ensures r == Panic(OutsideTrans) ==> !busy
      ensures r.Ok? ==> busy
      ensures r == Panic(OutOfBlocks) ==> Clear(old(bitmap)) <= Lacks(old(inode)[i].addrs)
    {
      hide Clear, Lacks, RedoLog.Absorbed, RedoLog.NoDuplicates, FileByte, SameBytes, Kept, At, Filled, Written, Logged;
      var a := BMap(i, off / BSIZE);
      if a.Panic? {
        r := Panic(a.cause);
        return;
      }
      if |bitmap| <= BPB {
        ThreeMore(old(lh), lh, BitmapSector(0), a.value, inode[i].addrs);
      }
      ghost var v := Now();
      WriteBlock(first, bitmap, old(inode), old(block), inode, block, owner, i, off, data);
      block := block[a.value := Overwrite(block[a.value], off % BSIZE, data)];
      KeptTrans(old(inode), old(block), inode, v.blk, inode, block);
      r := LogWrite(a.value);
      if r.Ok? {
        LoggedBlock(old(Now()), v, Now(), a.value);
      }
      assert r.Ok? && |bitmap| <= BPB ==>
        Sectors(lh) <= Sectors(old(lh)) + {BitmapOf(old(Now())), a.value} + IndirectOf(inode[i].addrs);
    }

    /** The loop of writei. */
    method WriteLoop(i: nat, src: seq<int>, off: nat, n: nat) returns (r: Result<()>)
      requires Valid() && i < |inode| && n <= |src| && off + n <= MAXSIZE
      modifies this`bitmap, this`block, this`lh, this`inode, this`owner
      ensures r.Panic? ==> r.cause in {OutOfBlocks, TooBig, OutsideTrans}
      ensures r == Panic(TooBig) && |old(bitmap)| <= BPB ==> Near(old(lh), EndBlock(off, n) - off / BSIZE + 4)
      ensures r == Panic(TooBig) && MappedOnce(old(inode), old(block), i, off, n) ==> Near(old(lh), 0)
      ensures r.Ok? ==> Valid() && Progress(old(Now()), Now(), i, off, src[..n])
      ensures r.Ok? && |bitmap| <= BPB ==> |lh| <= |old(lh)| + EndBlock(off, n) - off / BSIZE + 2
      ensures r == Panic(OutsideTrans) ==> !busy
      ensures r.Ok? && n > 0 ==> busy
      ensures r == Panic(OutOfBlocks) ==>
        Clear(old(bitmap)) < EndBlock(off, n) - off / BSIZE + Lacks(old(inode)[i].addrs)
    {
      hide FileSys.Valid, Shaped, Account, Accounts, Progress, MappedOnce, Written, OnlyAddrs, Filled, EndBlock, Clear,
           Lacks, RedoLog.NoDuplicates, At;
      var tot := 0;
      ghost var v0, mapped := Now(), MappedOnce(inode, block, i, off, n);
      ValidFacts();
      LastBlock(off, n);
      if mapped {
        OnceOnly(inode, block, i, off, n);
      }
      ProgressStart(v0, i, off);
      ProgressFacts(v0, v0, i, off, []);
      assert src[..0] == [];
      r := Ok(());
      while tot < n
        invariant 0 <= tot <= n && r.Ok? && (0 < tot < n ==> (off + tot) % BSIZE == 0)
        invariant Valid() && |inode| == |old(inode)| && RedoLog.NoDuplicates(lh)
        invariant Progress(v0, Now(), i, off, src[..tot])
        invariant tot == 0 ==> unchanged(this)
        invariant tot > 0 ==> EndBlock(off, tot) > off / BSIZE && busy
      {
        var m := if n - tot < BSIZE - (off + tot) % BSIZE then n - tot else BSIZE - (off + tot) % BSIZE;
        RoundArithmetic(off, tot, n, m);
        ghost var v := Now();
        LastBlock(off, tot);
        ProgressFacts(v0, v, i, off, src[..tot]);
        r := WriteRound(i, off + tot, src[tot..tot + m]);
        if r.Panic? {
          return;
        }
        assert src[..tot + m] == src[..tot] + src[tot..tot + m];
        ValidFacts();
        ProgressStep(v0, v, Now(), i, off, src[..tot], src[tot..tot + m]);
        tot := tot + m;
      }
      ProgressFacts(v0, Now(), i, off, src[..tot]);
    }

    /** A transfer that fits one transaction of filewrite. */
    predicate Small(n: nat)
      reads this
    {
      |bitmap| <= BPB && n <= CHUNK && nlog >= LOGSIZE
    }

    /** The end of writei on a file that grew. */
    method SetSize(i: nat, size: nat) returns (r: Result<()>)
      requires Valid() && i < |inode| && size <= MAXSIZE
      modifies this`inode, this`dinode, this`lh
      ensures r == if old(LogFull()) then Panic(TooBig) else if !busy then Panic(OutsideTrans) else Ok(())
      ensures r.Ok? ==>
        && Valid() && inode == old(inode)[i := old(inode)[i].(size := size)]
        && dinode == old(dinode)[i := inode[i]]
      ensures r.Ok? ==> Sectors(lh) == Sectors(old(lh)) + {InodeSector(i)}
      ensures r.Ok? ==> |lh| <= |old(lh)| + 1 && SameBytes(old(inode), block, inode, block)
    {
      hide Owns, RedoLog.Absorbed, RedoLog.NoDuplicates, FileByte, SameBytes;
      ResizeKeeps(first, bitmap, inode, block, owner, i, inode[i].(size := size));
      inode := inode[i := inode[i].(size := size)];
      r := IUpdate(i);
    }

    /** The end of writei: the size and the inode on disk, if the file grew. */
    method Close(i: nat, off: nat, data: seq<int>, ghost v: View) returns (r: Result<()>)
      requires Valid() && i < |inode| && Shaped(v.ino, v.blk) && OnlyAddrs(v.ino, inode, i)
      requires Written(v.ino, v.blk, inode, block, i, off, data)
      requires off <= v.ino[i].size && off + |data| <= MAXSIZE
      requires forall j :: 0 <= j < |v.ino| ==> v.ino[j].size <= MAXSIZE
      modifies this`inode, this`dinode, this`lh
      ensures r.Panic? ==> r == if old(LogFull()) then Panic(TooBig) else Panic(OutsideTrans)
      ensures r.Panic? ==> off + |data| > v.ino[i].size && (r == Panic(OutsideTrans) ==> !busy)
      ensures r.Ok? ==> Valid() && |inode| == |v.ino|
      ensures r.Ok? ==> Contents(inode, block, i) == Splice(Contents(v.ino, v.blk, i), off, data)
      ensures r.Ok? ==> forall j :: 0 <= j < |inode| && j != i ==>
        inode[j] == v.ino[j] && Contents(inode, block, j) == Contents(v.ino, v.blk, j)
      ensures r.Ok? ==> inode[i] == v.ino[i].(size := inode[i].size, addrs := old(inode)[i].addrs)
      ensures r.Ok? ==> inode[i].size == if off + |data| > v.ino[i].size then off + |data| else v.ino[i].size
      ensures r.Ok? ==> inode == old(inode)[i := old(inode)[i].(size := inode[i].size)]
      ensures r.Ok? ==> Sectors(old(lh)) <= Sectors(lh) && LoggedInodes(old(dinode), dinode, lh)
      ensures r.Ok? ==> |lh| <= |old(lh)| + 1 && |old(dinode)| == |old(inode)|
      ensures r.Ok? ==> dinode == if off + |data| > v.ino[i].size then old(dinode)[i := inode[i]] else old(dinode)
    {
      hide Owns, RedoLog.Absorbed, RedoLog.NoDuplicates, FileByte, Written, Splice, Contents, SameBytes;
      r := Ok(());
      if |data| > 0 && off + |data| > inode[i].size {
        ghost var ino := inode;
        r := SetSize(i, off + |data|);
        if r.Panic? {
          return;
        }
        WrittenResized(v.ino, v.blk, ino, block, inode, i, off, data);
      }
      ContentsSpliced(v.ino, v.blk, inode, block, i, off, data);
    }

    /** writei on a range that it accepts. */
    method WriteRange(i: nat, src: seq<int>, off: nat, n: nat) returns (r: Result<()>)
      requires Valid() && i < |inode| && n <= |src| && off <= inode[i].size && off + n <= MAXSIZE
      modifies this`bitmap, this`block, this`lh, this`inode, this`owner, this`dinode
      ensures r.Panic? ==> r.cause in {OutOfBlocks, TooBig, OutsideTrans}
      ensures r == Panic(TooBig) && |old(bitmap)| <= BPB ==> Near(old(lh), EndBlock(off, n) - off / BSIZE + 4)
      ensures r == Panic(TooBig) && off + n <= old(inode)[i].size && MappedOnce(old(inode), old(block), i, off, n) ==>
        Near(old(lh), 0)
      ensures r == Panic(OutsideTrans) ==> !busy
      ensures r == Panic(OutOfBlocks) ==>
        Clear(old(bitmap)) < EndBlock(off, n) - off / BSIZE + Lacks(old(inode)[i].addrs)
      ensures r.Ok? && n > 0 ==> busy
      ensures r.Ok? ==> Valid() && |bitmap| == |old(bitmap)| && |inode| == |old(inode)|
      ensures r.Ok? ==> Contents(inode, block, i) == Splice(Contents(old(inode), old(block), i), off, src[..n])
      ensures r.Ok? ==> forall j :: 0 <= j < |inode| && j != i ==>
        inode[j] == old(inode)[j] && Contents(inode, block, j) == Contents(old(inode), old(block), j)
      ensures r.Ok? ==> inode[i] == old(inode)[i].(size := inode[i].size, addrs := inode[i].addrs)
      ensures r.Ok? ==> inode[i].size == if off + n > old(inode)[i].size then off + n else old(inode)[i].size
      ensures r.Ok? ==> Filled(old(inode)[i].addrs, inode[i].addrs, off / BSIZE, EndBlock(off, n))
      ensures r.Ok? ==> |dinode| == |old(dinode)| == |inode|
      ensures r.Ok? ==> dinode == if off + n > old(inode)[i].size then old(dinode)[i := inode[i]] else old(dinode)
      ensures r.Ok? && |bitmap| <= BPB ==> |lh| <= |old(lh)| + EndBlock(off, n) - off / BSIZE + 3
      ensures r.Ok? ==> Logged(old(Now()), Now()) && AllLogged(Now(), i, off, n)
      ensures r.Ok? ==> LoggedInodes(old(dinode), dinode, lh)
      ensures r.Ok? ==>
        Clear(old(bitmap)) + Lacks(inode[i].addrs) <=
          Clear(bitmap) + EndBlock(off, n) - off / BSIZE + Lacks(old(inode)[i].addrs)
    {
      hide FileSys.Valid, Shaped, Clear, Lacks, EndBlock, RedoLog.NoDuplicates, Filled, Written, Progress, Accounts,
           MappedOnce, Logged, AllLogged, LoggedInodes, Sectors, Splice, Contents, SameBytes;
      ValidFacts();
      LastBlock(off, n);
      r := WriteLoop(i, src, off, n);
      if r.Panic? {
        return;
      }
      ProgressFacts(old(Now()), Now(), i, off, src[..n]);
      ghost var v := Now();
      r := Close(i, off, src[..n], old(Now()));
      if r.Panic? {
        return;
      }
      LoggedGrew(old(Now()), v, Now(), i, off, n);
    }

    /** writei on a file or directory: splice n bytes of src into the file at off. The inode on
        disk is then the one in memory exactly if the file grew or no inode slot had to be filled. */
    method WriteI(i: nat, src: seq<int>, off: nat, n: nat) returns (r: Result<int>)
      requires Valid() && i < |inode| && inode[i].kind != T_DEV && n <= |src| && off < UINT && n < UINT
      modifies this`bitmap, this`block, this`lh, this`inode, this`owner, this`dinode
      ensures r == Ok(-1) <==> off > old(inode)[i].size || off + n > MAXSIZE
      ensures r.Ok? ==> r.value == -1 || r.value == n
      ensures r == Ok(-1) ==> unchanged(this)
      ensures r.Panic? ==> r.cause in {OutOfBlocks, TooBig, OutsideTrans}
      ensures r == Panic(TooBig) ==> !old(lh == [] && Small(n))
      ensures r == Panic(TooBig) && |old(bitmap)| <= BPB ==> Near(old(lh), EndBlock(off, n) - off / BSIZE + 4)
      ensures r == Panic(TooBig) && off + n <= old(inode)[i].size && MappedOnce(old(inode), old(block), i, off, n) ==>
        Near(old(lh), 0)
      ensures r.Ok? ==> Valid() && |bitmap| == |old(bitmap)| && |inode| == |old(inode)|
      ensures r == Ok(n) ==> Contents(inode, block, i) == Splice(Contents(old(inode), old(block), i), off, src[..n])
      ensures r == Ok(n) ==> forall j :: 0 <= j < |inode| && j != i ==>
        && inode[j] == old(inode)[j] && dinode[j] == old(dinode)[j]
        && Contents(inode, block, j) == Contents(old(inode), old(block), j)
      ensures r == Ok(n) ==> inode[i] == old(inode)[i].(size := inode[i].size, addrs := inode[i].addrs)
      ensures r == Ok(n) ==> Filled(old(inode)[i].addrs, inode[i].addrs, off / BSIZE, EndBlock(off, n))
      ensures r == Ok(n) ==> dinode == if off + n > old(inode)[i].size then old(dinode)[i := inode[i]] else old(dinode)
      ensures r == Ok(n) && old(dinode)[i] == old(inode)[i] ==>
        (dinode[i] == inode[i] <==> off + n > old(inode)[i].size || NoneMissing(old(inode)[i].addrs, off, n))
      ensures r == Ok(n) && NoHoles(old(inode)[i]) ==>
        NoHoles(inode[i]) && (old(dinode)[i] == old(inode)[i] ==> dinode[i] == inode[i])
      ensures r == Ok(n) && |bitmap| <= BPB ==> |lh| <= |old(lh)| + EndBlock(off, n) - off / BSIZE + 3
      ensures r == Ok(n) && old(lh == [] && Small(n)) ==> |lh| <= RedoLog.CHUNK_SECTORS
      ensures r == Ok(n) ==> Logged(old(Now()), Now()) && AllLogged(Now(), i, off, n)
      ensures r == Ok(n) ==> LoggedInodes(old(dinode), dinode, lh)
      ensures r == Panic(OutsideTrans) ==> !busy
      ensures r == Ok(n) && n > 0 ==> busy
      ensures r == Panic(OutOfBlocks) ==>
        Clear(old(bitmap)) < EndBlock(off, n) - off / BSIZE + Lacks(old(inode)[i].addrs)
      ensures r == Ok(n) ==>
        Clear(old(bitmap)) + Lacks(inode[i].addrs) <=
          Clear(bitmap) + EndBlock(off, n) - off / BSIZE + Lacks(old(inode)[i].addrs)
    {
      hide FileSys.Valid, Shaped, Clear, Lacks, EndBlock, Filled, MappedOnce, Logged, AllLogged, LoggedInodes, Splice,
           Contents, NoHoles;
      ValidFacts();
      LastBlock(off, n);
      if off > inode[i].size || (off + n) % UINT < off || (off + n) % UINT > MAXSIZE {
        return Ok(-1);
      }
      var w := WriteRange(i, src, off, n);
      if w.Panic? {
        return Panic(w.cause);
      }
      FilledNothing(old(inode)[i].addrs, inode[i].addrs, off / BSIZE, EndBlock(off, n));
      if NoHoles(old(inode)[i]) {
        NoHolesKept(old(inode)[i], inode[i].addrs, off, n);
      }
      return Ok(n);
    }

    /** One round of readi's loop. */
    method ReadRound(i: nat, p: nat, k: nat) returns (r: Result<seq<int>>)
      requires Valid() && i < |inode| && p + k <= MAXSIZE && 0 < k <= BSIZE - p % BSIZE
      modifies this`bitmap, this`block, this`lh, this`inode, this`owner
      ensures r.Panic? ==> r.cause in {OutOfBlocks, TooBig, OutsideTrans}
      ensures r == Panic(OutsideTrans) ==> !busy
      ensures r == Panic(TooBig) ==> Near(old(lh), if old(inode)[i].addrs[NDIRECT] == 0 then 4 else 2)
      ensures r == Panic(OutOfBlocks) ==> Clear(old(bitmap)) <= Lacks(old(inode)[i].addrs)
      ensures r.Ok? ==> Valid() && LooksUp(old(Now()), Now(), i, p / BSIZE)
      ensures r.Ok? ==> r.value == Range(old(inode), old(block), i, p, k)
      ensures At(old(inode), old(block), DataSlot(i, p / BSIZE)) != 0 ==> r.Ok? && unchanged(this)
      ensures r.Ok? && !busy ==> At(old(inode), old(block), DataSlot(i, p / BSIZE)) != 0
    {
      hide Owns, RedoLog.Absorbed, RedoLog.NoDuplicates, FileByte, Filled, SameBytes, Kept, At, Range, Clear, Lacks,
           Sectors;
      var a := BMap(i, p / BSIZE);
      if a.Panic? {
        return Panic(a.cause);
      }
      BytesOfBlock(old(inode), old(block), inode, block, i, p, k);
      assert |bitmap| <= BPB ==>
        Sectors(lh) <= Sectors(old(lh)) + {BitmapOf(old(Now())), a.value} + IndirectOf(inode[i].addrs);
      return Ok(block[a.value].bytes[p % BSIZE..p % BSIZE + k]);
    }

    /** The loop of readi. */
    method ReadLoop(i: nat, off: nat, m: nat) returns (r: Result<seq<int>>)
      requires Valid() && i < |inode| && off + m <= inode[i].size
      modifies this`bitmap, this`block, this`lh, this`inode, this`owner
      ensures r.Panic? ==> r.cause in {OutOfBlocks, TooBig, OutsideTrans}
      ensures r == Panic(OutsideTrans) ==> !busy
      ensures r == Panic(TooBig) && |old(bitmap)| <= BPB ==> Near(old(lh), EndBlock(off, m) - off / BSIZE + 4)
      ensures r == Panic(TooBig) && !busy ==> Near(old(lh), 4)
      ensures r == Panic(OutOfBlocks) ==>
        Clear(old(bitmap)) < EndBlock(off, m) - off / BSIZE + Lacks(old(inode)[i].addrs)
      ensures r.Ok? ==> Valid() && Scanned(old(Now()), Now(), i, off, m)
      ensures r.Ok? ==> r.value == Range(old(inode), old(block), i, off, m)
      ensures Solid(old(inode), old(block), i, off, m) ==> r.Ok? && unchanged(this)
      ensures r.Ok? && !busy ==> Solid(old(inode), old(block), i, off, m) && unchanged(this)
    {
      hide FileSys.Valid, Shaped, Scanned, SameFiles, LooksUp, Accounts, SameBytes, OnlyAddrs, EndBlock, Solid, At,
           Range, Clear, Lacks, Filled, RedoLog.NoDuplicates;
      ValidFacts();
      ghost var v0, solid := Now(), Solid(inode, block, i, off, m);
      ScanStart(v0, i, off);
      LastBlock(off, m);
      var dst := [];
      var tot := 0;
      while tot < m
        invariant 0 <= tot <= m && (0 < tot < m ==> (off + tot) % BSIZE == 0)
        invariant Valid() && |inode| == |old(inode)| && RedoLog.NoDuplicates(lh)
        invariant Scanned(v0, Now(), i, off, tot) && dst == Range(v0.ino, v0.blk, i, off, tot)
        invariant solid || !busy ==> unchanged(this)
        invariant !busy ==> Solid(v0.ino, v0.blk, i, off, tot)
      {
        var k := if m - tot < BSIZE - (off + tot) % BSIZE then m - tot else BSIZE - (off + tot) % BSIZE;
        RoundArithmetic(off, tot, m, k);
        ghost var v := Now();
        ScanFacts(v0, v, i, off, tot);
        SameFilesFacts(v0, v, i);
        ScanRange(v0, v, i, off, tot, k);
        if solid {
          SolidAt(v0.ino, v0.blk, i, off, m, off + tot);
        }
        var piece := ReadRound(i, off + tot, k);
        if piece.Panic? {
          return piece;
        }
        ValidFacts();
        ScanStep(v0, v, Now(), i, off, tot, k);
        ScanFacts(v0, Now(), i, off, tot + k);
        SameFilesFacts(v0, Now(), i);
        if !busy {
          SolidMore(v0.ino, v0.blk, i, off, tot, k);
        }
        dst := dst + piece.value;
        tot := tot + k;
      }
      return Ok(dst);
    }

    /** readi on a file or directory: the bytes of the flat file, with holes read as zeros. A hole is filled with
        a new block, without writing the inode back; so outside a transaction a range can be read exactly if it has
        none, and inside one the inode on disk is then the one in memory exactly if no inode slot had to be filled. */
    method ReadI(i: nat, off: nat, n: nat) returns (r: Result<int>, dst: seq<int>)
      requires Valid() && i < |inode| && inode[i].kind != T_DEV && off < UINT && n < UINT
      modifies this`bitmap, this`block, this`lh, this`inode, this`owner
      ensures r == Ok(-1) <==> off > old(inode)[i].size || off + n >= UINT
      ensures r == Ok(-1) ==> unchanged(this)
      ensures r.Ok? && r.value != -1 ==>
        && r.value == (if off + n > old(inode)[i].size then old(inode)[i].size - off else n)
        && dst == Contents(old(inode), old(block), i)[off..off + r.value]
      ensures r.Ok? ==> Valid() && |inode| == |old(inode)| && SameBytes(old(inode), old(block), inode, block)
      ensures r.Ok? && r.value != -1 ==> Scanned(old(Now()), Now(), i, off, r.value)
      ensures r.Panic? ==> r.cause in {OutOfBlocks, TooBig, OutsideTrans}
      ensures r == Panic(OutsideTrans) ==> !busy
      ensures r == Panic(TooBig) && |old(bitmap)| <= BPB ==> Near(old(lh), EndBlock(off, n) - off / BSIZE + 4)
      ensures r == Panic(TooBig) && !busy ==> Near(old(lh), 4)
      ensures r == Panic(OutOfBlocks) ==>
        Clear(old(bitmap)) < EndBlock(off, n) - off / BSIZE + Lacks(old(inode)[i].addrs)
      ensures Solid(old(inode), old(block), i, off, n) ==> r.Ok? && unchanged(this)
      ensures !busy && r != Ok(-1) ==> (r.Ok? <==> Solid(old(inode), old(block), i, off, n))
      ensures !busy && r.Ok? ==> unchanged(this)
      ensures r.Ok? && r.value != -1 && dinode[i] == old(inode)[i] ==>
        (dinode[i] == inode[i] <==> NoneMissing(old(inode)[i].addrs, off, r.value))
    {
      hide Owns, RedoLog.Absorbed, RedoLog.NoDuplicates, FileByte, SameBytes, Kept, SameFiles, Scanned, Filled,
           EndBlock,
           Solid, At, Range, Contents, Clear, Lacks;
      dst := [];
      NothingMapped(inode, block, i, 0);
      if off > inode[i].size || (off + n) % UINT < off {
        return Ok(-1), dst;
      }
      var m := if (off + n) % UINT > inode[i].size then inode[i].size - off else n;
      RangeFacts(inode, block, i, off, m, 0);
      SolidToEnd(inode, block, i, off, n, m);
      EndGrows(off, m, n);
      var d := ReadLoop(i, off, m);
      if d.Panic? {
        return Panic(d.cause), dst;
      }
      ScanFacts(old(Now()), Now(), i, off, m);
      SameFilesFacts(old(Now()), Now(), i);
      ScanFills(old(Now()), Now(), i, off, m);
      return Ok(m), d.value;
    }

    /** bfree. */
    method BFree(b: nat) returns (r: Result<()>)
      requires b < |bitmap| && RedoLog.NoDuplicates(lh)
      modifies this`bitmap, this`lh
      ensures RedoLog.NoDuplicates(lh) && |bitmap| == |old(bitmap)|
      ensures r == Panic(FreeingFree) <==> !old(bitmap)[b]
      ensures r.Panic? ==> r.cause in {FreeingFree, TooBig, OutsideTrans}
      ensures r == Panic(OutsideTrans) ==> !busy
      ensures r == Panic(TooBig) ==> Near(old(lh), 0)
      ensures r.Ok? ==> bitmap == old(bitmap)[b := false] && Sectors(lh) == Sectors(old(lh)) + {BitmapSector(b)}
      ensures r.Ok? ==> Logged(old(Now()), Now())
    {
      if !bitmap[b] {
        return Panic(FreeingFree);
      }
      bitmap := bitmap[b := false];
      r := LogWrite(BitmapSector(b));
    }

    /** itrunc's first loop. */
    method FreeDirects(i: nat) returns (r: Result<()>)
      requires Valid() && i < |inode|
      modifies this`bitmap, this`lh, this`inode
      ensures r.Panic? ==> r.cause in {TooBig, OutsideTrans}
      ensures r == Panic(OutsideTrans) ==> !busy
      ensures r.Ok? ==> Logged(old(Now()), Now())
      ensures r == Panic(TooBig) && |old(bitmap)| <= BPB ==> Near(old(lh), 1)
      ensures r.Ok? ==> RedoLog.NoDuplicates(lh) && BitsLeft(old(bitmap), owner, bitmap, i, NDIRECT, 0)
      ensures r.Ok? ==> OnlyAddrs(old(inode), inode, i) && |inode[i].addrs| == NDIRECT + 1
      ensures r.Ok? ==>
        && inode[i].addrs[NDIRECT] == old(inode)[i].addrs[NDIRECT]
        && forall k :: 0 <= k < NDIRECT ==> inode[i].addrs[k] == 0
      ensures r.Ok? && |bitmap| <= BPB ==> Sectors(lh) <= Sectors(old(lh)) + {BitmapSector(0)}
    {
      hide RedoLog.Absorbed, RedoLog.NoDuplicates, BitsLeft, Sectors, Logged;
      LoggedSelf(Now());
      FreedNone(bitmap, owner, i);
      var k := 0;
      while k < NDIRECT
        invariant 0 <= k <= NDIRECT && OnlyAddrs(old(inode), inode, i) && |inode[i].addrs| == NDIRECT + 1
        invariant RedoLog.NoDuplicates(lh) && BitsLeft(old(bitmap), owner, bitmap, i, k, 0) && |bitmap| == |old(bitmap)|
        invariant Logged(old(Now()), Now())
        invariant forall l :: 0 <= l < k ==> inode[i].addrs[l] == 0
        invariant forall l :: k <= l <= NDIRECT ==> inode[i].addrs[l] == old(inode)[i].addrs[l]
        invariant |bitmap| <= BPB ==> Sectors(lh) <= Sectors(old(lh)) + {BitmapSector(0)}
      {
        FreeNext(first, old(bitmap), old(inode), block, owner, bitmap, Direct(i, k), k, 0);
        if |bitmap| <= BPB {
          OneMore(old(lh), lh, BitmapSector(0));
        }
        if inode[i].addrs[k] != 0 {
          ghost var v := Now();
          r := BFree(inode[i].addrs[k]);
          if r.Panic? {
            return;
          }
          LoggedTrans(old(Now()), v, Now());
          v := Now();
          inode := SetAddr(inode, i, k, 0);
          LoggedMoreSectors(old(Now()), v, Now());
        }
        k := k + 1;
      }
      r := Ok(());
    }

    /** itrunc's second loop, over the indirect block. */
    method FreeEntries(i: nat, ghost bitmap0: seq<bool>, ghost ino: seq<Inode>) returns (r: Result<()>)
      requires Owns(first, bitmap0, ino, block, owner) && i < |ino| == |inode| && 0 < ino[i].addrs[NDIRECT] < |block|
      requires |inode[i].addrs| == NDIRECT + 1 && inode[i].addrs[NDIRECT] == ino[i].addrs[NDIRECT]
      requires RedoLog.NoDuplicates(lh) && BitsLeft(bitmap0, owner, bitmap, i, NDIRECT, 0)
      modifies this`bitmap, this`lh
      ensures r.Panic? ==> r.cause in {TooBig, OutsideTrans}
      ensures r == Panic(OutsideTrans) ==> !busy
      ensures r.Ok? ==> Logged(old(Now()), Now())
      ensures r == Panic(TooBig) && |old(bitmap)| <= BPB ==> Near(old(lh), 1)
      ensures r.Ok? ==> RedoLog.NoDuplicates(lh) && BitsLeft(bitmap0, owner, bitmap, i, NDIRECT, NINDIRECT)
      ensures r.Ok? && |bitmap| <= BPB ==> Sectors(lh) <= Sectors(old(lh)) + {BitmapSector(0)}
    {
      hide RedoLog.Absorbed, RedoLog.NoDuplicates, BitsLeft, Sectors, Logged;
      LoggedSelf(Now());
      BitsSize(bitmap0, owner, bitmap, i, NDIRECT, 0);
      var ind := inode[i].addrs[NDIRECT];
      var j := 0;
      while j < NINDIRECT
        invariant 0 <= j <= NINDIRECT && |bitmap| == |bitmap0|
        invariant RedoLog.NoDuplicates(lh) && BitsLeft(bitmap0, owner, bitmap, i, NDIRECT, j)
        invariant Logged(old(Now()), Now())
        invariant |bitmap| <= BPB ==> Sectors(lh) <= Sectors(old(lh)) + {BitmapSector(0)}
      {
        FreeNext(first, bitmap0, ino, block, owner, bitmap, Entry(i, j), NDIRECT, j);
        if |bitmap| <= BPB {
          OneMore(old(lh), lh, BitmapSector(0));
        }
        if Word(block[ind], j) != 0 {
          ghost var v := Now();
          r := BFree(Word(block[ind], j));
          if r.Panic? {
            return;
          }
          LoggedTrans(old(Now()), v, Now());
        }
        j := j + 1;
      }
      r := Ok(());
    }

    /** itrunc's treatment of the indirect block: its entries first, then the block itself. */
    method FreeIndirect(i: nat, ghost bits: seq<bool>, ghost ino: seq<Inode>) returns (r: Result<()>)
      requires Owns(first, bits, ino, block, owner) && i < |ino| == |inode| && |bits| == |bitmap|
      requires |inode[i].addrs| == NDIRECT + 1 && inode[i].addrs[NDIRECT] == ino[i].addrs[NDIRECT]
      requires RedoLog.NoDuplicates(lh) && BitsLeft(bits, owner, bitmap, i, NDIRECT, 0)
      modifies this`bitmap, this`lh, this`inode
      ensures r.Panic? ==> r.cause in {TooBig, OutsideTrans}
      ensures r == Panic(OutsideTrans) ==> !busy
      ensures r.Ok? ==> Logged(old(Now()), Now())
      ensures r == Panic(TooBig) && |bits| <= BPB ==> Near(old(lh), 1)
      ensures r.Ok? ==> RedoLog.NoDuplicates(lh) && inode == SetAddr(old(inode), i, NDIRECT, 0) && |bitmap| == |bits|
      ensures r.Ok? ==>
        forall b {:trigger bitmap[b]} :: 0 <= b < |bits| ==>
          bitmap[b] == (bits[b] && !(owner[b].By? && owner[b].slot.i == i))
      ensures r.Ok? && |bitmap| <= BPB ==> Sectors(lh) <= Sectors(old(lh)) + {BitmapSector(0)}
    {
      hide RedoLog.Absorbed, RedoLog.NoDuplicates, BitsLeft, Owns, At, Sectors, Logged;
      LoggedSelf(Now());
      IndirectInRange(first, bits, ino, block, owner, i);
      var ind := inode[i].addrs[NDIRECT];
      r := Ok(());
      if ind != 0 {
        r := FreeEntries(i, bits, ino);
        if r.Panic? {
          return;
        }
        LoopsDone(first, bits, ino, block, owner, i, bitmap);
        if |bitmap| <= BPB {
          OneMore(old(lh), lh, BitmapSector(0));
        }
        ghost var v := Now();
        r := BFree(ind);
        if r.Panic? {
          return;
        }
        LoggedTrans(old(Now()), v, Now());
        v := Now();
        inode := SetAddr(inode, i, NDIRECT, 0);
        LoggedMoreSectors(old(Now()), v, Now());
      } else {
        LoopsDone(first, bits, ino, block, owner, i, bitmap);
        assert inode[i].addrs[NDIRECT := 0] == inode[i].addrs;
      }
    }

    /** itrunc: free exactly the blocks of file i. No free of a free block can occur. */
    method ITrunc(i: nat) returns (r: Result<()>)
      requires Valid() && i < |inode|
      modifies this`bitmap, this`lh, this`inode, this`dinode, this`owner
      ensures r.Panic? ==> r.cause in {TooBig, OutsideTrans}
      ensures r == Panic(OutsideTrans) ==> !busy
      ensures r.Ok? ==> Logged(old(Now()), Now()) && LoggedInodes(old(dinode), dinode, lh)
      ensures r == Panic(TooBig) && |old(bitmap)| <= BPB ==> Near(old(lh), 2)
      ensures r.Ok? ==> Valid() && |inode| == |old(inode)| && |bitmap| == |old(bitmap)|
      ensures r.Ok? ==>
        && inode[i] == old(inode)[i].(size := 0, addrs := seq(NDIRECT + 1, _ => 0))
        && dinode == old(dinode)[i := inode[i]]
      ensures r.Ok? ==> forall b: nat {:trigger bitmap[b]} :: b < |bitmap| ==>
        (bitmap[b] <==> old(bitmap)[b] && !(old(owner)[b].By? && old(owner)[b].slot.i == i))
      ensures r.Ok? ==> forall j :: 0 <= j < |inode| && j != i ==>
        inode[j] == old(inode)[j] && Contents(inode, block, j) == Contents(old(inode), block, j)
    {
      hide RedoLog.Absorbed, RedoLog.NoDuplicates, BitsLeft, FileByte, Owns, At, Contents, Logged;
      ghost var bits, ino := bitmap, inode;
      IndirectInRange(first, bitmap, inode, block, owner, i);
      r := FreeDirects(i);
      if r.Panic? {
        return;
      }
      BitsSize(bits, owner, bitmap, i, NDIRECT, 0);
      if |bitmap| <= BPB {
        OneMore(old(lh), lh, BitmapSector(0));
      }
      ghost var v := Now();
      r := FreeIndirect(i, bits, ino);
      if r.Panic? {
        return;
      }
      LoggedTrans(old(Now()), v, Now());
      v := Now();
      if |bitmap| <= BPB {
        OneMore(old(lh), lh, BitmapSector(0));
      }
      inode := inode[i := inode[i].(size := 0)];
      assert inode[i].addrs == seq(NDIRECT + 1, _ => 0);
      assert inode == ino[i := inode[i]];
      TruncateOwns(first, bits, ino, block, owner, i, bitmap, inode[i], OwnerWithout(owner, i));
      OthersKept(ino, inode, block, i);
      owner := OwnerWithout(owner, i);
      r := IUpdate(i);
      if r.Ok? {
        LoggedMoreSectors(old(Now()), v, Now());
      }
    }

    /** Between transactions: what bread shows is what is at the home sectors. */
    ghost predicate Clean()
      reads this
    {
      saved != [] && saved[|saved| - 1] == Saved(dinode, block, bitmap)
    }

    /** begin_trans and commit_trans, as filewrite needs them: each chunk starts with an empty log, and the commit
        brings the sectors that it lists home. */
    method BeginTrans()
      modifies this`busy
      ensures busy && (old(Valid()) ==> Valid())
    {
      busy := true;
    }

    method CommitTrans()
      requires saved != []
      modifies this`busy, this`lh, this`saved
      ensures !busy && lh == [] && (old(Valid()) ==> Valid())
      ensures saved == old(saved) + [Flushed(old(saved[|saved| - 1]), Saved(dinode, block, bitmap), old(lh))]
    {
      saved := saved + [Flushed(saved[|saved| - 1], Saved(dinode, block, bitmap), lh)];
      busy, lh := false, [];
    }

    /** One round of filewrite: a transaction around one writei. */
    method WriteChunk(i: nat, src: seq<int>, off: nat, n: nat) returns (r: Result<int>, ghost logged: seq<int>)
      requires Valid() && i < |inode| && inode[i].kind != T_DEV && n <= |src| && off < UINT && n <= CHUNK && lh == []
      modifies this
      ensures r == Ok(-1) <==> off > old(inode)[i].size || off + n > MAXSIZE
      ensures r.Ok? ==> r.value == -1 || r.value == n
      ensures r.Panic? ==> r.cause in {OutOfBlocks, TooBig} && saved == old(saved)
      ensures r == Panic(TooBig) ==> !(|old(bitmap)| <= BPB && nlog >= LOGSIZE)
      ensures r == Panic(OutOfBlocks) ==> Clear(old(bitmap)) < 4 + Lacks(old(inode)[i].addrs)
      ensures r.Ok? ==> Valid() && lh == [] && |bitmap| == |old(bitmap)| && |inode| == |old(inode)|
      ensures r.Ok? ==> inode[i].kind == old(inode)[i].kind && |saved| == |old(saved)| + 1 && old(saved) <= saved
      ensures r.Ok? && old(Clean()) ==> Clean() && saved == old(saved) + [Saved(dinode, block, bitmap)]
      ensures r.Ok? && old(Clean()) ==> Commits(old(saved)[|old(saved)| - 1], saved[|saved| - 1], logged)
      ensures r.Ok? ==> Clear(old(bitmap)) + Lacks(inode[i].addrs) <= Clear(bitmap) + 4 + Lacks(old(inode)[i].addrs)
      ensures r == Ok(-1) ==>
        inode == old(inode) && block == old(block) && bitmap == old(bitmap) && dinode == old(dinode)
      ensures r == Ok(n) ==> Stored(old(inode), old(block), inode, block, i, off, src[..n])
      ensures r.Ok? && NoHoles(old(inode)[i]) && old(dinode == inode) ==> NoHoles(inode[i]) && dinode == inode
    {
      hide Clear, Lacks, EndBlock, Owns, RedoLog.Absorbed, RedoLog.NoDuplicates, FileByte, Splice, Contents, NoHoles,
           Logged, AllLogged, LoggedInodes, Flushed;
      logged := [];
      LastBlock(off, n);
      LoggedSelf(Now());
      NoInodes(dinode, lh);
      BeginTrans();
      r := WriteI(i, src, off, n);
      if r.Panic? {
        return;
      }
      AllFlushed(old(Now()), Now(), old(dinode), dinode);
      logged := lh;
      CommitTrans();
      if NoHoles(old(inode)[i]) && old(dinode == inode) {
        assert dinode == inode;
      }
    }

    /** filewrite on an inode: chunks of at most CHUNK bytes, one transaction each. It succeeds
        exactly if the whole range fits; otherwise the chunks that fit have been stored. Whatever its outcome,
        the disk showed at each commit a file with a number of whole chunks stored, or all of them. */
    method FileWrite(i: nat, off: nat, addr: seq<int>,
                     n: int) returns (r: Result<int>, off': nat, ghost parts: seq<nat>, ghost logs: seq<seq<int>>)
      requires Valid() && i < |inode| && inode[i].kind != T_DEV && n <= |addr| && off < UINT && n < UINT / 2 && lh == []
      modifies this
      ensures |old(bitmap)| <= BPB && nlog >= LOGSIZE ==> r != Panic(TooBig)
      ensures r != Panic(ShortWrite) && r != Panic(OutsideTrans)
      ensures r == Panic(OutOfBlocks) ==> n > 0 && Clear(old(bitmap)) <= 4 * Chunks(n)
      ensures r.Ok? ==> Valid() && |inode| == |old(inode)| && off <= off'
      ensures r.Ok? && n < 0 ==> r.value == -1
      ensures r.Ok? && n >= 0 ==>
        r.value == if n == 0 || (off <= old(inode)[i].size && off + n <= MAXSIZE) then n else -1
      ensures r.Ok? && n >= 0 && r.value == n ==> off' == off + n
      ensures r.Ok? && off <= old(inode)[i].size ==>
        off' - off <= |addr| && Stored(old(inode), old(block), inode, block, i, off, addr[..off' - off])
      ensures r.Ok? && off > old(inode)[i].size ==> off' == off && inode == old(inode) && block == old(block)
      ensures off <= old(inode)[i].size && NoHoles(old(inode)[i]) && old(dinode == inode && Clean()) ==>
        ChunksSaved(old(inode), old(block), old(saved), saved, i, off, addr, n, parts)
      ensures old(Clean()) ==> Committed(old(saved), saved, logs)
      ensures r.Ok? && old(Clean()) ==> Clean()
    {
      hide FileSys.Valid, Clear, Lacks, Chunks, Whole, Stored, ChunksSaved, NoHoles, Committed, Commits;
      ValidFacts();
      ghost var clean := Clean();
      ghost var solid := off <= inode[i].size && NoHoles(inode[i]) && dinode == inode && Clean();
      var k := 0;
      NoChunks(inode[i].addrs);
      off', parts, logs := off, [], [];
      if clean {
        NothingCommitted(saved);
      }
      StoredNothing(inode, block, i, off, addr);
      NothingSaved(inode, block, saved, i, off, addr, n);
      while k < n
        invariant 0 <= k <= (if n < 0 then 0 else n) && off' == off + k && lh == []
        invariant Valid() && |inode| == |old(inode)| && |bitmap| == |old(bitmap)|
        invariant inode[i].kind == old(inode)[i].kind
        invariant n > 0 ==>
          && Clear(old(bitmap)) + Lacks(inode[i].addrs) <= Clear(bitmap) + 4 * Chunks(k) + 1
          && (Whole(k) || k == n)
        invariant k > 0 ==> off <= old(inode)[i].size && off + k <= MAXSIZE
        invariant off <= old(inode)[i].size ==>
          Stored(old(inode), old(block), inode, block, i, off, addr[..k]) && off' <= inode[i].size
        invariant off > old(inode)[i].size ==> k == 0 && inode == old(inode) && block == old(block)
        invariant solid ==> dinode == inode && NoHoles(inode[i]) && clean
        invariant clean ==> Clean() && Committed(old(saved), saved, logs)
        invariant solid ==>
          ChunksSaved(old(inode), old(block), old(saved), saved, i, off, addr, n, parts) && AllUpTo(parts, k)
      {
        var n1 := if n - k > CHUNK then CHUNK else n - k;
        NextChunk(k, n1, n);
        ghost var ino, blk, saved1 := inode, block, saved;
        ghost var logged;
        var w;
        w, logged := WriteChunk(i, addr[k..], off', n1);
        if w.Panic? {
          return w, off', parts, logs;
        }
        if clean {
          MoreCommitted(old(saved), saved1, logs, saved[|saved| - 1], logged);
          logs := logs + [logged];
        }
        if w.value > 0 {
          off' := off' + w.value;
        }
        if w.value < 0 {
          if solid {
            parts := MoreSaved(old(inode), old(block), old(saved), saved1, bitmap, inode, block, i, off, addr, n, parts,
                               k);
          }
          break;
        }
        if w.value != n1 {
          return Panic(ShortWrite), off', parts, logs;
        }
        assert addr[k..][..n1] == addr[k..k + n1];
        StoredMore(old(inode), old(block), ino, blk, inode, block, i, off, addr, k, k + n1);
        if solid {
          parts := MoreSaved(old(inode), old(block), old(saved), saved1, bitmap, inode, block, i, off, addr, n, parts,
                             k + n1);
        }
        k := k + n1;
      }
      return Ok(if k == n then n else -1), off', parts, logs;
    }
  }
}
