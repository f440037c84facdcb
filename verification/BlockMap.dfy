/** Inodes, block maps and block ownership of fs.c, as values.

    An inode names its data blocks in NDIRECT slots and, through one indirect block, in NINDIRECT
    further words. Slot value 0 means no block. */
module BlockMap {
  const BSIZE := 512
  const NDIRECT := 12
  const NINDIRECT := 128
  const MAXFILE := NDIRECT + NINDIRECT
  const MAXSIZE := MAXFILE * BSIZE
  const UINT := 0x1_0000_0000

  datatype Block = Block(bytes: seq<int>)

  datatype Inode = Inode(kind: int, major: int, minor: int, nlink: int, size: nat, addrs: seq<int>)

  const ZERO_BLOCK := Block(seq(BSIZE, _ => 0))

  // ----- words of an indirect block -----

  /** The j-th little-endian 32-bit word of a block. */
  function Word(b: Block, j: nat): int
    requires |b.bytes| == BSIZE && j < NINDIRECT
  {
    b.bytes[4 * j] + 256 * b.bytes[4 * j + 1] + 65536 * b.bytes[4 * j + 2] + 16777216 * b.bytes[4 * j + 3]
  }

  function PutWord(b: Block, j: nat, v: int): (r: Block)
    requires |b.bytes| == BSIZE && j < NINDIRECT && 0 <= v < UINT
    ensures |r.bytes| == BSIZE
  {
    Block(b.bytes[4 * j := v % 256][4 * j + 1 := v / 256 % 256]
                 [4 * j + 2 := v / 65536 % 256][4 * j + 3 := v / 16777216])
  }

  lemma {:induction false} WordOfPutWord(b: Block, j: nat, v: int, k: nat)
    requires |b.bytes| == BSIZE && j < NINDIRECT && k < NINDIRECT && 0 <= v < UINT
    ensures Word(PutWord(b, j, v), k) == if k == j then v else Word(b, k)
  {
    FourBytes(v);
    if k != j {
      assert 4 * k + 3 < 4 * j || 4 * j + 3 < 4 * k;
    }
  }

  lemma {:induction false} FourBytes(v: int)
    requires 0 <= v < UINT
    ensures v == v % 256 + 256 * (v / 256 % 256) + 65536 * (v / 65536 % 256) + 16777216 * (v / 16777216)
  {
    assert v / 65536 == v / 256 / 256 && v / 16777216 == v / 256 / 256 / 256;
  }

  // ----- slots -----

  datatype Slot = Direct(i: nat, k: nat) | Indirect(i: nat) | Entry(i: nat, j: nat) {
    predicate Valid(ninodes: nat) {
      i < ninodes && (Direct? ==> k < NDIRECT) && (Entry? ==> j < NINDIRECT)
    }
  }

  function DataSlot(i: nat, bn: nat): Slot {
    if bn < NDIRECT then Direct(i, bn) else Entry(i, bn - NDIRECT)
  }

  predicate Shaped(ino: seq<Inode>, blk: seq<Block>) {
    && (forall i :: 0 <= i < |ino| ==> |ino[i].addrs| == NDIRECT + 1)
    && (forall b :: 0 <= b < |blk| ==> |blk[b].bytes| == BSIZE)
  }

  /** The block number stored in a slot. */
  function At(ino: seq<Inode>, blk: seq<Block>, x: Slot): int
    requires Shaped(ino, blk) && x.Valid(|ino|)
  {
    match x
    case Direct(i, k) => ino[i].addrs[k]
    case Indirect(i) => ino[i].addrs[NDIRECT]
    case Entry(i, j) =>
      if 0 < ino[i].addrs[NDIRECT] < |blk| then Word(blk[ino[i].addrs[NDIRECT]], j) else 0
  }

  // ----- ownership -----

  datatype Owner = Nobody | By(slot: Slot)

  /** The bitmap marks exactly the metadata blocks below `first` and the blocks that a slot names,
      and owner tells for each of the latter the one slot that names it. */
  ghost predicate Owns(first: nat, bitmap: seq<bool>, ino: seq<Inode>, blk: seq<Block>, owner: seq<Owner>) {
    && Shaped(ino, blk) && |bitmap| == |blk| == |owner| < UINT && 0 < first <= |blk|
    && (forall x: Slot {:trigger At(ino, blk, x)} :: x.Valid(|ino|) && At(ino, blk, x) != 0 ==>
      first <= At(ino, blk, x) < |blk| && owner[At(ino, blk, x)] == By(x))
    && (forall b {:trigger owner[b]} :: 0 <= b < |owner| && owner[b].By? ==>
      first <= b && owner[b].slot.Valid(|ino|) && At(ino, blk, owner[b].slot) == b)
    && (forall b {:trigger bitmap[b]} :: 0 <= b < |bitmap| ==> bitmap[b] == (b < first || owner[b].By?))
  }

  /** A bitmap bit is set iff the block is metadata or exactly one slot names it. */
  lemma {:induction false} OwnedExactlyOnce(first: nat, bitmap: seq<bool>, ino: seq<Inode>, blk: seq<Block>,
                                            owner: seq<Owner>, b: nat)
    requires Owns(first, bitmap, ino, blk, owner) && b < |blk|
    ensures bitmap[b] <==> b < first || exists x: Slot :: x.Valid(|ino|) && At(ino, blk, x) == b
    ensures b >= first ==> forall x: Slot, y: Slot ::
      x.Valid(|ino|) && y.Valid(|ino|) && At(ino, blk, x) == b && At(ino, blk, y) == b ==> x == y
    ensures b < first ==> forall x: Slot :: x.Valid(|ino|) && At(ino, blk, x) == b ==> b == 0
  {
    if owner[b].By? {
      assert At(ino, blk, owner[b].slot) == b;
    }
  }

  /** A free block claimed by an empty slot. */
  lemma {:induction false} Claim(first: nat, bitmap: seq<bool>, ino: seq<Inode>, blk: seq<Block>, owner: seq<Owner>,
                                 x: Slot, b: nat, ino': seq<Inode>, blk': seq<Block>)
    requires Owns(first, bitmap, ino, blk, owner) && first <= b < |blk| && !bitmap[b]
    requires x.Valid(|ino|) && At(ino, blk, x) == 0
    requires Shaped(ino', blk') && |ino'| == |ino| && |blk'| == |blk|
    requires At(ino', blk', x) == b
    requires forall y: Slot {:trigger At(ino', blk', y)} :: y.Valid(|ino|) && y != x ==>
      At(ino', blk', y) == At(ino, blk, y)
    ensures Owns(first, bitmap[b := true], ino', blk', owner[b := By(x)])
  {
    var owner' := owner[b := By(x)];
    forall y: Slot | y.Valid(|ino'|) && At(ino', blk', y) != 0
      ensures first <= At(ino', blk', y) < |blk| && owner'[At(ino', blk', y)] == By(y)
    {
      assert y != x ==> owner[At(ino, blk, y)] == By(y);
    }
  }

  // ----- file contents -----

  /** Byte p of file i; an unallocated block reads as zeros. */
  function FileByte(ino: seq<Inode>, blk: seq<Block>, i: nat, p: nat): int
    requires Shaped(ino, blk) && i < |ino| && p < MAXSIZE
  {
    var a := At(ino, blk, DataSlot(i, p / BSIZE));
    if 0 < a < |blk| then blk[a].bytes[p % BSIZE] else 0
  }

  /** Where byte p of a file lies: in the block of one of the first twelve addresses, or in a block whose number is
      stored, low byte first, in the block of the thirteenth. */
  lemma {:induction false} ByteOnDisk(ino: seq<Inode>, blk: seq<Block>, i: nat, p: nat, n: int)
    requires Shaped(ino, blk) && i < |ino| && p < MAXSIZE && 0 < n < |blk|
    requires p < 12 * 512 ==> ino[i].addrs[p / 512] == n
    requires p >= 12 * 512 ==>
      0 < ino[i].addrs[12] < |blk| &&
      var b, j := blk[ino[i].addrs[12]].bytes, 4 * (p / 512 - 12);
      n == b[j] + 0x100 * b[j + 1] + 0x1_0000 * b[j + 2] + 0x100_0000 * b[j + 3]
    ensures FileByte(ino, blk, i, p) == blk[n].bytes[p % 512]
  {
  }

  /** File i as a flat string of bytes. */
  function Contents(ino: seq<Inode>, blk: seq<Block>, i: nat): (s: seq<int>)
    requires Shaped(ino, blk) && i < |ino| && ino[i].size <= MAXSIZE
    ensures |s| == ino[i].size
  {
    seq(ino[i].size, p requires 0 <= p < ino[i].size => FileByte(ino, blk, i, p))
  }

  /** No byte of any file differs. */
  ghost predicate SameBytes(ino: seq<Inode>, blk: seq<Block>, ino': seq<Inode>, blk': seq<Block>)
    requires Shaped(ino, blk) && Shaped(ino', blk') && |ino| == |ino'|
  {
    forall i: nat, p: nat {:trigger FileByte(ino', blk', i, p)} :: i < |ino| && p < MAXSIZE ==>
      FileByte(ino', blk', i, p) == FileByte(ino, blk, i, p)
  }

  /** Claiming a zeroed block, and recording it in an indirect block, changes no file's bytes. */
  lemma {:induction false} ClaimKeepsBytes(first: nat, bitmap: seq<bool>, ino: seq<Inode>, blk: seq<Block>,
                                           owner: seq<Owner>, x: Slot, b: nat, ino': seq<Inode>, blk': seq<Block>)
    requires Owns(first, bitmap, ino, blk, owner) && first <= b < |blk| && !bitmap[b]
    requires x.Valid(|ino|) && At(ino, blk, x) == 0
    requires Shaped(ino', blk') && |ino'| == |ino| && |blk'| == |blk|
    requires At(ino', blk', x) == b
    requires forall y: Slot {:trigger At(ino', blk', y)} :: y.Valid(|ino|) && y != x ==>
      At(ino', blk', y) == At(ino, blk, y)
    requires blk'[b] == ZERO_BLOCK
    requires forall c :: 0 <= c < |blk| && c != b && !(owner[c].By? && owner[c].slot.Indirect?) ==> blk'[c] == blk[c]
    ensures SameBytes(ino, blk, ino', blk')
  {
    forall i: nat, p: nat | i < |ino| && p < MAXSIZE
      ensures FileByte(ino', blk', i, p) == FileByte(ino, blk, i, p)
    {
      var y := DataSlot(i, p / BSIZE);
      assert At(ino', blk', y) == if y == x then b else At(ino, blk, y);
      if At(ino, blk, y) != 0 {
        assert owner[At(ino, blk, y)] == By(y);
      }
    }
  }

  /** Overwriting a data block changes the bytes of its one file block and nothing else. */
  lemma {:induction false} OverwriteData(first: nat, bitmap: seq<bool>, ino: seq<Inode>, blk: seq<Block>,
                                         owner: seq<Owner>, i: nat, bn: nat, data: Block)
    requires Owns(first, bitmap, ino, blk, owner) && i < |ino| && bn < MAXFILE && |data.bytes| == BSIZE
    requires At(ino, blk, DataSlot(i, bn)) != 0
    ensures var a := At(ino, blk, DataSlot(i, bn));
      var blk' := blk[a := data];
      && Shaped(ino, blk')
      && Owns(first, bitmap, ino, blk', owner)
      && (forall x: Slot {:trigger At(ino, blk', x)} :: x.Valid(|ino|) ==> At(ino, blk', x) == At(ino, blk, x))
      && (forall j: nat, p: nat {:trigger FileByte(ino, blk', j, p)} :: j < |ino| && p < MAXSIZE ==>
           FileByte(ino, blk', j, p) ==
             if j == i && p / BSIZE == bn then data.bytes[p % BSIZE] else FileByte(ino, blk, j, p))
  {
    var s := DataSlot(i, bn);
    var a := At(ino, blk, s);
    var blk' := blk[a := data];
    assert owner[a] == By(s);
    forall x: Slot | x.Valid(|ino|) ensures At(ino, blk', x) == At(ino, blk, x) {
      if x.Entry? {
        assert At(ino, blk, Indirect(x.i)) != a;
      }
    }
    forall j: nat, p: nat | j < |ino| && p < MAXSIZE
      ensures FileByte(ino, blk', j, p) ==
        if j == i && p / BSIZE == bn then data.bytes[p % BSIZE] else FileByte(ino, blk, j, p)
    {
      var y := DataSlot(j, p / BSIZE);
      assert At(ino, blk', y) == At(ino, blk, y);
      if At(ino, blk, y) != 0 {
        assert owner[At(ino, blk, y)] == By(y);
      }
    }
  }

  // ----- what bmap does to the map -----

  function SetAddr(ino: seq<Inode>, i: nat, k: nat, b: int): seq<Inode>
    requires i < |ino| && k < |ino[i].addrs|
  {
    ino[i := ino[i].(addrs := ino[i].addrs[k := b])]
  }

  /** All slots but x name the blocks they named before. */
  ghost predicate SlotsKept(ino: seq<Inode>, blk: seq<Block>, ino': seq<Inode>, blk': seq<Block>, x: Slot)
    requires Shaped(ino, blk) && Shaped(ino', blk') && |ino'| == |ino|
  {
    forall y: Slot {:trigger At(ino', blk', y)} :: y.Valid(|ino|) && y != x ==> At(ino', blk', y) == At(ino, blk, y)
  }

  /** No slot in use names another block. */
  ghost predicate Kept(ino: seq<Inode>, blk: seq<Block>, ino': seq<Inode>, blk': seq<Block>)
    requires Shaped(ino, blk) && Shaped(ino', blk') && |ino'| == |ino|
  {
    forall y: Slot {:trigger At(ino', blk', y)} ::
      y.Valid(|ino|) && At(ino, blk, y) != 0 ==> At(ino', blk', y) == At(ino, blk, y)
  }

  lemma {:induction false} OthersAreKept(ino: seq<Inode>, blk: seq<Block>, ino': seq<Inode>, blk': seq<Block>, x: Slot)
    requires Shaped(ino, blk) && Shaped(ino', blk') && |ino'| == |ino| && x.Valid(|ino|)
    requires SlotsKept(ino, blk, ino', blk', x) && (At(ino, blk, x) == 0 || (ino' == ino && blk' == blk))
    ensures Kept(ino, blk, ino', blk')
  {
    hide At;
  }

  lemma {:induction false} KeptTrans(a: seq<Inode>, a': seq<Block>, b: seq<Inode>, b': seq<Block>, c: seq<Inode>,
                                     c': seq<Block>)
    requires Shaped(a, a') && Shaped(b, b') && Shaped(c, c') && |a| == |b| == |c|
    requires Kept(a, a', b, b') && Kept(b, b', c, c')
    ensures Kept(a, a', c, c')
  {
    hide At;
    forall y: Slot {:trigger At(c, c', y)} | y.Valid(|a|) && At(a, a', y) != 0 ensures At(c, c', y) == At(a, a', y) {
      assert At(b, b', y) == At(a, a', y);
    }
  }

  ghost predicate Free(first: nat, bitmap: seq<bool>, b: nat) {
    first <= b < |bitmap| && !bitmap[b]
  }

  lemma {:induction false} ClaimDirect(first: nat, bitmap: seq<bool>, ino: seq<Inode>, blk: seq<Block>,
                                       owner: seq<Owner>, i: nat, k: nat, b: nat)
    requires Owns(first, bitmap, ino, blk, owner) && i < |ino| && k < NDIRECT && ino[i].addrs[k] == 0
    requires Free(first, bitmap, b)
    ensures var ino', blk' := SetAddr(ino, i, k, b), blk[b := ZERO_BLOCK];
      && Owns(first, bitmap[b := true], ino', blk', owner[b := By(Direct(i, k))])
      && SameBytes(ino, blk, ino', blk') && SlotsKept(ino, blk, ino', blk', Direct(i, k))
  {
    var ino', blk' := SetAddr(ino, i, k, b), blk[b := ZERO_BLOCK];
    IndirectsKept(first, bitmap, ino, blk, owner, b);
    assert SlotsKept(ino, blk, ino', blk', Direct(i, k));
    Claim(first, bitmap, ino, blk, owner, Direct(i, k), b, ino', blk');
    ClaimKeepsBytes(first, bitmap, ino, blk, owner, Direct(i, k), b, ino', blk');
  }

  lemma {:induction false} ClaimIndirect(first: nat, bitmap: seq<bool>, ino: seq<Inode>, blk: seq<Block>,
                                         owner: seq<Owner>, i: nat, b: nat)
    requires Owns(first, bitmap, ino, blk, owner) && i < |ino| && ino[i].addrs[NDIRECT] == 0 && Free(first, bitmap, b)
    ensures var ino', blk' := SetAddr(ino, i, NDIRECT, b), blk[b := ZERO_BLOCK];
      && Owns(first, bitmap[b := true], ino', blk', owner[b := By(Indirect(i))])
      && SameBytes(ino, blk, ino', blk') && SlotsKept(ino, blk, ino', blk', Indirect(i))
  {
    var ino', blk' := SetAddr(ino, i, NDIRECT, b), blk[b := ZERO_BLOCK];
    IndirectsKept(first, bitmap, ino, blk, owner, b);
    assert forall j: nat :: j < NINDIRECT ==> Word(ZERO_BLOCK, j) == 0;
    assert SlotsKept(ino, blk, ino', blk', Indirect(i));
    Claim(first, bitmap, ino, blk, owner, Indirect(i), b, ino', blk');
    ClaimKeepsBytes(first, bitmap, ino, blk, owner, Indirect(i), b, ino', blk');
  }

  lemma {:induction false} ClaimEntry(first: nat, bitmap: seq<bool>, ino: seq<Inode>, blk: seq<Block>,
                                      owner: seq<Owner>, i: nat, j: nat, b: nat)
    requires Owns(first, bitmap, ino, blk, owner) && i < |ino| && j < NINDIRECT && Free(first, bitmap, b)
    requires 0 < ino[i].addrs[NDIRECT] < |blk| && Word(blk[ino[i].addrs[NDIRECT]], j) == 0
    ensures var ind := ino[i].addrs[NDIRECT];
      var blk' := blk[b := ZERO_BLOCK][ind := PutWord(blk[ind], j, b)];
      && Owns(first, bitmap[b := true], ino, blk', owner[b := By(Entry(i, j))])
      && SameBytes(ino, blk, ino, blk') && SlotsKept(ino, blk, ino, blk', Entry(i, j))
      && At(ino, blk', Entry(i, j)) == b && ind != b
  {
    var ind := ino[i].addrs[NDIRECT];
    var blk' := blk[b := ZERO_BLOCK][ind := PutWord(blk[ind], j, b)];
    IndirectsKept(first, bitmap, ino, blk, owner, b);
    assert At(ino, blk, Indirect(i)) == ind && owner[ind] == By(Indirect(i));
    forall y: Slot | y.Valid(|ino|) ensures At(ino, blk', y) == if y == Entry(i, j) then b else At(ino, blk, y) {
      if y.Entry? {
        WordOfPutWord(blk[ind], j, b, y.j);
        assert y.i != i ==> At(ino, blk, Indirect(y.i)) != ind;
      }
    }
    Claim(first, bitmap, ino, blk, owner, Entry(i, j), b, ino, blk');
    ClaimKeepsBytes(first, bitmap, ino, blk, owner, Entry(i, j), b, ino, blk');
  }

  /** A free block is no inode's indirect block. */
  lemma {:induction false} IndirectsKept(first: nat, bitmap: seq<bool>, ino: seq<Inode>, blk: seq<Block>,
                                         owner: seq<Owner>, b: nat)
    requires Owns(first, bitmap, ino, blk, owner) && Free(first, bitmap, b)
    ensures forall i :: 0 <= i < |ino| ==> ino[i].addrs[NDIRECT] != b
  {
    forall i: nat | i < |ino| ensures ino[i].addrs[NDIRECT] != b {
      assert At(ino, blk, Indirect(i)) == ino[i].addrs[NDIRECT];
    }
  }

  lemma {:induction false} SameBytesTrans(a: seq<Inode>, a': seq<Block>, b: seq<Inode>, b': seq<Block>, c: seq<Inode>,
                                          c': seq<Block>)
    requires Shaped(a, a') && Shaped(b, b') && Shaped(c, c') && |a| == |b| == |c|
    requires SameBytes(a, a', b, b') && SameBytes(b, b', c, c')
    ensures SameBytes(a, a', c, c')
  {
    hide FileByte;
  }

  lemma {:induction false} NothingMapped(ino: seq<Inode>, blk: seq<Block>, i: nat, k: nat)
    requires Shaped(ino, blk) && i < |ino| && k <= NDIRECT
    ensures SetAddr(ino, i, k, ino[i].addrs[k]) == ino && SameBytes(ino, blk, ino, blk)
  {
    assert ino[i].addrs[k := ino[i].addrs[k]] == ino[i].addrs;
  }

  // ----- what writei does to files and addresses -----

  /** The bytes from off on of file i are data; every other byte of every file is as it was. */
  ghost predicate Written(ino: seq<Inode>, blk: seq<Block>, ino': seq<Inode>, blk': seq<Block>, i: nat, off: nat,
                          data: seq<int>)
    requires Shaped(ino, blk) && Shaped(ino', blk') && |ino| == |ino'|
  {
    forall j: nat, p: nat {:trigger FileByte(ino', blk', j, p)} :: j < |ino| && p < MAXSIZE ==>
      FileByte(ino', blk', j, p) ==
        if j == i && off <= p < off + |data| then data[p - off] else FileByte(ino, blk, j, p)
  }

  lemma {:induction false} WrittenMore(a: seq<Inode>, a': seq<Block>, b: seq<Inode>, b': seq<Block>, c: seq<Inode>,
                                       c': seq<Block>, i: nat, off: nat, data: seq<int>, more: seq<int>)
    requires Shaped(a, a') && Shaped(b, b') && Shaped(c, c') && |a| == |b| == |c|
    requires Written(a, a', b, b', i, off, data) && Written(b, b', c, c', i, off + |data|, more)
    ensures Written(a, a', c, c', i, off, data + more)
  {
    hide FileByte;
  }

  /** One round of writei's loop: bytes land in the block that bmap returned. */
  lemma {:induction false} WriteBlock(first: nat, bitmap: seq<bool>, ino0: seq<Inode>, blk0: seq<Block>,
                                      ino: seq<Inode>, blk: seq<Block>, owner: seq<Owner>, i: nat, off: nat,
                                      data: seq<int>)
    requires Owns(first, bitmap, ino, blk, owner) && i < |ino| == |ino0| && Shaped(ino0, blk0)
    requires off + |data| <= MAXSIZE && 0 < |data| <= BSIZE - off % BSIZE
    requires At(ino, blk, DataSlot(i, off / BSIZE)) != 0 && SameBytes(ino0, blk0, ino, blk)
    ensures var a := At(ino, blk, DataSlot(i, off / BSIZE));
      0 < a < |blk| &&
      var blk' := blk[a := Overwrite(blk[a], off % BSIZE, data)];
      && Shaped(ino, blk') && Owns(first, bitmap, ino, blk', owner) && Written(ino0, blk0, ino, blk', i, off, data)
      && Kept(ino, blk, ino, blk') && At(ino, blk', DataSlot(i, off / BSIZE)) == a
  {
    hide FileByte;
    var a := At(ino, blk, DataSlot(i, off / BSIZE));
    assert owner[a].By?;
    var blk' := blk[a := Overwrite(blk[a], off % BSIZE, data)];
    OverwriteData(first, bitmap, ino, blk, owner, i, off / BSIZE, Overwrite(blk[a], off % BSIZE, data));
    forall j: nat, p: nat | j < |ino| && p < MAXSIZE
      ensures FileByte(ino, blk', j, p) ==
        if j == i && off <= p < off + |data| then data[p - off] else FileByte(ino0, blk0, j, p)
    {
      if j == i && p / BSIZE == off / BSIZE {
        FileByteAt(ino, blk, i, p);
      }
    }
  }

  lemma {:induction false} FileByteAt(ino: seq<Inode>, blk: seq<Block>, i: nat, p: nat)
    requires Shaped(ino, blk) && i < |ino| && p < MAXSIZE && 0 < At(ino, blk, DataSlot(i, p / BSIZE)) < |blk|
    ensures FileByte(ino, blk, i, p) == blk[At(ino, blk, DataSlot(i, p / BSIZE))].bytes[p % BSIZE]
  {
  }

  function Overwrite(b: Block, o: nat, data: seq<int>): (r: Block)
    requires |b.bytes| == BSIZE && o + |data| <= BSIZE
    ensures |r.bytes| == BSIZE
    ensures forall k :: 0 <= k < BSIZE ==> r.bytes[k] == if o <= k < o + |data| then data[k - o] else b.bytes[k]
  {
    Block(b.bytes[..o] + data + b.bytes[o + |data|..])
  }

  /** The inode slot through which block bn of a file is reached. */
  function SlotIndex(bn: nat): nat {
    if bn < NDIRECT then bn else NDIRECT
  }

  /** Addresses a' come from a by filling in slots, among them every slot blocks lo..hi-1 need. */
  ghost predicate Filled(a: seq<int>, a': seq<int>, lo: nat, hi: nat) {
    && |a| == |a'| == NDIRECT + 1
    && (forall k :: 0 <= k <= NDIRECT && a[k] != 0 ==> a'[k] == a[k])
    && (forall bn: nat {:trigger SlotIndex(bn)} :: lo <= bn < hi ==> a'[SlotIndex(bn)] != 0)
    && (forall k :: 0 <= k <= NDIRECT && a'[k] != a[k] ==> exists bn: nat :: lo <= bn < hi && SlotIndex(bn) == k)
  }

  lemma {:induction false} FilledTrans(a: seq<int>, b: seq<int>, c: seq<int>, lo: nat, mid: nat, hi: nat)
    requires lo <= mid <= hi && Filled(a, b, lo, mid) && Filled(b, c, mid, hi)
    ensures Filled(a, c, lo, hi)
  {
  }

  /** Nothing was filled in exactly when nothing was missing. */
  lemma {:induction false} FilledNothing(a: seq<int>, a': seq<int>, lo: nat, hi: nat)
    requires Filled(a, a', lo, hi)
    ensures a' == a <==> forall bn: nat {:trigger SlotIndex(bn)} :: lo <= bn < hi ==> a[SlotIndex(bn)] != 0
  {
  }

  /** Changing an inode's size, or any field but its addresses, moves no block and no byte. */
  lemma {:induction false} ResizeKeeps(first: nat, bitmap: seq<bool>, ino: seq<Inode>, blk: seq<Block>,
                                       owner: seq<Owner>, i: nat, d: Inode)
    requires Owns(first, bitmap, ino, blk, owner) && i < |ino| && d.addrs == ino[i].addrs
    ensures Owns(first, bitmap, ino[i := d], blk, owner)
    ensures SameBytes(ino, blk, ino[i := d], blk)
  {
    var ino' := ino[i := d];
    assert forall x: Slot {:trigger At(ino', blk, x)} :: x.Valid(|ino|) ==> At(ino', blk, x) == At(ino, blk, x);
  }

  /** s with the bytes from off on replaced, and extended, by data. */
  function Splice(s: seq<int>, off: nat, data: seq<int>): seq<int>
    requires off <= |s|
  {
    s[..off] + data + (if off + |data| < |s| then s[off + |data|..] else [])
  }

  lemma {:induction false} SpliceNothing(s: seq<int>, off: nat)
    ensures off <= |s| ==> Splice(s, off, []) == s
  {
  }

  lemma {:induction false} SpliceMore(s: seq<int>, off: nat, data: seq<int>, k: nat, m: nat)
    requires off <= |s| && k <= m <= |data|
    ensures off + k <= |Splice(s, off, data[..k])|
    ensures Splice(Splice(s, off, data[..k]), off + k, data[k..m]) == Splice(s, off, data[..m])
    ensures |Splice(s, off, data[..m])| >= off + m
  {
  }

  lemma {:induction false} ContentsSpliced(ino: seq<Inode>, blk: seq<Block>, ino': seq<Inode>, blk': seq<Block>, i: nat,
                                           off: nat, data: seq<int>)
    requires Shaped(ino, blk) && Shaped(ino', blk') && i < |ino| == |ino'|
    requires Written(ino, blk, ino', blk', i, off, data)
    requires off <= ino[i].size <= MAXSIZE && off + |data| <= MAXSIZE
    requires ino'[i].size == if off + |data| > ino[i].size then off + |data| else ino[i].size
    requires forall j :: 0 <= j < |ino| && j != i ==> ino'[j] == ino[j] && ino[j].size <= MAXSIZE
    ensures Contents(ino', blk', i) == Splice(Contents(ino, blk, i), off, data)
    ensures forall j :: 0 <= j < |ino| && j != i ==> Contents(ino', blk', j) == Contents(ino, blk, j)
  {
    hide FileByte;
  }

  lemma {:induction false} WrittenResized(ino: seq<Inode>, blk: seq<Block>, ino1: seq<Inode>, blk': seq<Block>,
                                          ino2: seq<Inode>, i: nat, off: nat, data: seq<int>)
    requires Shaped(ino, blk) && Shaped(ino1, blk') && Shaped(ino2, blk') && |ino| == |ino1| == |ino2|
    requires Written(ino, blk, ino1, blk', i, off, data) && SameBytes(ino1, blk', ino2, blk')
    ensures Written(ino, blk, ino2, blk', i, off, data)
  {
    hide FileByte;
  }

  // ----- what itrunc does to the map -----

  /** The block belongs to one of inode i's first kd direct slots or first kj indirect entries. */
  ghost predicate Freed(o: Owner, i: nat, kd: nat, kj: nat) {
    o.By? && o.slot.i == i && ((o.slot.Direct? && o.slot.k < kd) || (o.slot.Entry? && o.slot.j < kj))
  }

  /** The bits left after those blocks have been freed. */
  ghost predicate BitsLeft(bitmap: seq<bool>, owner: seq<Owner>, bitmap': seq<bool>, i: nat, kd: nat, kj: nat) {
    |bitmap'| == |bitmap| == |owner| &&
    forall b {:trigger bitmap'[b]} :: 0 <= b < |bitmap| ==> bitmap'[b] == (bitmap[b] && !Freed(owner[b], i, kd, kj))
  }

  lemma {:induction false} FreedNone(bitmap: seq<bool>, owner: seq<Owner>, i: nat)
    requires |bitmap| == |owner|
    ensures BitsLeft(bitmap, owner, bitmap, i, 0, 0)
  {
  }

  lemma {:induction false} BitsSize(bitmap: seq<bool>, owner: seq<Owner>, bitmap': seq<bool>, i: nat, kd: nat, kj: nat)
    requires BitsLeft(bitmap, owner, bitmap', i, kd, kj)
    ensures |bitmap'| == |bitmap| == |owner|
  {
  }

  /** Freeing the block of the next slot finds its bit set. */
  lemma {:induction false} FreeNext(first: nat, bitmap: seq<bool>, ino: seq<Inode>, blk: seq<Block>, owner: seq<Owner>,
                                    bitmap': seq<bool>, x: Slot, kd: nat, kj: nat)
    requires Owns(first, bitmap, ino, blk, owner) && x.Valid(|ino|) && BitsLeft(bitmap, owner, bitmap', x.i, kd, kj)
    requires x == Direct(x.i, kd) || x == Entry(x.i, kj)
    ensures var a := At(ino, blk, x);
      var kd', kj' := if x.Direct? then kd + 1 else kd, if x.Direct? then kj else kj + 1;
      if a == 0 then BitsLeft(bitmap, owner, bitmap', x.i, kd', kj')
      else 0 < a < |bitmap'| && bitmap'[a] && BitsLeft(bitmap, owner, bitmap'[a := false], x.i, kd', kj')
  {
    var a := At(ino, blk, x);
    var kd', kj' := if x.Direct? then kd + 1 else kd, if x.Direct? then kj else kj + 1;
    forall b | 0 <= b < |owner|
      ensures Freed(owner[b], x.i, kd', kj') <==> Freed(owner[b], x.i, kd, kj) || (a != 0 && b == a)
    {
      if owner[b] == By(x) {
        assert At(ino, blk, owner[b].slot) == b;
      }
    }
  }

  /** Once inode i's slots are empty and exactly its blocks are freed, ownership holds again and the
      other files are untouched. */
  lemma {:induction false} TruncateOwns(first: nat, bitmap: seq<bool>, ino: seq<Inode>, blk: seq<Block>,
                                        owner: seq<Owner>, i: nat, bitmap': seq<bool>, d: Inode, owner': seq<Owner>)
    requires Owns(first, bitmap, ino, blk, owner) && i < |ino| && |d.addrs| == NDIRECT + 1
    requires forall k :: 0 <= k <= NDIRECT ==> d.addrs[k] == 0
    requires |bitmap'| == |owner'| == |bitmap|
    requires forall b {:trigger bitmap'[b]} :: 0 <= b < |bitmap| ==>
      bitmap'[b] == (bitmap[b] && !(owner[b].By? && owner[b].slot.i == i))
    requires forall b {:trigger owner'[b]} :: 0 <= b < |bitmap| ==>
      owner'[b] == if owner[b].By? && owner[b].slot.i == i then Nobody else owner[b]
    ensures Owns(first, bitmap', ino[i := d], blk, owner')
    ensures forall j: nat, p: nat {:trigger FileByte(ino[i := d], blk, j, p)} :: j < |ino| && j != i && p < MAXSIZE ==>
      FileByte(ino[i := d], blk, j, p) == FileByte(ino, blk, j, p)
  {
    var ino' := ino[i := d];
    forall x: Slot | x.Valid(|ino|) ensures At(ino', blk, x) == if x.i == i then 0 else At(ino, blk, x) {
    }
  }

  /** Every block that inode i owns is in a slot of one of the three kinds. */
  lemma {:induction false} AllFreed(first: nat, bitmap: seq<bool>, ino: seq<Inode>, blk: seq<Block>, owner: seq<Owner>,
                                    i: nat, b: nat)
    requires Owns(first, bitmap, ino, blk, owner) && i < |ino| && b < |owner|
    ensures owner[b].By? && owner[b].slot.i == i <==>
      Freed(owner[b], i, NDIRECT, NINDIRECT) || (b == ino[i].addrs[NDIRECT] && b != 0)
    ensures ino[i].addrs[NDIRECT] == 0 ==> (Freed(owner[b], i, NDIRECT, NINDIRECT) <==> Freed(owner[b], i, NDIRECT, 0))
  {
    var ind := ino[i].addrs[NDIRECT];
    assert At(ino, blk, Indirect(i)) == ind;
    if owner[b].By? && owner[b].slot.i == i {
      assert At(ino, blk, owner[b].slot) == b;
    }
  }

  lemma {:induction false} OthersKept(ino: seq<Inode>, ino': seq<Inode>, blk: seq<Block>, i: nat)
    requires Shaped(ino, blk) && Shaped(ino', blk) && i < |ino| == |ino'| && ino' == ino[i := ino'[i]]
    requires forall j :: 0 <= j < |ino| ==> ino[j].size <= MAXSIZE
    requires forall j: nat, p: nat {:trigger FileByte(ino', blk, j, p)} :: j < |ino| && j != i && p < MAXSIZE ==>
      FileByte(ino', blk, j, p) == FileByte(ino, blk, j, p)
    ensures forall j :: 0 <= j < |ino| && j != i ==> Contents(ino', blk, j) == Contents(ino, blk, j)
  {
    hide FileByte;
  }

  ghost function OwnerWithout(owner: seq<Owner>, i: nat): (r: seq<Owner>)
    ensures |r| == |owner|
    ensures forall b {:trigger r[b]} :: 0 <= b < |r| ==>
      r[b] == if owner[b].By? && owner[b].slot.i == i then Nobody else owner[b]
  {
    seq(|owner|, b requires 0 <= b < |owner| => if owner[b].By? && owner[b].slot.i == i then Nobody else owner[b])
  }

  /** After both loops only the indirect block's own bit is left to clear. */
  lemma {:induction false} LoopsDone(first: nat, bitmap: seq<bool>, ino: seq<Inode>, blk: seq<Block>, owner: seq<Owner>,
                                     i: nat, bitmap': seq<bool>)
    requires Owns(first, bitmap, ino, blk, owner) && i < |ino|
    requires BitsLeft(bitmap, owner, bitmap', i, NDIRECT, if ino[i].addrs[NDIRECT] == 0 then 0 else NINDIRECT)
    ensures |bitmap'| == |bitmap| == |owner| == |blk|
    ensures var ind := ino[i].addrs[NDIRECT];
      && (ind != 0 ==> 0 < ind < |bitmap'| && bitmap'[ind])
      && var bits := if ind == 0 then bitmap' else bitmap'[ind := false];
         forall b {:trigger bits[b]} :: 0 <= b < |bitmap| ==>
           bits[b] == (bitmap[b] && !(owner[b].By? && owner[b].slot.i == i))
  {
    var ind := ino[i].addrs[NDIRECT];
    assert At(ino, blk, Indirect(i)) == ind;
    forall b: nat | b < |owner|
      ensures owner[b].By? && owner[b].slot.i == i <==>
        (Freed(owner[b], i, NDIRECT, if ind == 0 then 0 else NINDIRECT) || (ind != 0 && b == ind))
    {
      AllFreed(first, bitmap, ino, blk, owner, i, b);
    }
  }

  // ----- what readi sees -----

  /** One past the last of the n bytes from off on that file i has. */
  function LastByte(ino: seq<Inode>, i: nat, off: nat, n: nat): nat
    requires i < |ino|
  {
    if off + n < ino[i].size then off + n else ino[i].size
  }

  /** No byte in off .. off + n - 1, up to the end of file i, lies in an unallocated block. */
  ghost predicate Solid(ino: seq<Inode>, blk: seq<Block>, i: nat, off: nat, n: nat)
    requires Shaped(ino, blk) && i < |ino| && ino[i].size <= MAXSIZE
  {
    off < LastByte(ino, i, off, n) ==>
      forall bn: nat {:trigger DataSlot(i, bn)} ::
        off / BSIZE <= bn < MAXFILE && bn * BSIZE < LastByte(ino, i, off, n) ==> At(ino, blk, DataSlot(i, bn)) != 0
  }

  lemma {:induction false} SolidToEnd(ino: seq<Inode>, blk: seq<Block>, i: nat, off: nat, n: nat, m: nat)
    requires Shaped(ino, blk) && i < |ino| && off <= ino[i].size <= MAXSIZE && off + m == LastByte(ino, i, off, n)
    ensures Solid(ino, blk, i, off, n) <==> Solid(ino, blk, i, off, m)
  {
    hide At;
    assert LastByte(ino, i, off, m) == LastByte(ino, i, off, n);
  }

  lemma {:induction false} SolidAt(ino: seq<Inode>, blk: seq<Block>, i: nat, off: nat, n: nat, p: nat)
    requires Shaped(ino, blk) && i < |ino| && ino[i].size <= MAXSIZE && Solid(ino, blk, i, off, n)
    requires off <= p < off + n && p < ino[i].size
    ensures At(ino, blk, DataSlot(i, p / BSIZE)) != 0
  {
    assert p / BSIZE * BSIZE <= p;
  }

  /** Bytes off .. off + n - 1 of file i. */
  ghost function Range(ino: seq<Inode>, blk: seq<Block>, i: nat, off: nat, n: nat): (s: seq<int>)
    requires Shaped(ino, blk) && i < |ino| && off + n <= MAXSIZE
    ensures |s| == n
  {
    seq(n, t requires 0 <= t < n => FileByte(ino, blk, i, off + t))
  }

  lemma {:induction false} SameRange(ino: seq<Inode>, blk: seq<Block>, ino': seq<Inode>, blk': seq<Block>, i: nat,
                                     off: nat, n: nat)
    requires Shaped(ino, blk) && Shaped(ino', blk') && i < |ino| == |ino'| && SameBytes(ino, blk, ino', blk')
    requires off + n <= MAXSIZE
    ensures Range(ino', blk', i, off, n) == Range(ino, blk, i, off, n)
  {
    hide FileByte;
  }

  lemma {:induction false} RangeFacts(ino: seq<Inode>, blk: seq<Block>, i: nat, off: nat, n: nat, k: nat)
    requires Shaped(ino, blk) && i < |ino| && off + n + k <= ino[i].size <= MAXSIZE
    ensures Range(ino, blk, i, off, n) + Range(ino, blk, i, off + n, k) == Range(ino, blk, i, off, n + k)
    ensures Range(ino, blk, i, off, n) == Contents(ino, blk, i)[off..off + n]
  {
    hide FileByte;
  }

  lemma {:induction false} BytesOfBlock(ino: seq<Inode>, blk: seq<Block>, ino': seq<Inode>, blk': seq<Block>, i: nat,
                                        p: nat, k: nat)
    requires Shaped(ino, blk) && Shaped(ino', blk') && i < |ino| == |ino'| && SameBytes(ino, blk, ino', blk')
    requires p + k <= MAXSIZE && 0 < k <= BSIZE - p % BSIZE
    requires 0 < At(ino', blk', DataSlot(i, p / BSIZE)) < |blk'|
    ensures blk'[At(ino', blk', DataSlot(i, p / BSIZE))].bytes[p % BSIZE..p % BSIZE + k] == Range(ino, blk, i, p, k)
  {
    hide At;
    var piece := blk'[At(ino', blk', DataSlot(i, p / BSIZE))].bytes[p % BSIZE..p % BSIZE + k];
    forall t: nat | t < k ensures piece[t] == Range(ino, blk, i, p, k)[t] {
      assert (p + t) / BSIZE == p / BSIZE && (p + t) % BSIZE == p % BSIZE + t;
      assert FileByte(ino', blk', i, p + t) == FileByte(ino, blk, i, p + t);
    }
  }
}
