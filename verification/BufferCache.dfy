/** The buffer cache (bio.c) over the synchronous disk driver (memide.c).

    Pointers into the static table bcache.buf[NBUF] are indices into `buf`; the index
    |buf| stands for bcache.head.  The device is ROOTDEV = 1, the only one memide.c serves. */
module BufferCache {
  import opened Outcomes

  const ROOTDEV := 1
  const NBUF := 10
  const WORDS := 128 // a 512-byte sector as 32-bit words

  datatype Block = Block(word: seq<int>)
  type Image = seq<Block>

  datatype Buf = Buf(busy: bool, valid: bool, dirty: bool, dev: int, sector: nat, data: Block) {
    predicate Holds(dev: int, sector: nat) {
      this.dev == dev && this.sector == sector
    }

    predicate Recyclable() {
      !busy && !dirty
    }

    ghost predicate Pins(s: nat) {
      valid && sector == s && (busy || dirty)
    }
  }

  /** What a buffer holds, and the disk, after the memory disk's iderw. */
  function DataAfter(disk: Image, b: Buf): Block
    requires b.sector < |disk|
  {
    if b.dirty then b.data else disk[b.sector]
  }

  function DiskAfter(disk: Image, b: Buf): Image
    requires b.sector < |disk|
  {
    if b.dirty then disk[b.sector := b.data] else disk
  }

  // ----- the ring -----

  /** rank numbers the nodes 0..h from the list head h = |rank| - 1 on, and node is its inverse. */
  ghost predicate Ranked(rank: seq<int>, node: seq<int>) {
    && |node| == |rank| > 0 && rank[|rank| - 1] == 0
    && forall x {:trigger rank[x]} :: 0 <= x < |rank| ==> 0 <= rank[x] < |rank| && node[rank[x]] == x
  }

  ghost predicate NextLinks(rank: seq<int>, next: seq<int>) {
    && |next| == |rank|
    && forall x {:trigger next[x]} :: 0 <= x < |next| ==>
      0 <= next[x] < |rank| && rank[next[x]] == if rank[x] == |rank| - 1 then 0 else rank[x] + 1
  }

  ghost predicate PrevLinks(rank: seq<int>, prev: seq<int>) {
    && |prev| == |rank|
    && forall x {:trigger prev[x]} :: 0 <= x < |prev| ==>
      0 <= prev[x] < |rank| && rank[prev[x]] == if rank[x] == 0 then |rank| - 1 else rank[x] - 1
  }

  /** next and prev link all nodes in one ring: rank tells how many steps along next separate a
      node from the head. */
  ghost predicate Ring(rank: seq<int>, node: seq<int>, next: seq<int>, prev: seq<int>) {
    Ranked(rank, node) && NextLinks(rank, next) && PrevLinks(rank, prev)
  }

  ghost function Walk(next: seq<int>, x: nat, k: nat): (y: nat)
    requires x < |next| && forall i :: 0 <= i < |next| ==> 0 <= next[i] < |next|
    ensures y < |next|
  {
    if k == 0 then x else next[Walk(next, x, k - 1)]
  }

  lemma {:induction false} WalkRank(rank: seq<int>, node: seq<int>, next: seq<int>, k: nat)
    requires Ranked(rank, node) && NextLinks(rank, next) && k < |rank|
    ensures rank[Walk(next, |rank| - 1, k)] == k
  {
    if k > 0 {
      WalkRank(rank, node, next, k - 1);
    }
  }

  lemma {:induction false} LinksInverse(rank: seq<int>, node: seq<int>, next: seq<int>, prev: seq<int>, x: nat)
    requires Ring(rank, node, next, prev) && x < |rank|
    ensures next[prev[x]] == x && prev[next[x]] == x
  {
  }

  /** The links are mutually inverse, and following next from the head meets every node and comes
      back after exactly |rank| steps. */
  lemma {:induction false} RingIsOneCycle(rank: seq<int>, node: seq<int>, next: seq<int>, prev: seq<int>, x: nat)
    requires Ring(rank, node, next, prev) && x < |rank|
    ensures next[prev[x]] == x && prev[next[x]] == x
    ensures Walk(next, |rank| - 1, rank[x]) == x
    ensures Walk(next, |rank| - 1, |rank|) == |rank| - 1
  {
    WalkRank(rank, node, next, rank[x]);
    WalkRank(rank, node, next, |rank| - 1);
  }

  /** Ranks once the buffer of rank k has moved to the place behind the head. */
  ghost function Fronted(rank: seq<int>, k: int): (r: seq<int>)
    ensures |r| == |rank|
    ensures forall x {:trigger r[x]} :: 0 <= x < |r| ==>
      r[x] == if rank[x] == k then 1 else if 1 <= rank[x] < k then rank[x] + 1 else rank[x]
  {
    seq(|rank|, x requires 0 <= x < |rank| =>
      if rank[x] == k then 1 else if 1 <= rank[x] < k then rank[x] + 1 else rank[x])
  }

  ghost function FrontedNode(node: seq<int>, k: int): (n: seq<int>)
    requires 0 < k < |node|
    ensures |n| == |node|
    ensures forall i {:trigger n[i]} :: 0 <= i < |n| ==>
      n[i] == if i == 1 then node[k] else if 2 <= i <= k then node[i - 1] else node[i]
  {
    seq(|node|, i requires 0 <= i < |node| =>
      if i == 1 then node[k] else if 2 <= i <= k then node[i - 1] else node[i])
  }

  lemma {:induction false} FrontNext(rank: seq<int>, node: seq<int>, next: seq<int>, before: int, b: nat)
    requires Ranked(rank, node) && NextLinks(rank, next) && b < |rank| - 1
    requires 0 <= before < |rank| && rank[b] > 0 && rank[before] == rank[b] - 1
    ensures
      var n1 := next[before := next[b]];
      var n2 := n1[b := n1[|rank| - 1]];
      NextLinks(Fronted(rank, rank[b]), n2[|rank| - 1 := b])
  {
  }

  lemma {:induction false} FrontPrev(rank: seq<int>, node: seq<int>, prev: seq<int>, after: int, first: int, b: nat)
    requires Ranked(rank, node) && PrevLinks(rank, prev) && b < |rank| - 1
    requires 0 <= after < |rank| && rank[b] > 0 && rank[after] == if rank[b] == |rank| - 1 then 0 else rank[b] + 1
    requires 0 <= first < |rank|
    requires if rank[b] == 1 then first == after else rank[first] == 1
    ensures
      var p1 := prev[after := prev[b]];
      var p2 := p1[b := |rank| - 1];
      PrevLinks(Fronted(rank, rank[b]), p2[first := b])
  {
  }

  /** Lower ranks were released later. */
  ghost predicate ByRelease(rank: seq<int>, stamp: seq<int>, clock: int) {
    && |rank| == |stamp|
    && (forall x :: 0 <= x < |stamp| ==> stamp[x] < clock)
    && forall x, y {:trigger stamp[x], stamp[y]} :: 0 <= x < |rank| - 1 && 0 <= y < |rank| - 1 && rank[x] < rank[y] ==>
         stamp[y] < stamp[x]
  }

  lemma {:induction false} FrontRelease(rank: seq<int>, node: seq<int>, stamp: seq<int>, clock: int, b: nat)
    requires Ranked(rank, node) && ByRelease(rank, stamp, clock) && b < |rank| - 1
    ensures ByRelease(Fronted(rank, rank[b]), stamp[b := clock], clock + 1)
  {
  }

  lemma {:induction false} FrontRanked(rank: seq<int>, node: seq<int>, b: nat)
    requires Ranked(rank, node) && b < |rank| - 1
    ensures 0 < rank[b]
    ensures Ranked(Fronted(rank, rank[b]), FrontedNode(node, rank[b]))
  {
    assert rank[|rank| - 1] == 0;
  }

  /** brelse's six assignments unlink a buffer and relink it behind the head. */
  lemma {:induction false} MoveToFront(rank: seq<int>, node: seq<int>, next: seq<int>, prev: seq<int>, b: nat)
    requires Ring(rank, node, next, prev) && b < |rank| - 1
    ensures rank[b] > 0
    ensures
      var h := |rank| - 1;
      var p1 := prev[next[b] := prev[b]];
      var n1 := next[p1[b] := next[b]];
      var n2 := n1[b := n1[h]];
      var p2 := p1[b := h];
      Ring(Fronted(rank, rank[b]), FrontedNode(node, rank[b]), n2[h := b], p2[n2[h] := b])
  {
    var first := if rank[b] == 1 then next[b] else next[|rank| - 1];
    FrontRanked(rank, node, b);
    LinksInverse(rank, node, next, prev, b);
    FrontNext(rank, node, next, prev[b], b);
    FrontPrev(rank, node, prev, next[b], first, b);
  }

  // ----- the contents -----

  /** No sector of a real device is held by two buffers. */
  ghost predicate Unique(buf: seq<Buf>) {
    forall i, j :: 0 <= i < j < |buf| && buf[i].dev != -1 ==> !buf[j].Holds(buf[i].dev, buf[i].sector)
  }

  /** bget can answer at once: the sector's buffer is free, or there is none and another can be recycled. */
  ghost predicate Gettable(buf: seq<Buf>, dev: int, sector: nat) {
    && (forall i {:trigger buf[i]} :: 0 <= i < |buf| && buf[i].Holds(dev, sector) ==> !buf[i].busy)
    && (exists i {:trigger buf[i]} :: 0 <= i < |buf| && (buf[i].Holds(dev, sector) || buf[i].Recyclable()))
  }

  ghost predicate Spare(buf: seq<Buf>, i: int) {
    0 <= i < |buf| && buf[i].Recyclable()
  }

  ghost predicate Quiet(buf: seq<Buf>) {
    forall i {:trigger buf[i]} :: 0 <= i < |buf| ==> !buf[i].busy
  }

  /** No buffer is busy, and two are not pinned. */
  ghost predicate Roomy(buf: seq<Buf>) {
    && Quiet(buf)
    && (exists i, j {:trigger Spare(buf, i), Spare(buf, j)} :: i != j && Spare(buf, i) && Spare(buf, j))
  }

  /** No buffer became busy or pinned, and a pinned one still caches its sector. */
  ghost predicate Calmer(buf: seq<Buf>, buf': seq<Buf>) {
    && |buf'| == |buf|
    && forall i {:trigger buf'[i]} :: 0 <= i < |buf| ==>
      && (buf'[i].busy ==> buf[i].busy)
      && (buf'[i].dirty ==> buf[i].dirty && buf'[i].Holds(buf[i].dev, buf[i].sector))
  }

  /** Only buffers of the sectors in lh are pinned. */
  ghost predicate PinnedWithin(buf: seq<Buf>, lh: seq<int>) {
    forall i {:trigger buf[i]} :: 0 <= i < |buf| && buf[i].dirty ==> buf[i].dev == ROOTDEV && buf[i].sector in lh
  }

  lemma {:induction false} CalmSelf(buf: seq<Buf>)
    ensures Calmer(buf, buf)
  {
  }

  lemma {:induction false} CalmerTrans(a: seq<Buf>, b: seq<Buf>, c: seq<Buf>)
    requires Calmer(a, b) && Calmer(b, c)
    ensures Calmer(a, c)
  {
    forall i {:trigger c[i]} | 0 <= i < |c|
      ensures (c[i].busy ==> a[i].busy) && (c[i].dirty ==> a[i].dirty && c[i].Holds(a[i].dev, a[i].sector))
    {
      assert b[i].busy ==> a[i].busy;
    }
  }

  /** Once its sector is written home, a buffer is not pinned any more. */
  lemma {:induction false} Unpinned(buf: seq<Buf>, buf': seq<Buf>, lh: seq<int>)
    requires lh != [] && Calmer(buf, buf') && PinnedWithin(buf, lh)
    requires forall i {:trigger buf'[i]} :: 0 <= i < |buf'| && buf'[i].dirty && buf'[i].dev == ROOTDEV ==>
      buf'[i].sector != lh[0]
    ensures PinnedWithin(buf', lh[1..])
  {
    forall i {:trigger buf'[i]} | 0 <= i < |buf'| && buf'[i].dirty
      ensures buf'[i].dev == ROOTDEV && buf'[i].sector in lh[1..]
    {
      assert buf[i].dirty;
    }
  }

  lemma {:induction false} CalmerPins(buf: seq<Buf>, buf': seq<Buf>, lh: seq<int>)
    requires Calmer(buf, buf') && PinnedWithin(buf, lh)
    ensures PinnedWithin(buf', lh)
  {
    forall i {:trigger buf'[i]} | 0 <= i < |buf'| && buf'[i].dirty
      ensures buf'[i].dev == ROOTDEV && buf'[i].sector in lh
    {
      assert buf[i].dirty;
    }
  }

  lemma {:induction false} StaysRoomy(buf: seq<Buf>, buf': seq<Buf>)
    requires Calmer(buf, buf') && Roomy(buf)
    ensures Roomy(buf')
  {
    var i, j :| i != j && Spare(buf, i) && Spare(buf, j);
    assert Spare(buf', i) && Spare(buf', j);
  }

  /** A list without repetition whose elements are all in lh is no longer than lh. */
  lemma {:induction false} NoLonger(a: seq<int>, lh: seq<int>)
    requires (forall j, k :: 0 <= j < k < |a| ==> a[j] != a[k])
    requires forall j {:trigger a[j]} :: 0 <= j < |a| ==> a[j] in lh
    ensures |a| <= |lh|
  {
    if a != [] {
      var n := |a| - 1;
      var p :| 0 <= p < |lh| && lh[p] == a[n];
      var rest := lh[..p] + lh[p + 1..];
      forall j {:trigger a[..n][j]} | 0 <= j < n ensures a[..n][j] in rest {
        var q :| 0 <= q < |lh| && lh[q] == a[j];
        assert q != p && rest[if q < p then q else q - 1] == a[j];
      }
      NoLonger(a[..n], rest);
    }
  }

  /** The pinned and the unpinned among the first n buffers. */
  function Those(buf: seq<Buf>, n: nat, pinned: bool): (r: seq<int>)
    requires n <= |buf|
    ensures forall j {:trigger r[j]} :: 0 <= j < |r| ==> 0 <= r[j] < n && buf[r[j]].dirty == pinned
    ensures forall j, k {:trigger r[j], r[k]} :: 0 <= j < k < |r| ==> r[j] < r[k]
  {
    if n == 0 then []
    else Those(buf, n - 1, pinned) + if buf[n - 1].dirty == pinned then [n - 1] else []
  }

  lemma {:induction false} PinnedOrNot(buf: seq<Buf>, n: nat)
    requires n <= |buf|
    ensures |Those(buf, n, true)| + |Those(buf, n, false)| == n
  {
    if n > 0 {
      PinnedOrNot(buf, n - 1);
    }
  }

  /** With two buffers more than pinned sectors, and none busy, there is room. */
  lemma {:induction false} EnoughRoom(buf: seq<Buf>, lh: seq<int>)
    requires Unique(buf) && PinnedWithin(buf, lh) && |lh| + 2 <= |buf| && Quiet(buf)
    ensures Roomy(buf)
  {
    hide Those;
    var pinned, free := Those(buf, |buf|, true), Those(buf, |buf|, false);
    PinnedOrNot(buf, |buf|);
    var sectors: seq<int> := seq(|pinned|, j requires 0 <= j < |pinned| => buf[pinned[j]].sector);
    forall j, k | 0 <= j < k < |sectors| ensures sectors[j] != sectors[k] {
      assert pinned[j] < pinned[k] && buf[pinned[j]].dirty && buf[pinned[k]].dirty;
      assert !buf[pinned[k]].Holds(buf[pinned[j]].dev, buf[pinned[j]].sector);
    }
    NoLonger(sectors, lh);
    assert Spare(buf, free[0]) && Spare(buf, free[1]);
  }

  /** Buffers in use cache only the sectors of s. */
  ghost predicate UsedWithin(buf: seq<Buf>, s: seq<int>) {
    forall i {:trigger buf[i]} :: 0 <= i < |buf| && !buf[i].Recyclable() ==> buf[i].dev == ROOTDEV && buf[i].sector in s
  }

  /** While fewer sectors than buffers are in use, bget has a buffer to recycle. */
  lemma {:induction false} OneToRecycle(buf: seq<Buf>, s: seq<int>)
    requires Unique(buf) && UsedWithin(buf, s) && |s| < |buf|
    ensures exists i :: 0 <= i < |buf| && buf[i].Recyclable()
  {
    if forall i :: 0 <= i < |buf| ==> !buf[i].Recyclable() {
      var sectors: seq<int> := seq(|buf|, i requires 0 <= i < |buf| => buf[i].sector);
      forall j, k | 0 <= j < k < |sectors| ensures sectors[j] != sectors[k] {
        assert !buf[k].Holds(buf[j].dev, buf[j].sector);
      }
      NoLonger(sectors, s);
    }
  }

  /** With room, any sector can be had, ... */
  lemma {:induction false} RoomForOne(buf: seq<Buf>, dev: int, sector: nat)
    requires Roomy(buf)
    ensures Gettable(buf, dev, sector)
  {
    var i, j :| i != j && Spare(buf, i) && Spare(buf, j);
    assert buf[i].Recyclable();
  }

  /** ... and a second one while the first is held. */
  lemma {:induction false} RoomForTwo(buf: seq<Buf>, b: nat, first: Buf, dev: int, sector: nat)
    requires Roomy(buf) && b < |buf| && !first.Holds(dev, sector)
    ensures Gettable(buf[b := first], dev, sector)
  {
    var i, j :| i != j && Spare(buf, i) && Spare(buf, j);
    var k := if i == b then j else i;
    assert buf[b := first][k].Recyclable();
  }

  /** Some buffer that may not be recycled has the contents of sector s. */
  ghost predicate Pinned(buf: seq<Buf>, s: nat) {
    exists i :: 0 <= i < |buf| && buf[i].Pins(s)
  }

  /** Valid buffers carry the view, and a sector whose disk contents differ from it is pinned. */
  ghost predicate Coherent(buf: seq<Buf>, disk: Image, view: Image) {
    && |view| == |disk|
    && (forall i :: 0 <= i < |buf| ==> buf[i].dirty ==> buf[i].valid)
    && (forall i :: 0 <= i < |buf| ==> buf[i].valid ==>
      buf[i].dev == ROOTDEV && buf[i].sector < |disk| && buf[i].data == view[buf[i].sector])
    && (forall s :: 0 <= s < |disk| && view[s] != disk[s] ==> Pinned(buf, s))
  }

  lemma {:induction false} CoherentUpdate(buf: seq<Buf>, disk: Image, view: Image, b: nat, b': Buf, disk': Image,
                                          view': Image)
    requires Coherent(buf, disk, view) && b < |buf| && |disk'| == |view'| == |disk|
    requires b'.dirty ==> b'.valid
    requires b'.valid ==> b'.dev == ROOTDEV && b'.sector < |disk| && b'.data == view'[b'.sector]
    requires forall i :: 0 <= i < |buf| && i != b && buf[i].valid ==> view'[buf[i].sector] == view[buf[i].sector]
    requires forall s: nat :: s < |disk| && view'[s] != disk'[s] ==>
      b'.Pins(s) || (view[s] != disk[s] && !buf[b].Pins(s))
    ensures Coherent(buf[b := b'], disk', view')
  {
    var buf' := buf[b := b'];
    forall s: nat | s < |disk| && view'[s] != disk'[s] ensures Pinned(buf', s) {
      if b'.Pins(s) {
        assert buf'[b].Pins(s);
      } else {
        var i :| 0 <= i < |buf| && buf[i].Pins(s);
        assert buf'[i].Pins(s);
      }
    }
  }

  class Cache {
    var buf: seq<Buf>
    var next: seq<int>
    var prev: seq<int>
    var disk: Image

    ghost var rank: seq<int>       // each node's distance from the head along next
    ghost var node: seq<int>       // the node at each distance
    ghost var stamp: seq<int>      // when each buffer was last released
    ghost var clock: int
    ghost var view: Image          // the disk with every modification applied
    ghost var trace: seq<Image>    // the disk after each sector write

    ghost predicate Valid()
      reads this
    {
      && |rank| == |buf| + 1
      && Ring(rank, node, next, prev) && ByRelease(rank, stamp, clock)
      && Unique(buf) && Coherent(buf, disk, view)
      && trace != [] && trace[|trace| - 1] == disk
    }

    /** binit over the disk image found at boot. */
    constructor (nbuf: nat, image: Image)
      ensures Valid() && disk == image == view && |buf| == nbuf && trace == [image]
      ensures forall i :: 0 <= i < nbuf ==> !buf[i].busy && !buf[i].valid && !buf[i].dirty && buf[i].dev == -1
    {
      var zero := Block(seq(WORDS, _ => 0));
      var n := seq(nbuf + 1, i => nbuf);
      var p := seq(nbuf + 1, i => nbuf);
      var b := 0;
      while b < nbuf
        invariant 0 <= b <= nbuf == |n| - 1 == |p| - 1
        invariant n[nbuf] == (if b == 0 then nbuf else b - 1)
        invariant p[nbuf] == (if b == 0 then nbuf else 0)
        invariant forall i :: 0 <= i < b ==> n[i] == (if i == 0 then nbuf else i - 1)
        invariant forall i :: 0 <= i < b ==> p[i] == (if i == b - 1 then nbuf else i + 1)
      {
        n := n[b := n[nbuf]];
        p := p[b := nbuf];
        p := p[n[nbuf] := b];
        n := n[nbuf := b];
        b := b + 1;
      }
      ghost var r: seq<int> := seq(nbuf + 1, i requires 0 <= i <= nbuf => nbuf - i);
      assert Ranked(r, r);
      assert NextLinks(r, n);
      assert PrevLinks(r, p);
      rank, node, next, prev := r, r, n, p;
      buf := seq(nbuf, i => Buf(false, false, false, -1, 0, zero));
      disk := image;
      stamp, clock, view, trace := seq(nbuf + 1, i => i), nbuf + 1, image, [image];
    }

    /** bget's first scan, from the front: the buffer that caches the sector, or the head. */
    method FindCached(dev: int, sector: nat) returns (b: int)
      requires Valid()
      ensures 0 <= b <= |buf|
      ensures if b < |buf| then buf[b].Holds(dev, sector) else
                forall i :: 0 <= i < |buf| ==> !buf[i].Holds(dev, sector)
    {
      b := next[|buf|];
      while b != |buf|
        invariant 0 <= b <= |buf|
        invariant forall i :: 0 <= i < |buf| && (b == |buf| || rank[i] < rank[b]) ==> !buf[i].Holds(dev, sector)
        decreases if b == |buf| then 0 else |rank| - rank[b]
      {
        if buf[b].dev == dev && buf[b].sector == sector {
          return;
        }
        b := next[b];
      }
    }

    /** bget's second scan, from the back: the least recently released buffer that is neither
        busy nor dirty, or the head. */
    method FindRecyclable() returns (b: int)
      requires Valid()
      ensures 0 <= b <= |buf|
      ensures if b < |buf| then
                buf[b].Recyclable() && forall i :: 0 <= i < |buf| && buf[i].Recyclable() ==> stamp[b] <= stamp[i]
              else forall i :: 0 <= i < |buf| ==> !buf[i].Recyclable()
    {
      b := prev[|buf|];
      while b != |buf|
        invariant 0 <= b <= |buf|
        invariant forall i :: 0 <= i < |buf| && (b == |buf| || rank[b] < rank[i]) ==> !buf[i].Recyclable()
        decreases if b == |buf| then 0 else rank[b]
      {
        if !buf[b].busy && !buf[b].dirty {
          return;
        }
        b := prev[b];
      }
    }

    /** bget: lock the buffer that caches the sector; when none does, take over the least recently
        released recyclable buffer. */
    method BGet(dev: int, sector: nat) returns (r: Outcome<nat>)
      requires Valid() && dev != -1
      modifies this`buf
      ensures Valid()
      ensures r.Ok? ==> r.value < |old(buf)|
      ensures r.Ok? ==>
        if old(buf)[r.value].Holds(dev, sector) then
          !old(buf)[r.value].busy && buf == old(buf)[r.value := old(buf)[r.value].(busy := true)]
        else
          && (forall i :: 0 <= i < |old(buf)| ==> !old(buf)[i].Holds(dev, sector))
          && old(buf)[r.value].Recyclable()
          && (forall i :: 0 <= i < |buf| && old(buf)[i].Recyclable() ==> stamp[r.value] <= stamp[i])
          && buf == old(buf)[r.value := Buf(true, false, false, dev, sector, old(buf)[r.value].data)]
      ensures !r.Ok? ==> buf == old(buf)
      ensures r.Sleep? <==> exists i :: 0 <= i < |buf| && old(buf)[i].Holds(dev, sector) && old(buf)[i].busy
      ensures r.Panic? <==>
        forall i :: 0 <= i < |buf| ==> !old(buf)[i].Holds(dev, sector) && !old(buf)[i].Recyclable()
    {
      var b := FindCached(dev, sector);
      if b < |buf| {
        if !buf[b].busy {
          CoherentUpdate(buf, disk, view, b, buf[b].(busy := true), disk, view);
          buf := buf[b := buf[b].(busy := true)];
          return Ok(b);
        }
        return Sleep;
      }
      b := FindRecyclable();
      if b == |buf| {
        return Panic;
      }
      CoherentUpdate(buf, disk, view, b, Buf(true, false, false, dev, sector, buf[b].data), disk, view);
      buf := buf[b := Buf(true, false, false, dev, sector, buf[b].data)];
      return Ok(b);
    }

    /** iderw of memide.c: write the buffer if dirty, otherwise read it. */
    method IdeRw(b: nat) returns (r: Outcome<()>)
      requires Valid() && b < |buf|
      modifies this`buf, this`disk, this`trace
      ensures Valid()
      ensures r.Ok? || r.Panic?
      ensures r.Ok? <==> && old(buf)[b].busy && !(old(buf)[b].valid && !old(buf)[b].dirty)
                         && old(buf)[b].dev == ROOTDEV && old(buf)[b].sector < |disk|
      ensures r.Panic? ==> buf == old(buf) && disk == old(disk) && trace == old(trace)
      ensures r.Ok? ==>
        var o := old(buf)[b];
        && buf == old(buf)[b := o.(valid := true, dirty := false, data := DataAfter(old(disk), o))]
        && disk == DiskAfter(old(disk), o) && view[o.sector] == DataAfter(old(disk), o)
        && trace == (if o.dirty then old(trace) + [disk] else old(trace))
    {
      if !buf[b].busy { return Panic; }
      if buf[b].valid && !buf[b].dirty { return Panic; }
      if buf[b].dev != ROOTDEV { return Panic; }
      if buf[b].sector >= |disk| { return Panic; }
      var s := buf[b].sector;
      if buf[b].dirty {
        disk := disk[s := buf[b].data];
        trace := trace + [disk];
        CoherentUpdate(buf, old(disk), view, b, buf[b].(dirty := false), disk, view);
        buf := buf[b := buf[b].(dirty := false, valid := true)];
      } else {
        NotPinned(s, b);
        CoherentUpdate(buf, disk, view, b, buf[b].(data := disk[s], valid := true), disk, view);
        buf := buf[b := buf[b].(data := disk[s], valid := true)];
      }
      return Ok(());
    }

    /** A sector whose one buffer is not yet valid is on disk as viewed. */
    lemma {:induction false} NotPinned(s: nat, b: nat)
      requires Valid() && s < |disk| && b < |buf| && buf[b].Holds(ROOTDEV, s) && !buf[b].valid
      ensures view[s] == disk[s]
    {
      if view[s] != disk[s] {
        var i :| 0 <= i < |buf| && buf[i].Pins(s);
        assert buf[i].Holds(ROOTDEV, s);
      }
    }

    /** No two buffers cache one sector. */
    lemma {:induction false} OneHolder(b: nat)
      requires Valid() && b < |buf| && buf[b].dev != -1
      ensures forall i {:trigger buf[i]} :: 0 <= i < |buf| && i != b ==> !buf[i].Holds(buf[b].dev, buf[b].sector)
    {
      forall i {:trigger buf[i]} | 0 <= i < |buf| && i != b ensures !buf[i].Holds(buf[b].dev, buf[b].sector) {
        assert i < b && buf[i].dev != -1 ==> !buf[b].Holds(buf[i].dev, buf[i].sector);
      }
    }

    /** bread: a busy buffer holding the sector as the flat view has it. */
    method BRead(dev: int, sector: nat) returns (r: Outcome<nat>)
      requires Valid() && dev != -1
      modifies this`buf, this`disk, this`trace
      ensures Valid() && disk == old(disk) && trace == old(trace) && |buf| == |old(buf)|
      ensures r.Ok? <==> dev == ROOTDEV && sector < |disk| && Gettable(old(buf), dev, sector)
      ensures r.Sleep? <==> exists i :: 0 <= i < |buf| && old(buf)[i].Holds(dev, sector) && old(buf)[i].busy
      ensures r.Ok? ==>
        && dev == ROOTDEV && sector < |disk| && r.value < |buf|
        && var o, d := old(buf)[r.value], (old(buf)[r.value].Holds(dev, sector) && old(buf)[r.value].dirty);
        && (if o.Holds(dev, sector) then !o.busy else o.Recyclable())
        && buf == old(buf)[r.value := Buf(true, true, d, dev, sector, view[sector])]
    {
      r := BGet(dev, sector);
      if r.Ok? && !buf[r.value].valid {
        var io := IdeRw(r.value);
        if io.Panic? {
          r := Panic;
        }
      }
    }

    /** bwrite: put the buffer's contents on the disk. */
    method BWrite(b: nat) returns (r: Outcome<()>)
      requires Valid() && b < |buf| && buf[b].valid
      modifies this`buf, this`disk, this`trace
      ensures Valid()
      ensures r.Ok? || r.Panic?
      ensures r.Ok? <==> old(buf)[b].busy
      ensures r.Panic? ==> buf == old(buf) && disk == old(disk) && trace == old(trace)
      ensures r.Ok? ==>
        && buf == old(buf)[b := old(buf)[b].(dirty := false)]
        && disk == old(disk)[buf[b].sector := buf[b].data]
        && trace == old(trace) + [disk]
    {
      if !buf[b].busy { return Panic; }
      CoherentUpdate(buf, disk, view, b, buf[b].(dirty := true), disk, view);
      buf := buf[b := buf[b].(dirty := true)];
      r := IdeRw(b);
    }

    /** The holder of a busy buffer changes its data. */
    method Modify(b: nat, data: Block)
      requires Valid() && b < |buf| && buf[b].busy && buf[b].valid
      modifies this`buf, this`view
      ensures Valid()
      ensures buf == old(buf)[b := old(buf)[b].(data := data)]
      ensures view == old(view)[buf[b].sector := data]
    {
      view := view[buf[b].sector := data];
      CoherentUpdate(buf, disk, old(view), b, buf[b].(data := data), disk, view);
      buf := buf[b := buf[b].(data := data)];
    }

    /** log_write's B_DIRTY mark, which keeps the buffer from being recycled. */
    method MarkDirty(b: nat)
      requires Valid() && b < |buf| && buf[b].valid
      modifies this`buf
      ensures Valid()
      ensures buf == old(buf)[b := old(buf)[b].(dirty := true)]
    {
      CoherentUpdate(buf, disk, view, b, buf[b].(dirty := true), disk, view);
      buf := buf[b := buf[b].(dirty := true)];
    }

    /** brelse: unlock the buffer and move it to the front. A holder that changed the data must
        have written it through or marked it dirty (bio.c's interface: after changing, write). */
    method BRelse(b: nat) returns (r: Outcome<()>)
      requires Valid() && b < |buf|
      requires buf[b].valid && !buf[b].dirty ==> buf[b].data == disk[buf[b].sector]
      modifies this`buf, this`next, this`prev, this`rank, this`node, this`stamp, this`clock
      ensures Valid()
      ensures r.Ok? || r.Panic?
      ensures r.Ok? <==> old(buf)[b].busy
      ensures r.Panic? ==> buf == old(buf) && rank == old(rank) && stamp == old(stamp)
      ensures r.Ok? ==>
        && buf == old(buf)[b := old(buf)[b].(busy := false)]
        && rank == Fronted(old(rank), old(rank)[b])
        && stamp == old(stamp)[b := old(clock)] && clock == old(clock) + 1
    {
      if !buf[b].busy { return Panic; }
      FrontRelease(rank, node, stamp, clock, b);
      ToFront(b);
      stamp, clock := stamp[b := clock], clock + 1;
      CoherentUpdate(buf, disk, view, b, buf[b].(busy := false), disk, view);
      buf := buf[b := buf[b].(busy := false)];
      return Ok(());
    }

    /** The six assignments of brelse that unlink a buffer and relink it behind the head. */
    method ToFront(b: nat)
      requires |rank| == |buf| + 1 && b < |buf| && Ring(rank, node, next, prev)
      modifies this`next, this`prev, this`rank, this`node
      ensures Ring(rank, node, next, prev)
      ensures rank == Fronted(old(rank), old(rank)[b])
    {
      MoveToFront(rank, node, next, prev, b);
      var n, p, head := next, prev, |buf|;
      p := p[n[b] := p[b]];
      n := n[p[b] := n[b]];
      n := n[b := n[head]];
      p := p[b := head];
      p := p[n[head] := b];
      n := n[head := b];
      next, prev := n, p;
      rank, node := Fronted(rank, rank[b]), FrontedNode(node, rank[b]);
    }
  }
}
