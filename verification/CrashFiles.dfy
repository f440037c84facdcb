/** Files across crashes: the commits of filewrite (file.c), run through the redo log (log.c) sector by sector. Whatever
    image a crash leaves, recovery brings back a file with a number of whole chunks stored. */
module CrashFiles {
  import opened Outcomes
  import opened RedoLog
  import opened Transactions
  import BufferCache
  import BlockMap
  import FileSystem

  type Image = BufferCache.Image
  type Sector = BufferCache.Block
  type Saved = FileSystem.Saved

  // ----- sectors -----

  /** Field k of an inode. */
  function Field(d: BlockMap.Inode, k: nat): int {
    match k
    case 0 => d.kind
    case 1 => d.major
    case 2 => d.minor
    case 3 => d.nlink
    case 4 => d.size
    case _ => if k - 5 < |d.addrs| then d.addrs[k - 5] else 0
  }

  const FIELDS := 18 // an inode's

  /** Sector q of the inodes, and of the bitmap. */
  function InodesIn(dinode: seq<BlockMap.Inode>, q: nat): Sector {
    BufferCache.Block(seq(8 * FIELDS, k requires 0 <= k < 8 * FIELDS =>
      var j := 8 * q + k / FIELDS;
      if j < |dinode| then Field(dinode[j], k % FIELDS) else 0))
  }

  function BitsIn(bits: seq<bool>, q: nat): Sector {
    BufferCache.Block(seq(4096, k requires 0 <= k < 4096 =>
      if 4096 * q + k < |bits| && bits[4096 * q + k] then 1 else 0))
  }

  /** What sector s of the file system holds. */
  function SectorOf(w: Saved, s: nat): Sector {
    var bitmap := |w.dinode| / 8 + 3;
    if 2 <= s < bitmap then InodesIn(w.dinode, s - 2)
    else if bitmap <= s <= FileSystem.BBlock(|w.bits|, |w.dinode|) then BitsIn(w.bits, s - bitmap)
    else if s < |w.block| then BufferCache.Block(w.block[s].bytes)
    else BufferCache.Block([])
  }

  function DiskOf(w: Saved, n: nat): (r: Image)
    ensures |r| == n && forall s {:trigger r[s]} :: 0 <= s < n ==> r[s] == SectorOf(w, s)
  {
    seq(n, s requires 0 <= s < n => SectorOf(w, s))
  }

  lemma {:induction false} InodeShows(w: Saved, v: Saved, j: nat)
    requires |w.dinode| == |v.dinode| && j < |w.dinode|
    requires |w.dinode[j].addrs| == 13 && |v.dinode[j].addrs| == 13
    requires SectorOf(w, FileSystem.IBlock(j)) == SectorOf(v, FileSystem.IBlock(j))
    ensures w.dinode[j] == v.dinode[j]
  {
    var q, a, b := j / 8, w.dinode[j], v.dinode[j];
    assert InodesIn(w.dinode, q) == InodesIn(v.dinode, q);
    forall k: nat | k < FIELDS ensures Field(a, k) == Field(b, k) {
      var at := j % 8 * FIELDS + k;
      assert at / FIELDS == j % 8 && at % FIELDS == k && 8 * q + j % 8 == j;
      assert InodesIn(w.dinode, q).word[at] == InodesIn(v.dinode, q).word[at];
    }
    assert Field(a, 0) == Field(b, 0) && Field(a, 1) == Field(b, 1) && Field(a, 2) == Field(b, 2);
    assert Field(a, 3) == Field(b, 3) && Field(a, 4) == Field(b, 4);
    forall m | 0 <= m < 13 ensures a.addrs[m] == b.addrs[m] {
      assert Field(a, m + 5) == Field(b, m + 5);
    }
    assert a.addrs == b.addrs;
  }

  lemma {:induction false} BitShows(w: Saved, v: Saved, b: nat)
    requires |w.dinode| == |v.dinode| && |w.bits| == |v.bits| && b < |w.bits|
    requires SectorOf(w, FileSystem.BBlock(b, |w.dinode|)) == SectorOf(v, FileSystem.BBlock(b, |w.dinode|))
    ensures w.bits[b] == v.bits[b]
  {
    var q, k := b / 4096, b % 4096;
    assert BitsIn(w.bits, q) == BitsIn(v.bits, q);
    assert BitsIn(w.bits, q).word[k] == BitsIn(v.bits, q).word[k];
  }

  /** Blocks behind the bitmap are files' blocks. */
  lemma {:induction false} BlockShows(w: Saved, v: Saved, b: nat)
    requires |w.dinode| == |v.dinode| && |w.bits| == |v.bits| && |w.block| == |v.block|
    requires FileSystem.BBlock(|w.bits|, |w.dinode|) < b < |w.block| && SectorOf(w, b) == SectorOf(v, b)
    ensures w.block[b] == v.block[b]
  {
  }

  /** Two states whose disks agree outside the log agree on inodes, bitmap, and all files' blocks outside the log. */
  lemma {:induction false} DiskShows(at: Layout, w: Saved, v: Saved, n: nat)
    requires |w.dinode| == |v.dinode| && |w.bits| == |v.bits| && |w.block| == |v.block| <= n
    requires FileSystem.BBlock(|w.bits|, |w.dinode|) < at.start <= n && SameHome(at, DiskOf(w, n), DiskOf(v, n))
    requires forall j {:trigger w.dinode[j]} {:trigger v.dinode[j]} :: 0 <= j < |w.dinode| ==>
      |w.dinode[j].addrs| == |v.dinode[j].addrs| == 13
    ensures w.dinode == v.dinode && w.bits == v.bits
    ensures forall b :: FileSystem.BBlock(|w.bits|, |w.dinode|) < b < |w.block| && !InLog(at, b) ==>
      w.block[b] == v.block[b]
  {
    hide SectorOf;
    var x, y := DiskOf(w, n), DiskOf(v, n);
    forall s: nat | s < n && !InLog(at, s) ensures SectorOf(w, s) == SectorOf(v, s) {
      assert x[s] == y[s];
    }
    forall j | 0 <= j < |w.dinode| ensures w.dinode[j] == v.dinode[j] {
      InodeShows(w, v, j);
    }
    forall b | 0 <= b < |w.bits| ensures w.bits[b] == v.bits[b] {
      BitShows(w, v, b);
    }
    forall b | FileSystem.BBlock(|w.bits|, |w.dinode|) < b < |w.block| && !InLog(at, b)
      ensures w.block[b] == v.block[b]
    {
      BlockShows(w, v, b);
    }
  }

  // ----- one commit -----

  /** A commit changes just the sectors that its log lists. */
  lemma {:induction false} SectorFlushed(a: Saved, b: Saved, lh: seq<int>, s: nat)
    requires FileSystem.Commits(a, b, lh) && s !in lh
    ensures SectorOf(b, s) == SectorOf(a, s)
  {
    var bitmap := |a.dinode| / 8 + 3;
    var f := FileSystem.Flushed(a, b, lh);
    if 2 <= s < bitmap {
      var x, y := InodesIn(a.dinode, s - 2), InodesIn(b.dinode, s - 2);
      forall k | 0 <= k < 8 * FIELDS ensures x.word[k] == y.word[k] {
        var j := 8 * (s - 2) + k / FIELDS;
        if j < |a.dinode| {
          assert FileSystem.IBlock(j) == s && f.dinode[j] == a.dinode[j];
        }
      }
      assert x.word == y.word;
    } else if bitmap <= s <= FileSystem.BBlock(|a.bits|, |a.dinode|) {
      var x, y := BitsIn(a.bits, s - bitmap), BitsIn(b.bits, s - bitmap);
      forall k | 0 <= k < 4096 ensures x.word[k] == y.word[k] {
        var j := 4096 * (s - bitmap) + k;
        if j < |a.bits| {
          assert FileSystem.BBlock(j, |a.dinode|) == s && f.bits[j] == a.bits[j];
        }
      }
      assert x.word == y.word;
    } else if s < |a.block| {
      assert f.block[s] == a.block[s];
    }
  }

  /** Write i is the last one to its sector. */
  ghost predicate LastTo(ws: seq<Write>, i: int) {
    0 <= i < |ws| && forall j {:trigger ws[j]} :: i < j < |ws| ==> ws[j].sector != ws[i].sector
  }

  /** The log_writes of a transaction: to the sectors that lh lists, and the last to each has what b has there. */
  ghost predicate Carries(ws: seq<Write>, lh: seq<int>, b: Saved) {
    && (forall i {:trigger ws[i]} :: 0 <= i < |ws| ==> ws[i].sector in lh)
    && (forall i {:trigger ws[i]} :: LastTo(ws, i) ==> ws[i].data == SectorOf(b, ws[i].sector))
    && (forall s: nat {:trigger s in lh} :: s in lh ==> exists i :: 0 <= i < |ws| && ws[i].sector == s)
  }

  /** One write for each sector does it. */
  lemma {:induction false} SomeWrites(lh: seq<int>, b: Saved) returns (ws: seq<Write>)
    requires forall k {:trigger lh[k]} :: 0 <= k < |lh| ==> lh[k] >= 0
    ensures Carries(ws, lh, b)
  {
    ws := seq(|lh|, k requires 0 <= k < |lh| => Write(lh[k], SectorOf(b, lh[k])));
    forall s: nat | s in lh ensures exists i :: 0 <= i < |ws| && ws[i].sector == s {
      var k :| 0 <= k < |lh| && lh[k] == s;
      assert ws[k].sector == s;
    }
  }

  lemma {:induction false} LastWrite(ws: seq<Write>, i: nat) returns (l: nat)
    requires i < |ws|
    ensures l < |ws| && LastTo(ws, l) && ws[l].sector == ws[i].sector
    decreases |ws| - i
  {
    l := i;
    if j :| i < j < |ws| && ws[j].sector == ws[i].sector {
      l := LastWrite(ws, j);
    }
  }

  /** Such writes, laid over the disk of a, give the disk of b. */
  lemma {:induction false} OverlayCommits(a: Saved, b: Saved, lh: seq<int>, ws: seq<Write>, n: nat)
    requires FileSystem.Commits(a, b, lh) && Carries(ws, lh, b)
    ensures Overlay(DiskOf(a, n), ws) == DiskOf(b, n)
  {
    hide FileSystem.Commits, Overlay, SectorOf;
    var r := Overlay(DiskOf(a, n), ws);
    forall s: nat | s < n ensures r[s] == SectorOf(b, s) {
      if s in lh {
        var i: nat :| i < |ws| && ws[i].sector == s;
        var l := LastWrite(ws, i);
        OverlayLast(DiskOf(a, n), ws, l);
      } else {
        OverlayElsewhere(DiskOf(a, n), ws, s);
        SectorFlushed(a, b, lh, s);
      }
    }
    assert r == DiskOf(b, n);
  }

  // ----- runs -----

  /** Transaction c takes the disk from state c to state c + 1. */
  ghost predicate CarriesAll(ts: seq<seq<Write>>, logs: seq<seq<int>>, states: seq<Saved>) {
    && |ts| == |logs| && |states| == |ts| + 1
    && forall c {:trigger ts[c]} :: 0 <= c < |ts| ==>
         FileSystem.Commits(states[c], states[c + 1], logs[c]) && Carries(ts[c], logs[c], states[c + 1])
  }

  lemma {:induction false} AppliedStates(img: Image, at: Layout, ts: seq<seq<Write>>, logs: seq<seq<int>>,
                                         states: seq<Saved>, c: nat)
    requires CarriesAll(ts, logs, states) && c <= |ts| && SameHome(at, img, DiskOf(states[0], |img|))
    ensures SameHome(at, Applied(img, ts[..c]), DiskOf(states[c], |img|))
    decreases c
  {
    hide SameHome, Carries, FileSystem.Commits, Overlay, Applied;
    if c == 0 {
      assert ts[..0] == [];
      AppliedNone(img);
    } else {
      var m := c - 1;
      AppliedStates(img, at, ts, logs, states, m);
      AppliedMore(img, ts, m);
      assert FileSystem.Commits(states[m], states[m + 1], logs[m]) && Carries(ts[m], logs[m], states[m + 1]);
      OverlayCommits(states[m], states[m + 1], logs[m], ts[m], |img|);
      OverlaySameHome(at, Applied(img, ts[..m]), DiskOf(states[m], |img|), ts[m]);
    }
  }

  lemma {:induction false} AppliedNone(img: Image)
    ensures Applied(img, []) == img
  {
  }

  /** Image number n + k recovers to the disk of state step[k]. */
  ghost predicate RecoverStates(at: Layout, trace: seq<Image>, n: nat, size: nat, states: seq<Saved>, step: seq<nat>) {
    && n + |step| == |trace|
    && (forall k {:trigger step[k]} :: 0 <= k < |step| ==>
          step[k] < |states| && Recovers(at, trace[n + k], DiskOf(states[step[k]], size)))
    && (forall j, k {:trigger step[j], step[k]} :: 0 <= j < k < |step| ==> step[j] <= step[k])
  }

  lemma {:induction false} WholeStates(at: Layout, trace: seq<Image>, n: nat, img: Image, ts: seq<seq<Write>>,
                                       logs: seq<seq<int>>, states: seq<Saved>, step: seq<nat>)
    requires Whole(at, trace, n, img, ts, step) && CarriesAll(ts, logs, states)
    requires SameHome(at, img, DiskOf(states[0], |img|))
    ensures RecoverStates(at, trace, n, |img|, states, step)
  {
    hide SameHome, WellFormed, Recovered, Applied, CarriesAll;
    forall k {:trigger step[k]} | 0 <= k < |step|
      ensures step[k] < |states| && Recovers(at, trace[n + k], DiskOf(states[step[k]], |img|))
    {
      StatesSize(ts, logs, states);
      AppliedStates(img, at, ts, logs, states, step[k]);
      SameHomeTrans(at, Recovered(at, trace[n + k]), Applied(img, ts[..step[k]]), DiskOf(states[step[k]], |img|));
    }
  }

  lemma {:induction false} StatesSize(ts: seq<seq<Write>>, logs: seq<seq<int>>, states: seq<Saved>)
    requires CarriesAll(ts, logs, states)
    ensures |states| == |ts| + 1
  {
  }

  /** The commits of any number of chunks on a log, stopped anywhere: what a crash leaves recovers to the disk as one of
      the commits left it, and the number of that commit never falls. */
  method RunCommits(log: Log, ts: seq<seq<Write>>, ghost logs: seq<seq<int>>, ghost states: seq<Saved>)
    returns (r: Outcome<()>, ghost step: seq<nat>)
    requires Ready(log) && CarriesAll(ts, logs, states)
    requires SameHome(log.at, log.cache.disk, DiskOf(states[0], |log.cache.disk|))
    requires forall i {:trigger ts[i]} :: 0 <= i < |ts| ==> AllHome(log.at, ts[i], |log.cache.disk|)
    modifies log, log.cache
    ensures log.Sound() && old(log.cache.trace) <= log.cache.trace
    ensures RecoverStates(log.at, log.cache.trace, |old(log.cache.trace)|, |old(log.cache.disk)|, states, step)
    ensures r.Ok? ==>
      Ready(log) && SameHome(log.at, log.cache.disk, DiskOf(states[|states| - 1], |old(log.cache.disk)|))
  {
    hide Ready, Log.Sound, Log.Valid, SameHome, Whole, Applied, AllHome, CarriesAll, Overlay;
    ghost var disk := log.cache.disk;
    r, step := RunAll(log, ts);
    WholeStates(log.at, log.cache.trace, |old(log.cache.trace)|, disk, ts, logs, states, step);
    if r.Ok? {
      StatesSize(ts, logs, states);
      AppliedStates(disk, log.at, ts, logs, states, |ts|);
      assert ts[..|ts|] == ts;
      SameHomeTrans(log.at, log.cache.disk, Applied(disk, ts), DiskOf(states[|states| - 1], |disk|));
    }
  }

  // ----- filewrite -----

  /** State m has parts[m] bytes of the data stored: a number of whole chunks, or all, which never falls. */
  ghost predicate ChunkStates(ino: seq<BlockMap.Inode>, blk: seq<BlockMap.Block>, states: seq<Saved>, i: nat, off: nat,
                              addr: seq<int>, n: int, parts: seq<nat>) {
    && |parts| == |states|
    && (forall m {:trigger parts[m]} :: 0 <= m < |parts| ==>
          FileSystem.PartSaved(ino, blk, states[m], i, off, addr, n, parts[m]))
    && (forall l, m {:trigger parts[l], parts[m]} :: 0 <= l < m < |parts| ==> parts[l] <= parts[m])
  }

  lemma {:induction false} ChunkStatesFrom(ino: seq<BlockMap.Inode>, blk: seq<BlockMap.Block>, saved: seq<Saved>,
                                           saved': seq<Saved>, i: nat, off: nat, addr: seq<int>, n: int,
                                           parts: seq<nat>)
    requires saved != [] && FileSystem.ChunksSaved(ino, blk, saved, saved', i, off, addr, n, parts)
    requires FileSystem.PartSaved(ino, blk, saved[|saved| - 1], i, off, addr, n, 0)
    ensures ChunkStates(ino, blk, saved'[|saved| - 1..], i, off, addr, n, [0] + parts)
  {
    hide FileSystem.PartSaved;
    var states, all := saved'[|saved| - 1..], [0] + parts;
    forall m {:trigger all[m]} | 0 <= m < |all|
      ensures FileSystem.PartSaved(ino, blk, states[m], i, off, addr, n, all[m])
    {
      if m == 0 {
        assert states[0] == saved[|saved| - 1];
      } else {
        assert all[m] == parts[m - 1] && states[m] == saved'[|saved| + (m - 1)];
      }
    }
  }

  lemma {:induction false} NothingYet(fs: FileSystem.FileSys, i: nat, off: nat, addr: seq<int>, n: int)
    requires fs.Valid() && fs.Clean() && fs.dinode == fs.inode && i < |fs.inode| && 0 <= n <= |addr|
    requires off <= fs.inode[i].size
    ensures FileSystem.PartSaved(fs.inode, fs.block, fs.saved[|fs.saved| - 1], i, off, addr, n, 0)
  {
    hide FileSystem.Stored;
    FileSystem.StoredNothing(fs.inode, fs.block, i, off, addr);
  }

  lemma {:induction false} CommitsFrom(saved: seq<Saved>, saved': seq<Saved>, logs: seq<seq<int>>, c: nat)
    requires FileSystem.Committed(saved, saved', logs) && c < |logs|
    ensures |saved'[|saved| - 1..]| == |logs| + 1
    ensures FileSystem.Commits(saved'[|saved| - 1..][c], saved'[|saved| - 1..][c + 1], logs[c])
  {
    assert FileSystem.Commits(saved'[|saved| + c - 1], saved'[|saved| + c], logs[c]);
  }

  /** filewrite, seen from the disk: the states of its commits, with the chunks stored in each, and what each logged. */
  method WriteInChunks(fs: FileSystem.FileSys, i: nat, off: nat, addr: seq<int>, n: int)
    returns (r: FileSystem.Result<int>, off': nat, ghost states: seq<Saved>, ghost logs: seq<seq<int>>,
             ghost parts: seq<nat>)
    requires fs.Valid() && fs.Clean() && fs.dinode == fs.inode && i < |fs.inode| && 0 <= n <= |addr| && n < 0x8000_0000
    requires fs.inode[i].kind != FileSystem.T_DEV && FileSystem.NoHoles(fs.inode[i]) && fs.lh == []
    requires off <= fs.inode[i].size && off < 0x1_0000_0000
    modifies fs
    ensures |states| == |logs| + 1 && states[0] == old(FileSystem.Saved(fs.dinode, fs.block, fs.bitmap))
    ensures forall c {:trigger logs[c]} :: 0 <= c < |logs| ==> FileSystem.Commits(states[c], states[c + 1], logs[c])
    ensures ChunkStates(old(fs.inode), old(fs.block), states, i, off, addr, n, parts)
    ensures r.Ok? ==> r.value == if n == 0 || off + n <= BlockMap.MAXSIZE then n else -1
    ensures r.Ok? ==> states[|states| - 1] == FileSystem.Saved(fs.dinode, fs.block, fs.bitmap)
    ensures r == FileSystem.Result.Ok(n) ==>
      FileSystem.Stored(old(fs.inode), old(fs.block), fs.inode, fs.block, i, off, addr[..n])
  {
    hide FileSystem.FileSys.Valid, FileSystem.NoHoles, FileSystem.Stored, FileSystem.ChunksSaved, FileSystem.PartSaved,
         FileSystem.Commits, ChunkStates;
    ghost var saved := fs.saved;
    NothingYet(fs, i, off, addr, n);
    r, off', parts, logs := fs.FileWrite(i, off, addr, n);
    ChunkStatesFrom(old(fs.inode), old(fs.block), saved, fs.saved, i, off, addr, n, parts);
    states := fs.saved[|saved| - 1..];
    parts := [0] + parts;
    forall c {:trigger logs[c]} | 0 <= c < |logs| ensures FileSystem.Commits(states[c], states[c + 1], logs[c]) {
      CommitsFrom(saved, fs.saved, logs, c);
    }
  }

  /** Across a crash at any point of such a write: image k of the log's run recovers to a disk on which the file has a
      number of whole chunks of the data stored, or all of it, and every other file is as it was; and what a later image
      recovers to has no fewer chunks. */
  lemma {:induction false} CrashLeavesChunks(ino: seq<BlockMap.Inode>, blk: seq<BlockMap.Block>, states: seq<Saved>,
                                             i: nat, off: nat, addr: seq<int>, n: int, parts: seq<nat>, at: Layout,
                                             trace: seq<Image>, from: nat, size: nat, step: seq<nat>, k: nat)
    requires ChunkStates(ino, blk, states, i, off, addr, n, parts)
    requires RecoverStates(at, trace, from, size, states, step) && k < |step|
    ensures step[k] < |states| == |parts| && Recovers(at, trace[from + k], DiskOf(states[step[k]], size))
    ensures FileSystem.PartSaved(ino, blk, states[step[k]], i, off, addr, n, parts[step[k]])
    ensures forall l :: k <= l < |step| ==> step[l] < |parts| && parts[step[k]] <= parts[step[l]]
  {
    hide Recovers, DiskOf, FileSystem.PartSaved;
    assert step[k] < |states|;
    assert parts[step[k]] == parts[step[k]];
  }
}
