/** The physical redo log of log.c: crash atomicity, write-ahead, and recovery. */
module RedoLog {
  import opened Outcomes
  import opened BufferCache

  const LOGSIZE := 10

  /** The most sectors that one chunk of filewrite logs. */
  const CHUNK_SECTORS := 7

  /** The log occupies sectors start .. start + size - 1; sector start is the header block. */
  datatype Layout = Layout(start: nat, size: nat)

  predicate InLog(at: Layout, s: int) {
    at.start <= s < at.start + at.size
  }

  predicate IsHome(at: Layout, s: int, disksize: nat) {
    0 <= s < disksize && !InLog(at, s)
  }

  /** An in-memory log header whose entries fit the log and name home sectors. */
  ghost predicate Fits(at: Layout, lh: seq<int>, disksize: nat) {
    && |lh| <= LOGSIZE && |lh| <= at.size - 1
    && forall i :: 0 <= i < |lh| ==> IsHome(at, lh[i], disksize)
  }

  /** The log's sectors exist and its header is a whole block. */
  ghost predicate HasLog(at: Layout, img: Image) {
    0 < at.size && at.start + at.size <= |img| && |img[at.start].word| == WORDS
  }

  ghost function Count(at: Layout, img: Image): int
    requires HasLog(at, img)
  {
    img[at.start].word[0]
  }

  ghost function Sectors(at: Layout, img: Image): seq<int>
    requires HasLog(at, img) && 0 <= Count(at, img) <= LOGSIZE
  {
    img[at.start].word[1..1 + Count(at, img)]
  }

  /** An image read_head can trust. */
  ghost predicate WellFormed(at: Layout, img: Image) {
    && HasLog(at, img)
    && 0 <= Count(at, img) <= LOGSIZE
    && Fits(at, Sectors(at, img), |img|)
  }

  ghost predicate SameHome(at: Layout, a: Image, b: Image) {
    |a| == |b| && forall s {:trigger a[s]} {:trigger b[s]} :: IsHome(at, s, |a|) ==> a[s] == b[s]
  }

  /** Nothing about the log is only in memory. */
  ghost predicate LogAgrees(at: Layout, disk: Image, view: Image) {
    && |view| == |disk|
    && forall s {:trigger view[s]} {:trigger disk[s]} :: InLog(at, s) && 0 <= s < |disk| ==> view[s] == disk[s]
  }

  ghost predicate NoDuplicates(lh: seq<int>) {
    forall i, j :: 0 <= i < j < |lh| ==> lh[i] != lh[j]
  }

  /** The log slot for sector s: its own if it is already listed (absorption), else a new one. */
  function Slot(lh: seq<int>, s: int): (i: nat)
    ensures i <= |lh|
    ensures i < |lh| ==> lh[i] == s
    ensures forall j :: 0 <= j < i ==> lh[j] != s
  {
    if lh == [] || lh[0] == s then 0 else 1 + Slot(lh[1..], s)
  }

  function Absorbed(lh: seq<int>, s: int): seq<int> {
    if Slot(lh, s) < |lh| then lh else lh + [s]
  }

  lemma {:induction false} SlotIs(lh: seq<int>, s: int, i: nat)
    requires i <= |lh| && (i < |lh| ==> lh[i] == s) && forall j :: 0 <= j < i ==> lh[j] != s
    ensures Slot(lh, s) == i
  {
  }

  /** What sector s will hold once the log lh is installed. */
  ghost function Latest(at: Layout, lh: seq<int>, disk: Image, s: nat): Block
    requires at.start + at.size <= |disk| && |lh| < at.size && s < |disk|
  {
    if Slot(lh, s) < |lh| then disk[at.start + 1 + Slot(lh, s)] else disk[s]
  }

  /** Every home sector outside `open` has been logged, or not modified, since it was last viewed. */
  ghost predicate Settled(at: Layout, lh: seq<int>, disk: Image, view: Image, open: set<int>)
    requires |disk| == |view| && at.start + at.size <= |disk| && |lh| < at.size
  {
    forall s {:trigger view[s]} :: IsHome(at, s, |disk|) && s !in open ==> view[s] == Latest(at, lh, disk, s)
  }

  /** log_write settles its sector and unsettles no other. */
  lemma {:induction false} LogWriteSettles(at: Layout, lh: seq<int>, disk: Image, view: Image, open: set<int>, s: int)
    requires |disk| == |view| && at.start + at.size <= |disk| && IsHome(at, s, |disk|) && |lh| < at.size - 1
    requires Settled(at, lh, disk, view, open)
    ensures
      var k := at.start + 1 + Slot(lh, s);
      Settled(at, Absorbed(lh, s), disk[k := view[s]], view[k := view[s]], open - {s})
  {
    hide Slot;
    var k, lh' := at.start + 1 + Slot(lh, s), Absorbed(lh, s);
    assert InLog(at, k);
    forall t: nat | IsHome(at, t, |disk|)
      ensures Slot(lh', t) < |lh'| <==> t == s || Slot(lh, t) < |lh|
      ensures Slot(lh', t) < |lh'| ==> Slot(lh', t) == Slot(lh, t)
    {
      SlotIs(lh', t, if t != s && Slot(lh, t) == |lh| then |lh'| else Slot(lh, t));
    }
  }

  /** Replaying a settled log puts the view on the disk, and leaves the view alone. */
  lemma {:induction false} SettledInstall(at: Layout, lh: seq<int>, disk: Image, view: Image)
    requires |disk| == |view| && at.start + at.size <= |disk| && Fits(at, lh, |disk|) && NoDuplicates(lh)
    requires Settled(at, lh, disk, view, {}) && LogAgrees(at, disk, view)
    ensures SameHome(at, Installed(at, disk, lh, |lh|), view)
    ensures SameHome(at, Installed(at, view, lh, |lh|), view)
  {
    hide Installed, Settled, LogAgrees, Slot;
    forall s: nat | IsHome(at, s, |disk|)
      ensures Installed(at, disk, lh, |lh|)[s] == view[s] == Installed(at, view, lh, |lh|)[s]
    {
      SettledInstallAt(at, lh, disk, view, s);
    }
  }

  lemma {:induction false} SettledInstallAt(at: Layout, lh: seq<int>, disk: Image, view: Image, s: nat)
    requires |disk| == |view| && at.start + at.size <= |disk| && Fits(at, lh, |disk|) && NoDuplicates(lh)
    requires Settled(at, lh, disk, view, {}) && LogAgrees(at, disk, view) && IsHome(at, s, |disk|)
    ensures Installed(at, disk, lh, |lh|)[s] == view[s] == Installed(at, view, lh, |lh|)[s]
  {
    hide Installed, Slot;
    var i := Slot(lh, s);
    if i < |lh| {
      assert InLog(at, at.start + 1 + i);
      InstalledListed(at, disk, lh, |lh|, i);
      InstalledListed(at, view, lh, |lh|, i);
    } else {
      InstalledElsewhere(at, disk, lh, |lh|, s);
      InstalledElsewhere(at, view, lh, |lh|, s);
    }
  }

  /** The image with the first k logged blocks copied, in order, to their home sectors. */
  ghost function Installed(at: Layout, img: Image, lh: seq<int>, k: nat): (r: Image)
    requires at.start + at.size <= |img| && k <= |lh| && Fits(at, lh, |img|)
    ensures |r| == |img|
    ensures forall s {:trigger r[s]} :: InLog(at, s) ==> r[s] == img[s]
    decreases k
  {
    if k == 0 then img
    else
      assert IsHome(at, lh[k - 1], |img|);
      Installed(at, img, lh, k - 1)[lh[k - 1] := img[at.start + k]]
  }

  /** The image once write_head has stored lh in the header block. */
  ghost function Headed(at: Layout, img: Image, lh: seq<int>): (r: Image)
    requires HasLog(at, img) && |lh| <= LOGSIZE
  {
    img[at.start := WithHeader(img[at.start], lh)]
  }

  /** What a completed recovery makes of a crashed disk. */
  ghost function Recovered(at: Layout, img: Image): (r: Image)
    requires WellFormed(at, img)
    ensures |r| == |img|
  {
    Headed(at, Installed(at, img, Sectors(at, img), |Sectors(at, img)|), [])
  }

  /** A disk that a crash inside recover_from_log can leave behind. */
  ghost predicate RecoveryPoint(at: Layout, img: Image, img': Image)
    requires WellFormed(at, img)
  {
    || img' == Recovered(at, img)
    || exists k :: 0 <= k <= |Sectors(at, img)| && img' == Installed(at, img, Sectors(at, img), k)
  }

  lemma {:induction false} InstalledNone(at: Layout, img: Image, lh: seq<int>)
    requires at.start + at.size <= |img| && Fits(at, lh, |img|)
    ensures Installed(at, img, lh, 0) == img && SameHome(at, img, img)
  {
  }

  lemma {:induction false} InstalledStep(at: Layout, img: Image, lh: seq<int>, k: nat)
    requires at.start + at.size <= |img| && k < |lh| && Fits(at, lh, |img|)
    ensures 0 <= lh[k] < |img| && !InLog(at, lh[k])
    ensures Installed(at, img, lh, k + 1) == Installed(at, img, lh, k)[lh[k] := img[at.start + 1 + k]]
  {
    assert IsHome(at, lh[k], |img|);
  }

  /** What replaying means, part one: a sector that is not listed stays as it was. */
  lemma {:induction false} InstalledElsewhere(at: Layout, img: Image, lh: seq<int>, k: nat, s: nat)
    requires at.start + at.size <= |img| && k <= |lh| && Fits(at, lh, |img|) && s < |img|
    requires forall j :: 0 <= j < k ==> lh[j] != s
    ensures Installed(at, img, lh, k)[s] == img[s]
  {
    if k > 0 {
      InstalledElsewhere(at, img, lh, k - 1, s);
    }
  }

  /** Part two: a listed sector gets the block of its last listing. */
  lemma {:induction false} InstalledListed(at: Layout, img: Image, lh: seq<int>, k: nat, i: nat)
    requires at.start + at.size <= |img| && i < k <= |lh| && Fits(at, lh, |img|)
    requires forall j :: i < j < k ==> lh[j] != lh[i]
    ensures 0 <= lh[i] < |img| && Installed(at, img, lh, k)[lh[i]] == img[at.start + 1 + i]
  {
    assert IsHome(at, lh[i], |img|);
    if i < k - 1 {
      InstalledListed(at, img, lh, k - 1, i);
    }
  }

  /** Images that agree on the log and differ only in sectors still to be overwritten become equal. */
  lemma {:induction false} InstallConverges(at: Layout, a: Image, b: Image, lh: seq<int>, k: nat)
    requires |a| == |b| && at.start + at.size <= |a| && k <= |lh| && Fits(at, lh, |a|)
    requires forall s :: InLog(at, s) ==> a[s] == b[s]
    requires forall s :: 0 <= s < |a| && a[s] != b[s] ==> s in lh
    ensures forall s :: 0 <= s < |a| && Installed(at, a, lh, k)[s] != Installed(at, b, lh, k)[s] ==> s in lh[k..]
  {
    hide Installed;
    InstalledNone(at, a, lh);
    InstalledNone(at, b, lh);
    if k > 0 {
      InstallConverges(at, a, b, lh, k - 1);
      InstalledStep(at, a, lh, k - 1);
      InstalledStep(at, b, lh, k - 1);
      assert lh[k - 1..] == [lh[k - 1]] + lh[k..];
      assert InLog(at, at.start + k);
    }
  }

  /** Installing is idempotent: replaying any partly installed image gives the same image. */
  lemma {:induction false} InstallTwice(at: Layout, img: Image, lh: seq<int>, k: nat)
    requires at.start + at.size <= |img| && k <= |lh| && Fits(at, lh, |img|)
    ensures Installed(at, Installed(at, img, lh, k), lh, |lh|) == Installed(at, img, lh, |lh|)
  {
    var img' := Installed(at, img, lh, k);
    forall s: nat | s < |img| && s !in lh ensures img'[s] == img[s] {
      InstalledElsewhere(at, img, lh, k, s);
    }
    InstallConverges(at, img', img, lh, |lh|);
  }

  lemma {:induction false} HeadedFacts(at: Layout, img: Image, lh: seq<int>)
    requires HasLog(at, img) && Fits(at, lh, |img|)
    ensures WellFormed(at, Headed(at, img, lh)) && Sectors(at, Headed(at, img, lh)) == lh
    ensures SameHome(at, Headed(at, img, lh), img)
  {
  }

  /** The n > 0 header write is the commit point: it turns an image that recovers to itself into
      one that recovers to the logged contents laid over it. */
  lemma {:induction false} CommitPoint(at: Layout, img: Image, lh: seq<int>)
    requires HasLog(at, img) && Fits(at, lh, |img|)
    ensures WellFormed(at, Headed(at, img, lh))
    ensures SameHome(at, Recovered(at, Headed(at, img, lh)), Installed(at, img, lh, |lh|))
  {
    hide WellFormed, Installed, Recovered, SameHome, Sectors;
    HeadedFacts(at, img, lh);
    RecoveredHome(at, Headed(at, img, lh));
    InstalledSameHome(at, Headed(at, img, lh), img, lh, |lh|);
    SameHomeTrans(at, Recovered(at, Headed(at, img, lh)), Installed(at, Headed(at, img, lh), lh, |lh|),
                  Installed(at, img, lh, |lh|));
  }

  lemma {:induction false} RecoveredHome(at: Layout, img: Image)
    requires WellFormed(at, img)
    ensures SameHome(at, Recovered(at, img), Installed(at, img, Sectors(at, img), |Sectors(at, img)|))
  {
    HeadedFacts(at, Installed(at, img, Sectors(at, img), |Sectors(at, img)|), []);
  }

  /** Installing depends on the home sectors and the log blocks, not on the header. */
  lemma {:induction false} InstalledSameHome(at: Layout, a: Image, b: Image, lh: seq<int>, k: nat)
    requires |a| == |b| && 0 < at.size && at.start + at.size <= |a| && Fits(at, lh, |a|) && k <= |lh|
    requires SameHome(at, a, b) && forall s :: InLog(at, s) && s != at.start ==> a[s] == b[s]
    ensures SameHome(at, Installed(at, a, lh, k), Installed(at, b, lh, k))
  {
    hide Installed;
    InstalledNone(at, a, lh);
    InstalledNone(at, b, lh);
    if k > 0 {
      InstalledSameHome(at, a, b, lh, k - 1);
      InstalledStep(at, a, lh, k - 1);
      InstalledStep(at, b, lh, k - 1);
      assert InLog(at, at.start + k);
    }
  }

  lemma {:induction false} SameHomeRefl(at: Layout, a: Image)
    ensures SameHome(at, a, a)
  {
  }

  lemma {:induction false} SameHomeTrans(at: Layout, a: Image, b: Image, c: Image)
    requires SameHome(at, a, b) && SameHome(at, b, c)
    ensures SameHome(at, a, c)
  {
  }

  /** One crash anywhere in recovery changes nothing about what recovery will restore. */
  lemma {:induction false} CrashInRecovery(at: Layout, img: Image, img': Image)
    requires WellFormed(at, img) && RecoveryPoint(at, img, img')
    ensures WellFormed(at, img') && SameHome(at, Recovered(at, img'), Recovered(at, img))
  {
    var lh := Sectors(at, img);
    if img' == Recovered(at, img) {
      HeadedFacts(at, Installed(at, img, lh, |lh|), []);
      assert Installed(at, img', [], 0) == img';
    } else {
      var k :| 0 <= k <= |lh| && img' == Installed(at, img, lh, k);
      assert InLog(at, at.start);
      assert Sectors(at, img') == lh;
      InstallTwice(at, img, lh, k);
    }
  }

  /** Any number of crashes, each inside the recovery from the previous one, still ends in the
      home sectors that an undisturbed recovery would have restored. */
  lemma {:induction false} RepeatedCrashes(at: Layout, run: seq<Image>)
    requires run != [] && WellFormed(at, run[0])
    requires forall i :: 0 <= i < |run| - 1 ==> WellFormed(at, run[i]) ==> RecoveryPoint(at, run[i], run[i + 1])
    ensures WellFormed(at, run[|run| - 1])
    ensures SameHome(at, Recovered(at, run[|run| - 1]), Recovered(at, run[0]))
  {
    hide WellFormed, Recovered, RecoveryPoint, SameHome;
    SameHomeRefl(at, Recovered(at, run[0]));
    if |run| > 1 {
      var init := run[..|run| - 1];
      RepeatedCrashes(at, init);
      assert init[|init| - 1] == run[|run| - 2];
      CrashInRecovery(at, run[|run| - 2], run[|run| - 1]);
      SameHomeTrans(at, Recovered(at, run[|run| - 1]), Recovered(at, run[|run| - 2]), Recovered(at, run[0]));
    }
  }

  /** write_head's effect on the header block: entries beyond n keep their old words. */
  ghost function WithHeader(block: Block, lh: seq<int>): (r: Block)
    requires |lh| <= LOGSIZE && |block.word| == WORDS
  {
    Block([|lh|] + lh + block.word[1 + |lh|..])
  }

  /** bases[k] is the disk that a crash at trace[k] is recovered to, home sectors only. It changes
      only at a write that turns an empty on-disk header into one with n > 0. */
  ghost predicate CrashSafe(at: Layout, trace: seq<Image>, bases: seq<Image>) {
    && |trace| == |bases|
    && (forall k :: 0 <= k < |trace| ==>
      WellFormed(at, trace[k]) && SameHome(at, Recovered(at, trace[k]), bases[k]))
    && (forall k {:trigger bases[k]} :: 0 < k < |trace| ==>
      bases[k] == bases[k - 1] || (Count(at, trace[k - 1]) == 0 < Count(at, trace[k])))
  }

  /** The run went on from (trace, bases) to (trace', bases'), and every image it added recovers to base. */
  ghost predicate Continues(trace: seq<Image>, bases: seq<Image>, trace': seq<Image>, bases': seq<Image>, base: Image) {
    && |trace| == |bases| && |trace'| == |bases'| && trace <= trace' && bases <= bases'
    && forall k {:trigger bases'[k]} :: |bases| <= k < |bases'| ==> bases'[k] == base
  }

  lemma {:induction false} ContinuesMore(trace: seq<Image>, bases: seq<Image>, trace': seq<Image>, bases': seq<Image>,
                                         img: Image, base: Image)
    requires Continues(trace, bases, trace', bases', base)
    ensures Continues(trace, bases, trace' + [img], bases' + [base], base)
  {
  }

  lemma {:induction false} ContinuesLast(trace: seq<Image>, bases: seq<Image>, trace': seq<Image>, bases': seq<Image>,
                                         base: Image)
    requires Continues(trace, bases, trace', bases', base) && bases != []
    ensures bases' != [] && |trace'| == |bases'| >= |bases|
    ensures bases'[|bases'| - 1] == if |bases'| == |bases| then bases[|bases| - 1] else base
  {
  }

  lemma {:induction false} ContinuesSelf(trace: seq<Image>, bases: seq<Image>, base: Image)
    requires |trace| == |bases|
    ensures Continues(trace, bases, trace, bases, base)
  {
  }

  lemma {:induction false} ContinuesFrom(trace: seq<Image>, bases: seq<Image>, img: Image, trace': seq<Image>,
                                         bases': seq<Image>, base: Image)
    requires |trace| == |bases| && Continues(trace + [img], bases + [base], trace', bases', base)
    ensures Continues(trace, bases, trace', bases', base) && |trace| < |trace'| && trace'[|trace|] == img
  {
    forall k {:trigger bases'[k]} | |bases| <= k < |bases'| ensures bases'[k] == base {
      assert k == |bases| ==> bases'[k] == (bases + [base])[k];
    }
    assert trace'[|trace|] == (trace + [img])[|trace|];
  }

  lemma {:induction false} CrashSafeStep(at: Layout, trace: seq<Image>, bases: seq<Image>, img: Image, base: Image)
    requires CrashSafe(at, trace, bases) && trace != []
    requires WellFormed(at, img) && SameHome(at, Recovered(at, img), base)
    requires base == bases[|bases| - 1] || (Count(at, trace[|trace| - 1]) == 0 < Count(at, img))
    ensures CrashSafe(at, trace + [img], bases + [base])
  {
  }

  /** The next block that install_trans copies keeps the run crash safe, on the same base. */
  lemma {:induction false} InstallSafe(at: Layout, img: Image, lh: seq<int>, k: nat, trace: seq<Image>,
                                       bases: seq<Image>)
    requires WellFormed(at, img) && Sectors(at, img) == lh && k < |lh|
    requires CrashSafe(at, trace, bases) && trace != []
    requires SameHome(at, Recovered(at, img), bases[|bases| - 1])
    ensures 0 <= lh[k] < |img|
    ensures RecoveryPoint(at, img, Installed(at, img, lh, k + 1))
    ensures CrashSafe(at, trace + [Installed(at, img, lh, k + 1)], bases + [bases[|bases| - 1]])
  {
    assert IsHome(at, lh[k], |img|) && InLog(at, at.start + 1 + k);
    var next := Installed(at, img, lh, k + 1);
    CrashInRecovery(at, img, next);
    CrashSafeStep(at, trace, bases, next, bases[|bases| - 1]);
  }

  class Log {
    const at: Layout
    const cache: Cache
    var busy: bool
    var lh: seq<int>              // log.lh.sector[0 .. log.lh.n]

    ghost var bases: seq<Image>

    /** Between sector writes: nothing of the open transaction is in a home sector, and every
        disk image so far recovers to a committed state. */
    ghost predicate Sound()
      reads this, cache
    {
      && cache.Valid()
      && HasLog(at, cache.disk)
      && Fits(at, lh, |cache.disk|)
      && LogAgrees(at, cache.disk, cache.view)
      && bases != [] && CrashSafe(at, cache.trace, bases)
    }

    ghost predicate Valid()
      reads this, cache
    {
      && Sound()
      && Count(at, cache.disk) == 0
      && SameHome(at, cache.disk, bases[|bases| - 1])
      && NoDuplicates(lh)
    }

    lemma {:induction false} SoundFacts()
      requires Sound()
      ensures WellFormed(at, cache.disk) && |cache.view| == |cache.disk| && at.start + at.size <= |cache.disk|
      ensures cache.trace != [] && cache.trace[|cache.trace| - 1] == cache.disk
      ensures SameHome(at, Recovered(at, cache.disk), bases[|bases| - 1]) && |cache.trace| == |bases|
    {
    }

    /** The log as boot finds it, before initlog has run. */
    constructor (nbuf: nat, image: Image, at: Layout)
      requires WellFormed(at, image)
      ensures this.at == at && cache.disk == cache.view == image && cache.trace == [image]
      ensures Sound() && !busy && lh == [] && bases == [Recovered(at, image)]
      ensures fresh(cache) && |cache.buf| == nbuf && Quiet(cache.buf) && PinnedWithin(cache.buf, [])
    {
      this.at := at;
      cache := new Cache(nbuf, image);
      busy, lh := false, [];
      bases := [Recovered(at, image)];
    }

    /** What the log does with a buffer it has read: new data, bwrite, brelse. */
    method WriteBack(b: nat, data: Block)
      requires cache.Valid() && b < |cache.buf| && cache.buf[b].busy && cache.buf[b].valid
      requires 0 <= cache.buf[b].sector < |cache.disk| == |cache.view|
      modifies cache
      ensures cache.Valid() && |cache.buf| == |old(cache.buf)|
      ensures cache.buf == old(cache.buf)[b := old(cache.buf)[b].(busy := false, dirty := false, data := data)]
      ensures cache.disk == old(cache.disk)[old(cache.buf)[b].sector := data]
      ensures cache.trace == old(cache.trace) + [cache.disk]
      ensures cache.view == old(cache.view)[old(cache.buf)[b].sector := data]
    {
      hide Cache.Valid;
      cache.Modify(b, data);
      var _ := cache.BWrite(b);
      var _ := cache.BRelse(b);
    }

    /** The header of write_head, over the words of the header block. */
    method Header(words: seq<int>) returns (hb: seq<int>)
      requires |words| == WORDS && |lh| <= LOGSIZE
      ensures hb == [|lh|] + lh + words[1 + |lh|..]
    {
      hb := words[0 := |lh|];
      var i := 0;
      while i < |lh|
        invariant 0 <= i <= |lh| && |hb| == WORDS
        invariant hb == [|lh|] + lh[..i] + words[1 + i..]
      {
        hb := hb[1 + i := lh[i]];
        i := i + 1;
      }
      assert lh[..|lh|] == lh;
    }

    /** write_head. */
    method WriteHead() returns (r: Outcome<()>)
      requires cache.Valid() && HasLog(at, cache.disk) && LogAgrees(at, cache.disk, cache.view) && |lh| <= LOGSIZE
      modifies cache
      ensures cache.Valid()
      ensures !r.Ok? ==>
        cache.disk == old(cache.disk) && cache.trace == old(cache.trace) && cache.view == old(cache.view)
      ensures r.Ok? ==>
        && cache.disk == Headed(at, old(cache.disk), lh)
        && cache.trace == old(cache.trace) + [cache.disk]
        && SameHome(at, cache.view, old(cache.view))
        && HasLog(at, cache.disk) && LogAgrees(at, cache.disk, cache.view)
      ensures old(Roomy(cache.buf)) ==> r.Ok? && Roomy(cache.buf)
      ensures r.Ok? ==> Calmer(old(cache.buf), cache.buf)
    {
      hide Cache.Valid, Roomy, Gettable;
      assert InLog(at, at.start);
      if old(Roomy(cache.buf)) {
        RoomForOne(cache.buf, ROOTDEV, at.start);
      }
      var got := cache.BRead(ROOTDEV, at.start);
      if !got.Ok? {
        r := got.PropagateFailure();
        return;
      }
      var b := got.value;
      var hb := Header(cache.buf[b].data.word);
      WriteBack(b, Block(hb));
      r := Ok(());
      assert Calmer(old(cache.buf), cache.buf);
      if old(Roomy(cache.buf)) {
        StaysRoomy(old(cache.buf), cache.buf);
      }
    }

    /** The two reads of install_trans: a log block, and the home sector it belongs to. */
    method ReadPair(log: nat, home: nat) returns (r: Outcome<(nat, nat)>)
      requires cache.Valid() && log < |cache.disk| == |cache.view| && home < |cache.disk| && log != home
      modifies cache
      ensures cache.Valid() && cache.disk == old(cache.disk) && cache.trace == old(cache.trace)
      ensures cache.view == old(cache.view)
      ensures |cache.buf| == |old(cache.buf)|
      ensures old(Roomy(cache.buf)) ==> r.Ok?
      ensures r.Ok? ==>
        var l, d := r.value.0, r.value.1;
        && l < |cache.buf| && d < |cache.buf| && l != d && log < |cache.view| && home < |cache.view|
        && (forall i {:trigger cache.buf[i]} :: 0 <= i < |cache.buf| && i != l && i != d ==>
              cache.buf[i] == old(cache.buf)[i])
        && cache.buf[l] == Buf(true, true, cache.buf[l].dirty, ROOTDEV, log, cache.view[log])
        && (cache.buf[l].dirty ==> old(cache.buf)[l].dirty)
        && cache.buf[d] == Buf(true, true, cache.buf[d].dirty, ROOTDEV, home, cache.view[home])
        && (cache.buf[l].dirty ==> old(cache.buf)[l].Holds(ROOTDEV, log))
      ensures r.Ok? ==> forall i {:trigger cache.buf[i]} :: 0 <= i < |cache.buf| && i != r.value.1 ==>
        !cache.buf[i].Holds(ROOTDEV, home)
    {
      hide Cache.Valid, Roomy, Gettable;
      if old(Roomy(cache.buf)) {
        RoomForOne(cache.buf, ROOTDEV, log);
      }
      var l := cache.BRead(ROOTDEV, log);
      if !l.Ok? {
        r := l.PropagateFailure();
        return;
      }
      if old(Roomy(cache.buf)) {
        RoomForTwo(old(cache.buf), l.value, cache.buf[l.value], ROOTDEV, home);
      }
      var d := cache.BRead(ROOTDEV, home);
      if !d.Ok? {
        r := d.PropagateFailure();
        return;
      }
      cache.OneHolder(d.value);
      r := Ok((l.value, d.value));
    }

    /** The body of a round of install_trans, with both buffers at hand. */
    method CopyHome(l: nat, d: nat)
      requires cache.Valid() && l < |cache.buf| && d < |cache.buf| && l != d && |cache.disk| == |cache.view|
      requires cache.buf[l].busy && cache.buf[l].valid && cache.buf[d].busy && cache.buf[d].valid
      requires cache.buf[l].sector < |cache.disk| && cache.buf[d].sector < |cache.disk|
      requires cache.buf[l].sector != cache.buf[d].sector
      requires cache.buf[l].data == cache.disk[cache.buf[l].sector]
      modifies cache
      ensures cache.Valid() && cache.trace == old(cache.trace) + [cache.disk]
      ensures var data, home := old(cache.buf[l].data), old(cache.buf[d].sector);
        && cache.disk == old(cache.disk)[home := data] && cache.view == old(cache.view)[home := data]
        && cache.buf == old(cache.buf)[d := old(cache.buf[d]).(busy := false, dirty := false, data := data)]
                                      [l := old(cache.buf[l]).(busy := false)]
    {
      hide Cache.Valid;
      cache.Modify(d, cache.buf[l].data);
      var _ := cache.BWrite(d);
      var _ := cache.BRelse(l);
      var _ := cache.BRelse(d);
    }

    /** One round of install_trans: copy log block `tail` to its home sector. */
    method InstallOne(tail: nat) returns (r: Outcome<()>)
      requires cache.Valid() && LogAgrees(at, cache.disk, cache.view) && tail < |lh|
      requires InLog(at, at.start + 1 + tail) && at.start + 1 + tail < |cache.disk|
      requires IsHome(at, lh[tail], |cache.disk|)
      modifies cache
      ensures cache.Valid()
      ensures !r.Ok? ==>
        cache.disk == old(cache.disk) && cache.trace == old(cache.trace) && cache.view == old(cache.view)
      ensures r.Ok? ==> cache.disk == old(cache.disk)[lh[tail] := old(cache.disk)[at.start + 1 + tail]]
      ensures r.Ok? ==> cache.trace == old(cache.trace) + [cache.disk]
      ensures r.Ok? ==>
        |old(cache.view)| == |cache.disk| && cache.view == old(cache.view)[lh[tail] := cache.disk[lh[tail]]]
      ensures old(Roomy(cache.buf)) ==> r.Ok? && Roomy(cache.buf)
      ensures r.Ok? ==> Calmer(old(cache.buf), cache.buf)
      ensures r.Ok? ==> forall i {:trigger cache.buf[i]} ::
        0 <= i < |cache.buf| && cache.buf[i].dirty && cache.buf[i].dev == ROOTDEV ==> cache.buf[i].sector != lh[tail]
    {
      hide Cache.Valid, Roomy, Gettable;
      var pair := ReadPair(at.start + tail + 1, lh[tail]);
      if !pair.Ok? {
        r := pair.PropagateFailure();
        return;
      }
      CopyHome(pair.value.0, pair.value.1);
      r := Ok(());
      assert Calmer(old(cache.buf), cache.buf);
      if old(Roomy(cache.buf)) {
        StaysRoomy(old(cache.buf), cache.buf);
      }
    }

    /** install_trans, once the header on disk is the one in memory. Wherever it stops, every disk
        image it produced recovers to the same home sectors as the one it started from. */
    method InstallTrans() returns (r: Outcome<()>)
      requires Sound() && Sectors(at, cache.disk) == lh
      modifies cache, this`bases
      ensures Sound() && Continues(old(cache.trace), old(bases), cache.trace, bases, old(bases[|bases| - 1]))
      ensures forall k :: |old(cache.trace)| <= k < |cache.trace| ==> RecoveryPoint(at, old(cache.disk), cache.trace[k])
      ensures r.Ok? ==> Calmer(old(cache.buf), cache.buf)
      ensures r.Ok? && old(PinnedWithin(cache.buf, lh)) ==> PinnedWithin(cache.buf, [])
      ensures r.Ok? ==> cache.disk == Installed(at, old(cache.disk), lh, |lh|)
      ensures r.Ok? ==> cache.view == Installed(at, old(cache.view), lh, |lh|)
      ensures old(Roomy(cache.buf)) ==> r.Ok? && Roomy(cache.buf)
    {
      hide Continues, Calmer, PinnedWithin, Roomy, Cache.Valid, CrashSafe, Installed, Recovered, RecoveryPoint,
           SameHome, WellFormed, Sectors, Count;
      SoundFacts();
      ContinuesSelf(cache.trace, bases, bases[|bases| - 1]);
      CalmSelf(cache.buf);
      assert lh[0..] == lh;
      ghost var img, view, base := cache.disk, cache.view, bases[|bases| - 1];
      InstalledNone(at, img, lh);
      InstalledNone(at, view, lh);
      var tail := 0;
      r := Ok(());
      while tail < |lh| && r.Ok?
        invariant 0 <= tail <= |lh| && Sound() && bases[|bases| - 1] == base && |cache.trace| >= |old(cache.trace)| > 0
        invariant Continues(old(cache.trace), old(bases), cache.trace, bases, base)
        invariant r.Ok? ==> Calmer(old(cache.buf), cache.buf)
        invariant r.Ok? && old(PinnedWithin(cache.buf, lh)) ==> PinnedWithin(cache.buf, lh[tail..])
        invariant forall k :: |old(cache.trace)| <= k < |cache.trace| ==> RecoveryPoint(at, img, cache.trace[k])
        invariant |img| == |cache.disk| == |cache.view| && cache.disk == Installed(at, img, lh, tail)
        invariant cache.view == Installed(at, view, lh, tail)
        invariant old(Roomy(cache.buf)) ==> r.Ok? && Roomy(cache.buf)
        decreases |lh| - tail, if r.Ok? then 1 else 0
      {
        InstallSafe(at, img, lh, tail, cache.trace, bases);
        InstalledStep(at, img, lh, tail);
        InstalledStep(at, view, lh, tail);
        ghost var buf, trace := cache.buf, cache.trace;
        r := InstallOne(tail);
        if r.Ok? {
          ContinuesMore(old(cache.trace), old(bases), trace, bases, cache.disk, base);
          CalmerTrans(old(cache.buf), buf, cache.buf);
          if old(PinnedWithin(cache.buf, lh)) {
            assert lh[tail..][1..] == lh[tail + 1..];
            Unpinned(buf, cache.buf, lh[tail..]);
          }
          bases := bases + [base];
          tail := tail + 1;
        }
      }
    }

    /** The tail that commit_trans and recover_from_log share: install, then clear the header. */
    method InstallAndErase() returns (r: Outcome<()>)
      requires Sound() && Sectors(at, cache.disk) == lh
      modifies cache, this`bases, this`lh
      ensures Sound() && Continues(old(cache.trace), old(bases), cache.trace, bases, old(bases[|bases| - 1]))
      ensures forall k :: |old(cache.trace)| <= k < |cache.trace| ==> RecoveryPoint(at, old(cache.disk), cache.trace[k])
      ensures r.Ok? ==> Calmer(old(cache.buf), cache.buf)
      ensures r.Ok? ==> Valid() && lh == [] && cache.disk == Recovered(at, old(cache.disk))
      ensures r.Ok? ==> SameHome(at, cache.view, Installed(at, old(cache.view), old(lh), |old(lh)|))
      ensures old(Roomy(cache.buf)) ==> r.Ok? && Roomy(cache.buf)
      ensures r.Ok? && old(PinnedWithin(cache.buf, lh)) ==> PinnedWithin(cache.buf, [])
    {
      hide Continues, Calmer, PinnedWithin, Roomy, Cache.Valid, CrashSafe, Installed, Recovered, RecoveryPoint,
           SameHome, WellFormed, Sectors, Count, Headed, LogAgrees, HasLog;
      SoundFacts();
      ghost var img, base := cache.disk, bases[|bases| - 1];
      r := InstallTrans();
      if r.Ok? {
        SoundFacts();
        ContinuesLast(old(cache.trace), old(bases), cache.trace, bases, base);
        EraseSafe(at, img, lh, cache.trace, bases);
        lh := [];
        ghost var buf, trace := cache.buf, cache.trace;
        r := WriteHead();
        if r.Ok? {
          ContinuesMore(old(cache.trace), old(bases), trace, bases, cache.disk, base);
          CalmerTrans(old(cache.buf), buf, cache.buf);
          if old(PinnedWithin(cache.buf, lh)) {
            CalmerPins(buf, cache.buf, []);
          }
          bases := bases + [base];
        }
      }
    }

    /** read_head. */
    method ReadHead() returns (r: Outcome<()>)
      requires cache.Valid() && WellFormed(at, cache.disk) && LogAgrees(at, cache.disk, cache.view)
      modifies cache, this`lh
      ensures cache.Valid() && cache.disk == old(cache.disk) && cache.view == old(cache.view)
      ensures cache.trace == old(cache.trace)
      ensures r.Ok? ==> lh == Sectors(at, cache.disk)
      ensures !r.Ok? ==> lh == old(lh)
      ensures old(Roomy(cache.buf)) ==> r.Ok? && Roomy(cache.buf)
      ensures r.Ok? ==> Calmer(old(cache.buf), cache.buf)
    {
      hide Cache.Valid, Roomy, Gettable;
      assert InLog(at, at.start);
      if old(Roomy(cache.buf)) {
        RoomForOne(cache.buf, ROOTDEV, at.start);
      }
      var got := cache.BRead(ROOTDEV, at.start);
      if !got.Ok? {
        r := got.PropagateFailure();
        return;
      }
      var hb := cache.buf[got.value].data.word;
      var n, i := hb[0], 0;
      var sector := [];
      while i < n
        invariant 0 <= i <= n <= LOGSIZE && sector == hb[1..1 + i]
      {
        sector := sector + [hb[1 + i]];
        i := i + 1;
      }
      lh := sector;
      var _ := cache.BRelse(got.value);
      r := Ok(());
      assert Calmer(old(cache.buf), cache.buf);
      if old(Roomy(cache.buf)) {
        StaysRoomy(old(cache.buf), cache.buf);
      }
    }

    /** recover_from_log. Every disk image it produces, complete or not, is one that recovers to the
        same home sectors as the image found at boot. */
    method RecoverFromLog() returns (r: Outcome<()>)
      requires Sound()
      modifies cache, this`bases, this`lh
      ensures Sound() && Continues(old(cache.trace), old(bases), cache.trace, bases, old(bases[|bases| - 1]))
      ensures forall k :: |old(cache.trace)| <= k < |cache.trace| ==> RecoveryPoint(at, old(cache.disk), cache.trace[k])
      ensures r.Ok? ==> Calmer(old(cache.buf), cache.buf)
      ensures r.Ok? ==> Valid() && lh == [] && cache.disk == Recovered(at, old(cache.disk))
      ensures r.Ok? && old(cache.view == cache.disk) ==> SameHome(at, cache.view, cache.disk)
      ensures old(Roomy(cache.buf)) ==> r.Ok? && Roomy(cache.buf)
    {
      hide Continues, Calmer, PinnedWithin, Roomy, Cache.Valid, CrashSafe, Installed, Recovered, RecoveryPoint,
           SameHome, Sectors, Count, Headed, LogAgrees, HasLog;
      SoundFacts();
      ContinuesSelf(cache.trace, bases, bases[|bases| - 1]);
      r := ReadHead();
      if r.Ok? {
        ghost var buf := cache.buf;
        r := InstallAndErase();
        if r.Ok? {
          CalmerTrans(old(cache.buf), buf, cache.buf);
          RecoveredIsInstalled(at, old(cache.disk), cache.view);
        }
      }
    }

    /** begin_trans. */
    method BeginTrans() returns (r: Outcome<()>)
      modifies this`busy
      ensures r == if old(busy) then Sleep else Ok(())
      ensures busy
    {
      if busy {
        return Sleep;
      }
      busy := true;
      return Ok(());
    }

    /** log_write's synchronous write of one log block. */
    method WriteLogBlock(i: nat, data: Block) returns (r: Outcome<()>)
      requires cache.Valid() && at.start + 1 + i < |cache.disk|
      requires cache.view[at.start + 1 + i] == cache.disk[at.start + 1 + i]
      modifies cache
      ensures cache.Valid() && |cache.buf| == |old(cache.buf)|
      ensures r.Ok? ==>
        forall b ::
          0 <= b < |cache.buf| && old(cache.buf)[b].busy && old(cache.buf)[b].sector != at.start + 1 + i ==>
          cache.buf[b] == old(cache.buf)[b]
      ensures !r.Ok? ==>
        cache.disk == old(cache.disk) && cache.trace == old(cache.trace) && cache.view == old(cache.view)
      ensures r.Ok? ==> cache.disk == old(cache.disk)[at.start + 1 + i := data]
      ensures r.Ok? ==> cache.trace == old(cache.trace) + [cache.disk]
      ensures r.Ok? ==> |old(cache.view)| == |cache.disk| && cache.view == old(cache.view)[at.start + 1 + i := data]
      ensures r.Ok? <==> Gettable(old(cache.buf), ROOTDEV, at.start + 1 + i)
      ensures r.Ok? ==> Calmer(old(cache.buf), cache.buf)
    {
      assert |cache.view| == |cache.disk|;
      hide Cache.Valid, Gettable;
      var got := cache.BRead(ROOTDEV, at.start + i + 1);
      if !got.Ok? {
        r := got.PropagateFailure();
        return;
      }
      WriteBack(got.value, data);
      r := Ok(());
    }

    /** log_write: copy the buffer into its log slot and pin it. Only a log block reaches the disk. */
    method LogWrite(b: nat) returns (r: Outcome<()>)
      requires Valid() && b < |cache.buf| && cache.buf[b].busy && cache.buf[b].valid
      requires IsHome(at, cache.buf[b].sector, |cache.disk|) && cache.buf[b].data == cache.view[cache.buf[b].sector]
      modifies cache, this`lh, this`bases
      ensures Valid() && bases == old(bases) + if r.Ok? then [old(bases[|bases| - 1])] else []
      ensures cache.trace == old(cache.trace) + if r.Ok? then [cache.disk] else []
      ensures |old(lh)| >= LOGSIZE || |old(lh)| >= at.size - 1 || !busy ==> r.Panic?
      ensures |old(lh)| < LOGSIZE && |old(lh)| < at.size - 1 && busy ==>
        (r.Ok? <==> Gettable(old(cache.buf), ROOTDEV, at.start + 1 + Slot(old(lh), old(cache.buf)[b].sector)))
      ensures !r.Ok? ==> lh == old(lh) && cache.disk == old(cache.disk) && cache.view == old(cache.view)
      ensures r.Ok? ==>
        var s := old(cache.buf)[b].sector;
        var k := at.start + 1 + Slot(old(lh), s);
        && lh == Absorbed(old(lh), s)
        && b < |cache.buf| && cache.buf[b] == old(cache.buf)[b].(dirty := true)
        && s < |old(cache.view)| && k < |old(cache.view)| == |cache.disk|
        && cache.disk == old(cache.disk)[k := old(cache.view)[s]]
        && cache.view == old(cache.view)[k := old(cache.view)[s]]
      ensures r.Ok? ==>
        && |cache.buf| == |old(cache.buf)|
        && Calmer(old(cache.buf), cache.buf[b := cache.buf[b].(dirty := old(cache.buf)[b].dirty)])
    {
      hide Calmer, Gettable, Cache.Valid, CrashSafe, Installed, Recovered, SameHome, WellFormed, Count, Slot;
      SoundFacts();
      if |lh| >= LOGSIZE || |lh| >= at.size - 1 || !busy {
        r := Panic;
        return;
      }
      var s := cache.buf[b].sector;
      var i := 0;
      while i < |lh| && lh[i] != s
        invariant 0 <= i <= |lh| && forall j :: 0 <= j < i ==> lh[j] != s
      {
        i := i + 1;
      }
      SlotIs(lh, s, i);
      LogBlockSafe(at, lh, cache.disk, cache.view, s, cache.view[s], cache.trace, bases);
      r := WriteLogBlock(i, cache.buf[b].data);
      ghost var buf := cache.buf;
      if r.Ok? {
        bases := bases + [bases[|bases| - 1]];
        if i == |lh| {
          lh := lh + [s];
        }
        cache.MarkDirty(b);
        assert cache.buf[b := cache.buf[b].(dirty := old(cache.buf)[b].dirty)] == buf;
      }
    }

    /** commit_trans. Whether it completes or stops anywhere, each disk image it produced recovers
        to the state before the transaction or to the logged contents laid over it. */
    method CommitTrans() returns (r: Outcome<()>)
      requires Valid()
      modifies cache, this
      ensures Sound()
      ensures Continues(old(cache.trace), old(bases), cache.trace, bases,
                        Installed(at, old(cache.disk), old(lh), |old(lh)|))
      ensures if cache.trace == old(cache.trace) then r.Ok? ==> old(lh) == [] else
        old(lh) != [] && cache.trace[|old(cache.trace)|] == Headed(at, old(cache.disk), old(lh))
      ensures r.Ok? ==> Valid() && lh == [] && !busy
      ensures r.Ok? ==> SameHome(at, cache.disk, Installed(at, old(cache.disk), old(lh), |old(lh)|))
      ensures r.Ok? && old(Settled(at, lh, cache.disk, cache.view, {})) ==>
        SameHome(at, cache.disk, old(cache.view)) && SameHome(at, cache.view, old(cache.view))
      ensures old(Roomy(cache.buf)) ==> r.Ok? && Roomy(cache.buf)
      ensures r.Ok? ==> Calmer(old(cache.buf), cache.buf)
      ensures r.Ok? && old(PinnedWithin(cache.buf, lh)) ==> PinnedWithin(cache.buf, [])
    {
      hide Continues, Calmer, PinnedWithin, Roomy, Cache.Valid, CrashSafe, Installed, Recovered, RecoveryPoint,
           SameHome, WellFormed, Sectors, Count, Headed, LogAgrees, HasLog, Settled;
      SoundFacts();
      ghost var disk, view := cache.disk, cache.view;
      CalmSelf(cache.buf);
      ContinuesSelf(cache.trace, bases, Installed(at, disk, lh, |lh|));
      r := Ok(());
      if |lh| > 0 {
        HeaderSafe(at, disk, lh, cache.trace, bases);
        r := WriteHead();
        if r.Ok? {
          ghost var view' := cache.view;
          HeadedView(at, disk, lh, view, view');
          bases := bases + [Installed(at, disk, lh, |lh|)];
          ghost var buf := cache.buf;
          if old(PinnedWithin(cache.buf, lh)) {
            CalmerPins(old(cache.buf), buf, lh);
          }
          r := InstallAndErase();
          ContinuesFrom(old(cache.trace), old(bases), Headed(at, disk, old(lh)), cache.trace, bases,
                        Installed(at, disk, old(lh), |old(lh)|));
          if r.Ok? {
            CalmerTrans(old(cache.buf), buf, cache.buf);
            SameHomeTrans(at, cache.view, Installed(at, view', old(lh), |old(lh)|),
                          Installed(at, view, old(lh), |old(lh)|));
          }
        }
      } else {
        InstalledNone(at, disk, lh);
        InstalledNone(at, view, lh);
      }
      if r.Ok? {
        busy := false;
        if old(Settled(at, lh, cache.disk, cache.view, {})) {
          SettledInstall(at, old(lh), disk, view);
          SameHomeTrans(at, cache.disk, Installed(at, disk, old(lh), |old(lh)|), view);
          SameHomeTrans(at, cache.view, Installed(at, view, old(lh), |old(lh)|), view);
        }
      }
    }
  }

  lemma {:induction false} RecoveredIsInstalled(at: Layout, img: Image, view: Image)
    requires WellFormed(at, img)
    ensures SameHome(at, view, Installed(at, img, Sectors(at, img), |Sectors(at, img)|)) ==>
      SameHome(at, view, Recovered(at, img))
  {
    hide Installed;
  }

  /** A write to a log block before the header write leaves the run on its old base. */
  lemma {:induction false} LogBlockSafe(at: Layout, lh: seq<int>, disk: Image, view: Image, s: int, data: Block,
                                        trace: seq<Image>, bases: seq<Image>)
    requires CrashSafe(at, trace, bases) && trace != [] && bases != [] && trace[|trace| - 1] == disk
    requires LogAgrees(at, disk, view)
    requires WellFormed(at, disk) && Count(at, disk) == 0 && SameHome(at, disk, bases[|bases| - 1])
    requires Fits(at, lh, |disk|) && |lh| < LOGSIZE && |lh| < at.size - 1 && IsHome(at, s, |disk|) && NoDuplicates(lh)
    ensures
      var k := at.start + 1 + Slot(lh, s);
      var disk' := disk[k := data];
      && InLog(at, k)
      && WellFormed(at, disk') && Count(at, disk') == 0 && SameHome(at, disk', bases[|bases| - 1])
      && LogAgrees(at, disk', view[k := data])
      && CrashSafe(at, trace + [disk'], bases + [bases[|bases| - 1]])
      && Fits(at, Absorbed(lh, s), |disk|) && NoDuplicates(Absorbed(lh, s))
  {
    hide CrashSafe, Recovered, Installed, Slot, NoDuplicates, Fits;
    var disk' := disk[at.start + 1 + Slot(lh, s) := data];
    AbsorbedFits(at, lh, |disk|, s);
    LogBlockKeepsHome(at, disk, Slot(lh, s), data);
    SameHomeTrans(at, disk', disk, bases[|bases| - 1]);
    SameHomeTrans(at, Recovered(at, disk'), disk', bases[|bases| - 1]);
    CrashSafeStep(at, trace, bases, disk', bases[|bases| - 1]);
  }

  lemma {:induction false} AbsorbedFits(at: Layout, lh: seq<int>, disksize: nat, s: int)
    requires Fits(at, lh, disksize) && |lh| < LOGSIZE && |lh| < at.size - 1 && IsHome(at, s, disksize)
    requires NoDuplicates(lh)
    ensures Fits(at, Absorbed(lh, s), disksize) && NoDuplicates(Absorbed(lh, s))
  {
    hide Slot;
  }

  lemma {:induction false} LogBlockKeepsHome(at: Layout, disk: Image, i: nat, data: Block)
    requires WellFormed(at, disk) && Count(at, disk) == 0 && i < at.size - 1
    ensures var disk' := disk[at.start + 1 + i := data];
      && WellFormed(at, disk') && Count(at, disk') == 0
      && SameHome(at, disk', disk) && SameHome(at, Recovered(at, disk'), disk')
  {
    hide Installed;
    var disk' := disk[at.start + 1 + i := data];
    assert Sectors(at, disk') == [];
    RecoveredHome(at, disk');
    InstalledNone(at, disk', []);
  }

  lemma {:induction false} HeadedView(at: Layout, disk: Image, lh: seq<int>, view: Image, view': Image)
    requires HasLog(at, disk) && Fits(at, lh, |disk|) && LogAgrees(at, disk, view)
    requires LogAgrees(at, Headed(at, disk, lh), view') && SameHome(at, view', view)
    ensures SameHome(at, Installed(at, view', lh, |lh|), Installed(at, view, lh, |lh|))
  {
    InstalledSameHome(at, view', view, lh, |lh|);
  }

  /** Clearing the header after a full install is the last step of a recovery. */
  lemma {:induction false} EraseSafe(at: Layout, img: Image, lh: seq<int>, trace: seq<Image>, bases: seq<Image>)
    requires WellFormed(at, img) && Sectors(at, img) == lh
    requires CrashSafe(at, trace, bases) && trace != []
    requires SameHome(at, Recovered(at, img), bases[|bases| - 1])
    ensures HasLog(at, Installed(at, img, lh, |lh|))
    ensures Headed(at, Installed(at, img, lh, |lh|), []) == Recovered(at, img)
    ensures RecoveryPoint(at, img, Recovered(at, img))
    ensures CrashSafe(at, trace + [Recovered(at, img)], bases + [bases[|bases| - 1]])
    ensures WellFormed(at, Recovered(at, img)) && Count(at, Recovered(at, img)) == 0
  {
    CrashInRecovery(at, img, Recovered(at, img));
    CrashSafeStep(at, trace, bases, Recovered(at, img), bases[|bases| - 1]);
  }

  /** The n > 0 header write moves the run to its new base. */
  lemma {:induction false} HeaderSafe(at: Layout, img: Image, lh: seq<int>, trace: seq<Image>, bases: seq<Image>)
    requires CrashSafe(at, trace, bases) && trace != [] && trace[|trace| - 1] == img
    requires WellFormed(at, img) && Count(at, img) == 0 && Fits(at, lh, |img|) && lh != []
    ensures WellFormed(at, Headed(at, img, lh)) && Sectors(at, Headed(at, img, lh)) == lh
    ensures SameHome(at, Recovered(at, Headed(at, img, lh)), Installed(at, img, lh, |lh|))
    ensures CrashSafe(at, trace + [Headed(at, img, lh)], bases + [Installed(at, img, lh, |lh|)])
  {
    HeadedFacts(at, img, lh);
    CommitPoint(at, img, lh);
    CrashSafeStep(at, trace, bases, Headed(at, img, lh), Installed(at, img, lh, |lh|));
  }
}
