/** Whole transactions on the redo log, and runs of them: begin_trans, writes to buffers each followed by
    log_write, commit_trans. Every disk image written on the way recovers to the state before or after. */
module Transactions {
  import opened Outcomes
  import opened BufferCache
  import opened RedoLog

  /** A new content for a home sector. */
  datatype Write = Write(sector: nat, data: Block)

  /** The image with the writes laid over it, in order. */
  ghost function Overlay(img: Image, ws: seq<Write>): (r: Image)
    ensures |r| == |img|
  {
    if ws == [] then img
    else
      var w, rest := ws[|ws| - 1], Overlay(img, ws[..|ws| - 1]);
      if w.sector < |img| then rest[w.sector := w.data] else rest
  }

  /** What the overlay is: sectors that are not written stay, ... */
  lemma {:induction false} OverlayElsewhere(img: Image, ws: seq<Write>, s: nat)
    requires s < |img| && forall i {:trigger ws[i]} :: 0 <= i < |ws| ==> ws[i].sector != s
    ensures Overlay(img, ws)[s] == img[s]
  {
    if ws != [] {
      OverlayElsewhere(img, ws[..|ws| - 1], s);
    }
  }

  /** ... and the others have the data of the last write to them. */
  lemma {:induction false} OverlayLast(img: Image, ws: seq<Write>, i: nat)
    requires i < |ws| && ws[i].sector < |img|
    requires forall j {:trigger ws[j]} :: i < j < |ws| ==> ws[j].sector != ws[i].sector
    ensures Overlay(img, ws)[ws[i].sector] == ws[i].data
  {
    var n := |ws| - 1;
    if i < n {
      assert ws[..n][i] == ws[i];
      OverlayLast(img, ws[..n], i);
    }
  }

  lemma {:induction false} OverlayMore(img: Image, ws: seq<Write>, i: nat)
    requires i < |ws| && ws[i].sector < |img|
    ensures Overlay(img, ws[..i + 1]) == Overlay(img, ws[..i])[ws[i].sector := ws[i].data]
  {
    assert ws[..i + 1][..i] == ws[..i];
  }

  /** The sectors written, each once: the header that log_write builds. */
  function Listed(ws: seq<Write>): seq<int> {
    if ws == [] then [] else Absorbed(Listed(ws[..|ws| - 1]), ws[|ws| - 1].sector)
  }

  lemma {:induction false} ListedMore(ws: seq<Write>, i: nat)
    requires i < |ws|
    ensures Listed(ws[..i + 1]) == Absorbed(Listed(ws[..i]), ws[i].sector)
  {
    assert ws[..i + 1][..i] == ws[..i];
  }

  lemma {:induction false} ListedGrows(ws: seq<Write>, i: nat)
    requires i <= |ws|
    ensures |Listed(ws[..i])| <= |Listed(ws)|
    decreases |ws| - i
  {
    if i < |ws| {
      ListedMore(ws, i);
      ListedGrows(ws, i + 1);
    } else {
      assert ws[..i] == ws;
    }
  }

  /** Nobody holds a buffer, and only buffers of the sectors in lh are pinned. */
  ghost predicate Idle(buf: seq<Buf>, lh: seq<int>) {
    Quiet(buf) && PinnedWithin(buf, lh)
  }

  /** A log header of n entries fits the log with one to spare, and leaves two buffers unpinned. */
  predicate Affordable(at: Layout, n: nat, nbuf: nat) {
    n < LOGSIZE && n < at.size - 1 && n + 2 <= nbuf
  }

  // ----- one write -----

  lemma {:induction false} Opened(at: Layout, lh: seq<int>, disk: Image, view: Image, s: nat, data: Block)
    requires |disk| == |view| && at.start + at.size <= |disk| && |lh| < at.size && s < |disk|
    requires Settled(at, lh, disk, view, {})
    ensures Settled(at, lh, disk, view[s := data], {s})
  {
  }

  lemma {:induction false} Closed(at: Layout, lh: seq<int>, disk: Image, view: Image, s: nat)
    requires |disk| == |view| && at.start + at.size <= |disk| && IsHome(at, s, |disk|) && |lh| < at.size - 1
    requires Settled(at, lh, disk, view, {s})
    ensures var k := at.start + 1 + Slot(lh, s);
      && Settled(at, Absorbed(lh, s), disk[k := view[s]], view[k := view[s]], {})
      && SameHome(at, view[k := view[s]], view)
  {
    hide Settled, Slot;
    LogWriteSettles(at, lh, disk, view, {s}, s);
    assert {s} - {s} == {};
    assert InLog(at, at.start + 1 + Slot(lh, s));
  }

  /** Buffers around one write: the sector's buffer b ends pinned and free, the others no worse. */
  lemma {:induction false} IdleAgain(buf: seq<Buf>, buf1: seq<Buf>, buf2: seq<Buf>, lh: seq<int>, b: nat, s: nat)
    requires Idle(buf, lh) && b < |buf| == |buf1| == |buf2|
    requires forall i {:trigger buf1[i]} :: 0 <= i < |buf| && i != b ==> buf1[i] == buf[i]
    requires Calmer(buf1, buf2[b := buf2[b].(dirty := buf1[b].dirty)]) && buf2[b].Holds(ROOTDEV, s)
    ensures Idle(buf2[b := buf2[b].(busy := false)], Absorbed(lh, s))
  {
    var c, d, lh' := buf2[b := buf2[b].(dirty := buf1[b].dirty)], buf2[b := buf2[b].(busy := false)], Absorbed(lh, s);
    AbsorbedHas(lh, s);
    forall i {:trigger d[i]} | 0 <= i < |d|
      ensures !d[i].busy && (d[i].dirty ==> d[i].dev == ROOTDEV && d[i].sector in lh')
    {
      if i != b {
        assert c[i] == d[i] && buf1[i] == buf[i];
      }
    }
  }

  lemma {:induction false} AbsorbedHas(lh: seq<int>, s: int)
    ensures s in Absorbed(lh, s) && forall x :: x in lh ==> x in Absorbed(lh, s)
  {
    var lh' := Absorbed(lh, s);
    if Slot(lh, s) < |lh| {
      assert lh'[Slot(lh, s)] == s;
    } else {
      assert lh'[|lh|] == s;
      forall x | x in lh ensures x in lh' {
        var j :| 0 <= j < |lh| && lh[j] == x;
        assert lh'[j] == x;
      }
    }
  }

  /** bread, and a change of the whole block. */
  method Fetch(log: Log, w: Write) returns (r: Outcome<nat>)
    requires log.Valid() && IsHome(log.at, w.sector, |log.cache.disk|)
    requires Settled(log.at, log.lh, log.cache.disk, log.cache.view, {})
    modifies log.cache
    ensures log.Valid() && log.cache.disk == old(log.cache.disk) && log.cache.trace == old(log.cache.trace)
    ensures r.Ok? <==> Gettable(old(log.cache.buf), ROOTDEV, w.sector)
    ensures r.Ok? ==> w.sector < |old(log.cache.view)| && log.cache.view == old(log.cache.view)[w.sector := w.data]
    ensures r.Ok? ==> Settled(log.at, log.lh, log.cache.disk, log.cache.view, {w.sector})
    ensures r.Ok? ==>
      var b := r.value;
      && b < |log.cache.buf| == |old(log.cache.buf)| && log.cache.buf == old(log.cache.buf)[b := log.cache.buf[b]]
      && log.cache.buf[b] == Buf(true, true, log.cache.buf[b].dirty, ROOTDEV, w.sector, w.data)
  {
    hide Cache.Valid, CrashSafe, Count, Settled, SameHome, Gettable, WellFormed, LogAgrees, NoDuplicates;
    log.SoundFacts();
    r := log.cache.BRead(ROOTDEV, w.sector);
    if r.Ok? {
      StillAgrees(log.at, log.cache.disk, log.cache.view, w.sector, w.data);
      Opened(log.at, log.lh, log.cache.disk, log.cache.view, w.sector, w.data);
      log.cache.Modify(r.value, w.data);
    }
  }

  /** bread, a change of the whole block, log_write, brelse: the buffer and the log get the data, and what a
      crash recovers to stays as it was. */
  method Put(log: Log, w: Write) returns (r: Outcome<()>)
    requires log.Valid() && IsHome(log.at, w.sector, |log.cache.disk|)
    requires Settled(log.at, log.lh, log.cache.disk, log.cache.view, {})
    modifies log`lh, log`bases, log.cache
    ensures log.Valid()
    ensures !r.Ok? ==> log.cache.trace == old(log.cache.trace) && log.bases == old(log.bases)
    ensures r.Ok? ==> log.cache.trace == old(log.cache.trace) + [log.cache.disk]
    ensures r.Ok? ==> log.bases == old(log.bases) + [old(log.bases[|log.bases| - 1])]
    ensures |log.cache.disk| == |old(log.cache.disk)|
    ensures r.Ok? ==> log.lh == Absorbed(old(log.lh), w.sector)
    ensures r.Ok? ==> Settled(log.at, log.lh, log.cache.disk, log.cache.view, {})
    ensures r.Ok? ==>
      && w.sector < |old(log.cache.view)|
      && SameHome(log.at, log.cache.view, old(log.cache.view)[w.sector := w.data])
    ensures r.Ok? && old(Idle(log.cache.buf, log.lh)) ==>
      Idle(log.cache.buf, log.lh) && |log.cache.buf| == |old(log.cache.buf)|
    ensures old(Idle(log.cache.buf, log.lh)) && log.busy && Affordable(log.at, |old(log.lh)|, |old(log.cache.buf)|) ==>
      r.Ok?
  {
    hide Cache.Valid, CrashSafe, Count, Settled, SameHome, Slot, Calmer, Idle, Gettable, WellFormed, LogAgrees,
         NoDuplicates, HasLog;
    log.SoundFacts();
    ghost var lh, view, buf := log.lh, log.cache.view, log.cache.buf;
    ghost var room := Idle(buf, lh) && log.busy && Affordable(log.at, |lh|, |buf|);
    if room {
      HasRoom(log, w.sector);
    }
    var got := Fetch(log, w);
    if !got.Ok? {
      r := got.PropagateFailure();
      return;
    }
    var b := got.value;
    ghost var buf1, disk1, view1 := log.cache.buf, log.cache.disk, log.cache.view;
    if room {
      SlotInLog(log.at, lh, w.sector, |disk1|);
      RoomForTwo(buf, b, buf1[b], ROOTDEV, log.at.start + 1 + Slot(lh, w.sector));
    }
    r := log.LogWrite(b);
    if !r.Ok? {
      return;
    }
    Closed(log.at, lh, disk1, view1, w.sector);
    ghost var buf2 := log.cache.buf;
    var _ := log.cache.BRelse(b);
    if Idle(buf, lh) {
      IdleAgain(buf, buf1, buf2, lh, b, w.sector);
    }
  }

  lemma {:induction false} SlotInLog(at: Layout, lh: seq<int>, s: nat, n: nat)
    requires |lh| < at.size - 1 && IsHome(at, s, n)
    ensures at.start + 1 + Slot(lh, s) != s
  {
  }

  lemma {:induction false} StillAgrees(at: Layout, disk: Image, view: Image, s: nat, data: Block)
    requires LogAgrees(at, disk, view) && IsHome(at, s, |disk|)
    ensures LogAgrees(at, disk, view[s := data])
  {
  }

  lemma {:induction false} HasRoom(log: Log, s: nat)
    requires log.cache.Valid() && Idle(log.cache.buf, log.lh) && |log.lh| + 2 <= |log.cache.buf|
    ensures Roomy(log.cache.buf) && Gettable(log.cache.buf, ROOTDEV, s)
  {
    EnoughRoom(log.cache.buf, log.lh);
    RoomForOne(log.cache.buf, ROOTDEV, s);
  }

  // ----- one transaction -----

  /** A crash that leaves img recovers to the home sectors of `to`. */
  ghost predicate Recovers(at: Layout, img: Image, to: Image) {
    WellFormed(at, img) && SameHome(at, Recovered(at, img), to)
  }

  /** Of the images from number n on, those before number c recover to `before` and the others to `after`. */
  ghost predicate SwitchAt(at: Layout, trace: seq<Image>, n: int, c: int, before: Image, after: Image) {
    && 0 <= n <= c <= |trace|
    && (forall k {:trigger trace[k]} :: n <= k < c ==> Recovers(at, trace[k], before))
    && (forall k {:trigger trace[k]} :: c <= k < |trace| ==> Recovers(at, trace[k], after))
  }

  /** From the bases of the log to what its images recover to. */
  lemma {:induction false} SwitchFromBases(at: Layout, trace0: seq<Image>, bases0: seq<Image>, trace1: seq<Image>,
                                           bases1: seq<Image>, trace: seq<Image>, bases: seq<Image>, base: Image,
                                           base': Image, before: Image, after: Image)
    requires Continues(trace0, bases0, trace1, bases1, base) && Continues(trace1, bases1, trace, bases, base')
    requires CrashSafe(at, trace, bases) && SameHome(at, base, before)
    requires |trace1| < |trace| ==> SameHome(at, base', after)
    ensures trace0 <= trace1 <= trace && bases0 <= bases && SwitchAt(at, trace, |trace0|, |trace1|, before, after)
  {
    hide WellFormed, Recovered, SameHome;
    forall k {:trigger trace[k]} | |trace0| <= k < |trace1| ensures Recovers(at, trace[k], before) {
      assert bases[k] == bases1[k] == base;
      SameHomeTrans(at, Recovered(at, trace[k]), base, before);
    }
    forall k {:trigger trace[k]} | |trace1| <= k < |trace| ensures Recovers(at, trace[k], after) {
      assert bases[k] == base';
      SameHomeTrans(at, Recovered(at, trace[k]), base', after);
    }
  }

  lemma {:induction false} SettledShows(at: Layout, disk: Image, view: Image)
    requires |disk| == |view| && at.start + at.size <= |disk| && 0 < at.size
    ensures Settled(at, [], disk, view, {}) <==> SameHome(at, view, disk)
  {
    forall s: nat | s < |disk| ensures Latest(at, [], disk, s) == disk[s] {
    }
  }

  lemma {:induction false} HomeUpdate(at: Layout, a: Image, b: Image, a': Image, s: nat, data: Block)
    requires SameHome(at, a, b) && s < |a| && SameHome(at, a', a[s := data])
    ensures s < |b| && SameHome(at, a', b[s := data])
  {
  }

  /** Every write is to a home sector of a disk with n sectors. */
  ghost predicate AllHome(at: Layout, ws: seq<Write>, n: nat) {
    forall i {:trigger ws[i]} :: 0 <= i < |ws| ==> IsHome(at, ws[i].sector, n)
  }

  /** Write-ahead: images number n to c - 1 have the home sectors of disk, and a header that lists nothing. */
  ghost predicate Untouched(at: Layout, trace: seq<Image>, n: int, c: int, disk: Image) {
    && 0 <= n <= c <= |trace|
    && forall k {:trigger trace[k]} :: n <= k < c ==>
         HasLog(at, trace[k]) && Count(at, trace[k]) == 0 && SameHome(at, trace[k], disk)
  }

  lemma {:induction false} UntouchedStart(at: Layout, trace: seq<Image>, disk: Image)
    ensures Untouched(at, trace, |trace|, |trace|, disk)
  {
  }

  lemma {:induction false} UntouchedMore(log: Log, trace: seq<Image>, n: nat, disk: Image)
    requires log.Valid() && Untouched(log.at, trace, n, |trace|, disk) && log.cache.trace == trace + [log.cache.disk]
    requires SameHome(log.at, log.bases[|log.bases| - 1], disk)
    ensures Untouched(log.at, log.cache.trace, n, |log.cache.trace|, disk)
  {
    hide CrashSafe, Cache.Valid, LogAgrees, Count, SameHome, HasLog, Fits;
    SameHomeTrans(log.at, log.cache.disk, log.bases[|log.bases| - 1], disk);
  }

  lemma {:induction false} UntouchedPrefix(at: Layout, trace: seq<Image>, trace': seq<Image>, n: nat, disk: Image)
    requires Untouched(at, trace, n, |trace|, disk) && trace <= trace'
    ensures Untouched(at, trace', n, |trace|, disk)
  {
    hide Count, SameHome, HasLog;
    forall k {:trigger trace'[k]} | n <= k < |trace|
      ensures HasLog(at, trace'[k]) && Count(at, trace'[k]) == 0 && SameHome(at, trace'[k], disk)
    {
      assert trace'[k] == trace[k];
    }
  }

  /** The writes of a transaction: until the commit, no image recovers to anything but the state before. */
  method PutAll(log: Log, ws: seq<Write>) returns (r: Outcome<()>)
    requires log.Valid() && log.lh == [] && log.busy && AllHome(log.at, ws, |log.cache.disk|)
    requires Settled(log.at, [], log.cache.disk, log.cache.view, {})
    modifies log`lh, log`bases, log.cache
    ensures log.Valid() && |log.cache.disk| == |old(log.cache.disk)|
    ensures Untouched(log.at, log.cache.trace, |old(log.cache.trace)|, |log.cache.trace|, old(log.cache.disk))
    ensures Continues(old(log.cache.trace), old(log.bases), log.cache.trace, log.bases, old(log.bases[|log.bases| - 1]))
    ensures r.Ok? ==> log.lh == Listed(ws) && Settled(log.at, log.lh, log.cache.disk, log.cache.view, {})
    ensures r.Ok? ==> SameHome(log.at, log.cache.view, Overlay(old(log.cache.disk), ws))
    ensures old(Idle(log.cache.buf, [])) && Affordable(log.at, |Listed(ws)|, |old(log.cache.buf)|) ==>
      r.Ok? && Idle(log.cache.buf, log.lh) && |log.cache.buf| == |old(log.cache.buf)|
  {
    hide Cache.Valid, CrashSafe, Count, Settled, SameHome, Idle, WellFormed, LogAgrees, NoDuplicates, HasLog, Overlay,
         Listed, Continues, Absorbed, Untouched;
    log.SoundFacts();
    ghost var disk, base := log.cache.disk, log.bases[|log.bases| - 1];
    SameHomeSymm(log.at, disk, base);
    UntouchedStart(log.at, log.cache.trace, disk);
    ghost var room := Idle(log.cache.buf, []) && Affordable(log.at, |Listed(ws)|, |log.cache.buf|);
    StartOf(log.at, disk, log.cache.view, ws);
    ContinuesSelf(log.cache.trace, log.bases, base);
    var i := 0;
    r := Ok(());
    while i < |ws|
      invariant 0 <= i <= |ws| && r.Ok? && log.Valid() && |log.cache.disk| == |log.cache.view| == |disk|
      invariant Continues(old(log.cache.trace), old(log.bases), log.cache.trace, log.bases, base)
      invariant log.bases[|log.bases| - 1] == base
      invariant Untouched(log.at, log.cache.trace, |old(log.cache.trace)|, |log.cache.trace|, disk)
      invariant log.lh == Listed(ws[..i]) && Settled(log.at, log.lh, log.cache.disk, log.cache.view, {})
      invariant SameHome(log.at, log.cache.view, Overlay(disk, ws[..i]))
      invariant room ==> Idle(log.cache.buf, log.lh) && |log.cache.buf| == |old(log.cache.buf)|
    {
      ghost var view, trace, bases := log.cache.view, log.cache.trace, log.bases;
      if room {
        ListedGrows(ws, i);
      }
      r := Put(log, ws[i]);
      if !r.Ok? {
        return;
      }
      UntouchedMore(log, trace, |old(log.cache.trace)|, disk);
      ContinuesMore(old(log.cache.trace), old(log.bases), trace, bases, log.cache.disk, base);
      OverlayMore(disk, ws, i);
      ListedMore(ws, i);
      HomeUpdate(log.at, view, Overlay(disk, ws[..i]), log.cache.view, ws[i].sector, ws[i].data);
      log.SoundFacts();
      SameSize(log.at, log.cache.view, Overlay(disk, ws[..i])[ws[i].sector := ws[i].data]);
      i := i + 1;
    }
    assert ws[..i] == ws;
  }

  lemma {:induction false} SameSize(at: Layout, a: Image, b: Image)
    requires SameHome(at, a, b)
    ensures |a| == |b|
  {
  }

  lemma {:induction false} StartOf(at: Layout, disk: Image, view: Image, ws: seq<Write>)
    requires |disk| == |view| && at.start + at.size <= |disk| && 0 < at.size && Settled(at, [], disk, view, {})
    ensures ws[..0] == [] && Listed(ws[..0]) == [] && Overlay(disk, ws[..0]) == disk && SameHome(at, view, disk)
  {
    SettledShows(at, disk, view);
  }

  /** Between transactions: nothing is logged, and the cache shows what is on the disk. */
  ghost predicate Ready(log: Log)
    reads log, log.cache
  {
    log.Valid() && log.lh == [] && !log.busy && SameHome(log.at, log.cache.view, log.cache.disk)
  }

  /** The header of the image lists these sectors. */
  ghost predicate Lists(at: Layout, img: Image, sectors: seq<int>) {
    WellFormed(at, img) && Sectors(at, img) == sectors
  }

  lemma {:induction false} HeaderLists(at: Layout, img: Image, lh: seq<int>, ws: seq<Write>)
    requires HasLog(at, img) && Fits(at, lh, |img|) && lh == Listed(ws) != []
    ensures Lists(at, Headed(at, img, lh), Listed(ws)) && ws != []
  {
    HeadedFacts(at, img, lh);
  }

  /** A transaction, completed or not: each image it writes recovers to the home sectors before it until the header
      write, which is image c, and from there on to them with all its writes laid over. */
  method Transact(log: Log, ws: seq<Write>) returns (r: Outcome<()>, ghost c: nat)
    requires Ready(log) && AllHome(log.at, ws, |log.cache.disk|)
    modifies log, log.cache
    ensures log.Sound() && old(log.cache.trace) <= log.cache.trace
    ensures SwitchAt(log.at, log.cache.trace, |old(log.cache.trace)|, c,
                     old(log.cache.disk), Overlay(old(log.cache.disk), ws))
    ensures Untouched(log.at, log.cache.trace, |old(log.cache.trace)|, c, old(log.cache.disk))
    ensures c < |log.cache.trace| ==> Lists(log.at, log.cache.trace[c], Listed(ws)) && ws != []
    ensures r.Ok? ==> Ready(log) && SameHome(log.at, log.cache.disk, Overlay(old(log.cache.disk), ws))
    ensures old(Idle(log.cache.buf, [])) && Affordable(log.at, |Listed(ws)|, |old(log.cache.buf)|) ==>
      r.Ok? && Idle(log.cache.buf, []) && |log.cache.buf| == |old(log.cache.buf)|
  {
    hide Cache.Valid, CrashSafe, Count, Settled, SameHome, Idle, WellFormed, LogAgrees, NoDuplicates, HasLog, Overlay,
         Listed, Continues, Installed, SwitchAt, Headed, Untouched;
    log.SoundFacts();
    ghost var disk, base, trace0, bases0 := log.cache.disk, log.bases[|log.bases| - 1], log.cache.trace, log.bases;
    ghost var after := Overlay(disk, ws);
    HasSize(log.at, disk);
    SettledShows(log.at, disk, log.cache.view);
    SameHomeSymm(log.at, disk, base);
    r := log.BeginTrans();
    r := PutAll(log, ws);
    c := |log.cache.trace|;
    ghost var trace1, bases1 := log.cache.trace, log.bases;
    log.SoundFacts();
    if !r.Ok? {
      ContinuesSelf(trace1, bases1, base);
      SwitchFromBases(log.at, trace0, bases0, trace1, bases1, trace1, bases1, base, base, disk, after);
      return;
    }
    ghost var disk1, view1, lh1, buf1 := log.cache.disk, log.cache.view, log.lh, log.cache.buf;
    SettledInstall(log.at, lh1, disk1, view1);
    ghost var inst := Installed(log.at, disk1, lh1, |lh1|);
    SameHomeTrans(log.at, inst, view1, after);
    IdleIs(buf1, lh1);
    if Idle(buf1, lh1) && |lh1| + 2 <= |buf1| {
      HasRoom(log, 0);
    }
    r := log.CommitTrans();
    if lh1 != [] {
      HeaderLists(log.at, disk1, lh1, ws);
    }
    SwitchFromBases(log.at, trace0, bases0, trace1, bases1, log.cache.trace, log.bases, base, inst, disk, after);
    UntouchedPrefix(log.at, trace1, log.cache.trace, |trace0|, disk);
    if r.Ok? {
      SameHomeTrans(log.at, log.cache.disk, view1, after);
      SameHomeSymm(log.at, log.cache.disk, view1);
      SameHomeTrans(log.at, log.cache.view, view1, log.cache.disk);
      if Idle(buf1, lh1) {
        IdleAfter(buf1, log.cache.buf, lh1);
      }
    }
  }

  lemma {:induction false} HasSize(at: Layout, img: Image)
    requires HasLog(at, img)
    ensures 0 < at.size && at.start + at.size <= |img|
  {
  }

  lemma {:induction false} SameHomeSymm(at: Layout, a: Image, b: Image)
    requires SameHome(at, a, b)
    ensures SameHome(at, b, a)
  {
  }

  lemma {:induction false} IdleIs(buf: seq<Buf>, lh: seq<int>)
    ensures Idle(buf, lh) ==> PinnedWithin(buf, lh)
  {
  }

  lemma {:induction false} IdleAfter(buf: seq<Buf>, buf': seq<Buf>, lh: seq<int>)
    requires Idle(buf, lh) && Calmer(buf, buf') && PinnedWithin(buf', [])
    ensures Idle(buf', [])
  {
  }

  // ----- runs of transactions -----

  /** The image with whole transactions laid over it, in order. */
  ghost function Applied(img: Image, ts: seq<seq<Write>>): (r: Image)
    ensures |r| == |img|
  {
    if ts == [] then img else Overlay(Applied(img, ts[..|ts| - 1]), ts[|ts| - 1])
  }

  lemma {:induction false} AppliedMore(img: Image, ts: seq<seq<Write>>, i: nat)
    requires i < |ts|
    ensures Applied(img, ts[..i + 1]) == Overlay(Applied(img, ts[..i]), ts[i])
  {
    assert ts[..i + 1][..i] == ts[..i];
  }

  lemma {:induction false} OverlaySameHome(at: Layout, a: Image, b: Image, ws: seq<Write>)
    requires SameHome(at, a, b)
    ensures SameHome(at, Overlay(a, ws), Overlay(b, ws))
  {
    if ws != [] {
      OverlaySameHome(at, a, b, ws[..|ws| - 1]);
    }
  }

  /** Image number n + k of the run recovers to the state after a number of whole transactions, which never falls. */
  ghost predicate Whole(at: Layout, trace: seq<Image>, n: nat, img: Image, ts: seq<seq<Write>>, step: seq<nat>) {
    && n + |step| == |trace|
    && (forall k {:trigger step[k]} :: 0 <= k < |step| ==>
          step[k] <= |ts| && Recovers(at, trace[n + k], Applied(img, ts[..step[k]])))
    && (forall j, k {:trigger step[j], step[k]} :: 0 <= j < k < |step| ==> step[j] <= step[k])
  }

  /** The next transaction adds images that recover to the state before or after it. */
  lemma {:induction false} WholeMore(at: Layout, trace: seq<Image>, trace': seq<Image>, n: nat, img: Image,
                                     ts: seq<seq<Write>>, step: seq<nat>, i: nat, disk: Image,
                                     c: nat) returns (step': seq<nat>)
    requires Whole(at, trace, n, img, ts, step) && i < |ts|
    requires (forall k {:trigger step[k]} :: 0 <= k < |step| ==> step[k] <= i)
    requires trace <= trace' && SameHome(at, disk, Applied(img, ts[..i]))
    requires SwitchAt(at, trace', |trace|, c, disk, Overlay(disk, ts[i]))
    ensures Whole(at, trace', n, img, ts, step')
    ensures forall k {:trigger step'[k]} :: 0 <= k < |step'| ==> step'[k] <= i + 1
  {
    hide WellFormed, Recovered, SameHome, Overlay, Applied;
    var m := |step|;
    step' := step + seq(c - |trace|, _ => i) + seq(|trace'| - c, _ => i + 1);
    AppliedMore(img, ts, i);
    OverlaySameHome(at, disk, Applied(img, ts[..i]), ts[i]);
    forall k {:trigger step'[k]} | 0 <= k < |step'|
      ensures step'[k] <= |ts| && Recovers(at, trace'[n + k], Applied(img, ts[..step'[k]]))
    {
      if k < m {
        assert step'[k] == step[k] && trace'[n + k] == trace[n + k];
      } else if n + k < c {
        SameHomeTrans(at, Recovered(at, trace'[n + k]), disk, Applied(img, ts[..i]));
      } else {
        SameHomeTrans(at, Recovered(at, trace'[n + k]), Overlay(disk, ts[i]), Applied(img, ts[..i + 1]));
      }
    }
    forall j, k {:trigger step'[j], step'[k]} | 0 <= j < k < |step'| ensures step'[j] <= step'[k] {
      assert j < m ==> step'[j] == step[j];
      assert k < m ==> step'[k] == step[k];
    }
  }

  /** A run of transactions, stopped anywhere: every image it writes recovers to the state after a whole number of
      them. */
  method RunAll(log: Log, ts: seq<seq<Write>>) returns (r: Outcome<()>, ghost step: seq<nat>)
    requires Ready(log) && forall i {:trigger ts[i]} :: 0 <= i < |ts| ==> AllHome(log.at, ts[i], |log.cache.disk|)
    modifies log, log.cache
    ensures log.Sound() && old(log.cache.trace) <= log.cache.trace
    ensures Whole(log.at, log.cache.trace, |old(log.cache.trace)|, old(log.cache.disk), ts, step)
    ensures r.Ok? ==> Ready(log) && SameHome(log.at, log.cache.disk, Applied(old(log.cache.disk), ts))
    ensures
      && old(Idle(log.cache.buf, []))
      && (forall i {:trigger ts[i]} :: 0 <= i < |ts| ==> Affordable(log.at, |Listed(ts[i])|, |old(log.cache.buf)|))
      ==> r.Ok?
  {
    hide Log.Sound, Log.Valid, SameHome, Idle, Overlay, Listed, SwitchAt, Whole, Applied, AllHome, Affordable;
    ghost var disk, trace0 := log.cache.disk, log.cache.trace;
    ghost var room :=
      && Idle(log.cache.buf, [])
      && forall i {:trigger ts[i]} :: 0 <= i < |ts| ==> Affordable(log.at, |Listed(ts[i])|, |log.cache.buf|);
    step := [];
    r := Ok(());
    RunStart(log.at, trace0, disk, ts);
    ReadyIsSound(log);
    var i := 0;
    while i < |ts|
      invariant 0 <= i <= |ts| && r.Ok? && Ready(log) && log.Sound() && trace0 <= log.cache.trace
      invariant Whole(log.at, log.cache.trace, |trace0|, disk, ts, step)
      invariant forall k {:trigger step[k]} :: 0 <= k < |step| ==> step[k] <= i
      invariant SameHome(log.at, log.cache.disk, Applied(disk, ts[..i]))
      invariant room ==> Idle(log.cache.buf, []) && |log.cache.buf| == |old(log.cache.buf)|
    {
      ghost var disk1, trace1 := log.cache.disk, log.cache.trace;
      SameSize(log.at, disk1, Applied(disk, ts[..i]));
      ghost var c;
      r, c := Transact(log, ts[i]);
      step := WholeMore(log.at, trace1, log.cache.trace, |trace0|, disk, ts, step, i, disk1, c);
      if !r.Ok? {
        return;
      }
      AppliedMore(disk, ts, i);
      OverlaySameHome(log.at, disk1, Applied(disk, ts[..i]), ts[i]);
      SameHomeTrans(log.at, log.cache.disk, Overlay(disk1, ts[i]), Applied(disk, ts[..i + 1]));
      i := i + 1;
    }
    assert ts[..i] == ts;
  }

  lemma {:induction false} ReadyIsSound(log: Log)
    requires Ready(log)
    ensures log.Sound()
  {
  }

  lemma {:induction false} RunStart(at: Layout, trace: seq<Image>, disk: Image, ts: seq<seq<Write>>)
    ensures Whole(at, trace, |trace|, disk, ts, []) && ts[..0] == [] && SameHome(at, disk, Applied(disk, ts[..0]))
  {
  }

  /** Every image of the trace recovers to the same state. */
  ghost predicate AllRecover(at: Layout, trace: seq<Image>, base: Image) {
    forall k {:trigger trace[k]} :: 0 <= k < |trace| ==> Recovers(at, trace[k], base)
  }

  /** Boot after any crash: recovery ends with the state that the crashed image recovers to, ready for transactions. */
  method Boot(nbuf: nat, image: Image, at: Layout) returns (log: Log, r: Outcome<()>)
    requires WellFormed(at, image)
    ensures fresh(log) && fresh(log.cache) && log.at == at && log.Sound()
    ensures log.cache.trace != [] && log.cache.trace[0] == image
    ensures AllRecover(at, log.cache.trace, Recovered(at, image))
    ensures r.Ok? ==> Ready(log) && log.cache.disk == Recovered(at, image)
    ensures r.Ok? ==> Idle(log.cache.buf, []) && |log.cache.buf| == nbuf
    ensures nbuf >= 2 ==> r.Ok?
  {
    hide CrashSafe, Count, WellFormed, LogAgrees, HasLog, Continues, Recovered, AllRecover, Calmer, Roomy, PinnedWithin,
         Quiet, Settled, Installed, SameHome;
    log := new Log(nbuf, image, at);
    ghost var trace0, bases0, buf0, base := log.cache.trace, log.bases, log.cache.buf, log.bases[0];
    if nbuf >= 2 {
      EnoughRoom(buf0, []);
    }
    r := log.RecoverFromLog();
    BootTrace(at, trace0, bases0, log.cache.trace, log.bases, image);
    if r.Ok? {
      CalmerPins(buf0, log.cache.buf, []);
      StaysQuiet(buf0, log.cache.buf);
    }
  }

  lemma {:induction false} StaysQuiet(buf: seq<Buf>, buf': seq<Buf>)
    requires Quiet(buf) && Calmer(buf, buf')
    ensures Quiet(buf') && |buf'| == |buf|
  {
  }

  lemma {:induction false} BootTrace(at: Layout, trace0: seq<Image>, bases0: seq<Image>, trace: seq<Image>,
                                     bases: seq<Image>, image: Image)
    requires WellFormed(at, image) && trace0 == [image] && bases0 == [Recovered(at, image)]
    requires Continues(trace0, bases0, trace, bases, Recovered(at, image)) && CrashSafe(at, trace, bases)
    ensures trace != [] && trace[0] == image && AllRecover(at, trace, Recovered(at, image))
  {
    hide WellFormed, Recovered;
    forall k {:trigger trace[k]} | 0 <= k < |trace| ensures Recovers(at, trace[k], Recovered(at, image)) {
      assert bases[k] == Recovered(at, image);
    }
  }

  // ----- NBUF buffers are enough for filewrite -----

  /** With the log and the cache as they are configured, a transaction of up to eight sectors completes. */
  lemma {:induction false} LargestTransaction(at: Layout, n: nat)
    requires at.size >= LOGSIZE
    ensures Affordable(at, n, NBUF) <==> n <= CHUNK_SECTORS + 1
  {
  }

  /** While a chunk's sectors and a log block are in use, any further sector can be had. */
  lemma {:induction false} ChunkNeverPanics(buf: seq<Buf>, chunk: seq<int>, logBlock: int)
    requires |buf| == NBUF && Unique(buf) && |chunk| <= CHUNK_SECTORS && UsedWithin(buf, chunk + [logBlock])
    ensures exists i :: 0 <= i < |buf| && buf[i].Recyclable()
  {
    OneToRecycle(buf, chunk + [logBlock]);
  }

  /** Boot from any image that a crash left, and a run of transactions no larger than filewrite's: all of it
      completes. */
  method BootAndRun(image: Image, at: Layout, ts: seq<seq<Write>>) returns (log: Log, r: Outcome<()>)
    requires WellFormed(at, image) && at.size >= LOGSIZE
    requires forall i {:trigger ts[i]} :: 0 <= i < |ts| ==>
      AllHome(at, ts[i], |image|) && |Listed(ts[i])| <= CHUNK_SECTORS
    ensures r.Ok? && Ready(log) && log.at == at && SameHome(at, log.cache.disk, Applied(Recovered(at, image), ts))
  {
    hide Log.Sound, Log.Valid, WellFormed, Recovered, SameHome, Idle, Overlay, Listed, SwitchAt, Whole, Applied,
         AllHome, AllRecover;
    log, r := Boot(NBUF, image, at);
    SameLength(at, image);
    forall i {:trigger ts[i]} | 0 <= i < |ts| ensures Affordable(at, |Listed(ts[i])|, NBUF) {
      LargestTransaction(at, |Listed(ts[i])|);
    }
    ghost var step;
    r, step := RunAll(log, ts);
  }

  lemma {:induction false} SameLength(at: Layout, image: Image)
    requires WellFormed(at, image)
    ensures |Recovered(at, image)| == |image|
  {
  }
}
