/** The physical page allocator and the user half of address spaces (kalloc.c, vm.c), as methods on the
    frames. Addresses and sizes are counted in bytes where the source does, pages by number inside. */
module PageTable {
  import opened Outcomes
  import opened PageMaps

  const KERNBASE := 0x80000000

  /** A page of this byte throughout. */
  ghost predicate AllBytes(c: Frame, byte: int) {
    c.Bytes? && forall k {:trigger c.page.bytes[k]} :: 0 <= k < PGSIZE ==> c.page.bytes[k] == byte
  }

  /** What memset and kfree fill a page with. */
  function Filled(byte: int): (r: Page)
    ensures AllBytes(Bytes(r), byte)
  {
    Page(seq(PGSIZE, _ => byte))
  }

  ghost predicate IsZero(c: Frame) {
    AllBytes(c, 0)
  }

  /** What kfree leaves in a page. */
  ghost predicate IsJunk(c: Frame) {
    AllBytes(c, 1)
  }

  /** The number of the first page that starts at or after byte a. */
  function PageUp(a: nat): (n: nat)
    ensures (n - 1) * PGSIZE < a <= n * PGSIZE
  {
    (a + PGSIZE - 1) / PGSIZE
  }

  /** No frame moved in or out of the hands of the kernel. */
  ghost predicate KernKept(owner: seq<Owner>, owner': seq<Owner>) {
    |owner'| == |owner| && forall f {:trigger owner'[f]} :: 0 <= f < |owner| ==> (owner'[f].Kern? <==> owner[f].Kern?)
  }

  /** Free frames may have become d's or the kernel's. Apart from frame b nothing else changed hands, and
      no contents but those of d's own tables changed. */
  ghost predicate Grown(mem: seq<Frame>, owner: seq<Owner>, mem': seq<Frame>, owner': seq<Owner>, d: int, b: int) {
    && |mem| == |owner| == |mem'| == |owner'|
    && (forall f {:trigger owner'[f]} :: 0 <= f < |owner| && f != b ==>
      owner'[f] == owner[f] || (owner[f].Free? && (owner'[f].Free? || owner'[f].Kern? || Held(owner'[f], d, f))))
    && (forall f {:trigger mem'[f]} :: 0 <= f < |owner| && f != b && !owner[f].Free? && !IsTableOf(owner[f], d, f) ==>
          mem'[f] == mem[f])
  }

  predicate IsTableOf(o: Owner, d: int, f: int) {
    (o == Dir && f == d) || (o.Tab? && o.dir == d)
  }

  lemma {:induction false} GrownTrans(mem: seq<Frame>, owner: seq<Owner>, mem1: seq<Frame>, owner1: seq<Owner>,
                                      mem2: seq<Frame>, owner2: seq<Owner>, d: int, b: int)
    requires Grown(mem, owner, mem1, owner1, d, b) && Grown(mem1, owner1, mem2, owner2, d, b)
    ensures Grown(mem, owner, mem2, owner2, d, b)
  {
    forall f | 0 <= f < |owner| && f != b
      ensures owner2[f] == owner[f] || (owner[f].Free? && (owner2[f].Free? || owner2[f].Kern? || Held(owner2[f], d, f)))
      ensures !owner[f].Free? && !IsTableOf(owner[f], d, f) ==> mem2[f] == mem[f]
    {
      assert owner1[f] == owner[f] || owner[f].Free?;
      assert !owner[f].Free? && !IsTableOf(owner[f], d, f) ==> mem1[f] == mem[f];
    }
  }

  /** The pages of d above KERNBASE are translated as before. */
  ghost predicate KernelSame(mem: seq<Frame>, mem': seq<Frame>, d: int) {
    forall w {:trigger PteOf(mem', d, w)} :: USER_PAGES <= w < ENTRIES * ENTRIES ==>
      PteOf(mem', d, w) == PteOf(mem, d, w)
  }

  lemma {:induction false} KernelSameTrans(mem: seq<Frame>, mem1: seq<Frame>, mem2: seq<Frame>, d: int)
    requires KernelSame(mem, mem1, d) && KernelSame(mem1, mem2, d)
    ensures KernelSame(mem, mem2, d)
  {
    hide PteOf;
    forall w {:trigger PteOf(mem2, d, w)} | USER_PAGES <= w < ENTRIES * ENTRIES
      ensures PteOf(mem2, d, w) == PteOf(mem, d, w)
    {
      assert PteOf(mem1, d, w) == PteOf(mem, d, w);
    }
  }

  /** The entry of a user page is none of those. */
  lemma {:induction false} UserEntrySet(mem: seq<Frame>, free: seq<int>, owner: seq<Owner>,
                                        flat: map<int, map<int, int>>, d: int, v: int, t: int, e: Pte)
    requires Consistent(mem, free, owner, flat) && d in flat && 0 <= v < USER_PAGES
    requires Entry(mem, d, v / ENTRIES) == Present(t)
    ensures IsTable(mem, t) && |SetEntry(mem, t, v % ENTRIES, e)| == |mem|
    ensures KernelSame(mem, SetEntry(mem, t, v % ENTRIES, e), d)
  {
    hide PteOf, SetEntry;
    TableOwned(mem, free, owner, flat, d, v, t);
    assert FrameOk(mem, free, owner, flat, t);
    PteUpdated(mem, free, owner, flat, d, v, t, e);
  }

  /** Nor is a frame in the hands of the kernel part of the tables. */
  lemma {:induction false} KernFrameSet(mem: seq<Frame>, free: seq<int>, owner: seq<Owner>,
                                        flat: map<int, map<int, int>>, d: int, f: int, c: Frame)
    requires Consistent(mem, free, owner, flat) && d in flat && 0 <= f < |owner| && owner[f].Kern?
    ensures f < |mem| && KernelSame(mem, mem[f := c], d)
  {
    var mem' := mem[f := c];
    forall w {:trigger PteOf(mem', d, w)} | USER_PAGES <= w < ENTRIES * ENTRIES
      ensures PteOf(mem', d, w) == PteOf(mem, d, w)
    {
      assert DirOk(mem, owner, d, w / ENTRIES);
    }
  }

  /** User pages of d may have become free; nothing else about the frames changed. */
  ghost predicate Shrunk(mem: seq<Frame>, owner: seq<Owner>, mem': seq<Frame>, owner': seq<Owner>, d: int) {
    && |mem| == |owner| == |mem'| == |owner'|
    && (forall x {:trigger Entry(mem', d, x)} :: Entry(mem', d, x) == Entry(mem, d, x))
    && (forall f {:trigger owner'[f]} :: 0 <= f < |owner| ==>
          owner'[f] == owner[f] || (owner[f].Usr? && owner[f].dir == d && owner'[f].Free?))
    && (forall f {:trigger mem'[f]} :: 0 <= f < |owner| && !(owner[f].Tab? && owner[f].dir == d) ==>
          if owner'[f] == owner[f] then mem'[f] == mem[f] else IsJunk(mem'[f]))
    && KernelSame(mem, mem', d)
  }

  lemma {:induction false} ShrunkTrans(mem: seq<Frame>, owner: seq<Owner>, mem1: seq<Frame>, owner1: seq<Owner>,
                                       mem2: seq<Frame>, owner2: seq<Owner>, d: int)
    requires Shrunk(mem, owner, mem1, owner1, d) && Shrunk(mem1, owner1, mem2, owner2, d)
    ensures Shrunk(mem, owner, mem2, owner2, d)
  {
    forall x {:trigger Entry(mem2, d, x)} ensures Entry(mem2, d, x) == Entry(mem, d, x) {
      assert Entry(mem1, d, x) == Entry(mem, d, x);
    }
    forall f | 0 <= f < |owner|
      ensures owner2[f] == owner[f] || (owner[f].Usr? && owner[f].dir == d && owner2[f].Free?)
      ensures !(owner[f].Tab? && owner[f].dir == d) ==>
                if owner2[f] == owner[f] then mem2[f] == mem[f] else IsJunk(mem2[f])
    {
      assert owner1[f] == owner[f] || (owner[f].Usr? && owner[f].dir == d && owner1[f].Free?);
      assert !(owner[f].Tab? && owner[f].dir == d) ==>
          if owner1[f] == owner[f] then mem1[f] == mem[f] else IsJunk(mem1[f]);
    }
    KernelSameTrans(mem, mem1, mem2, d);
  }

  lemma {:induction false} ShrunkKeeps(mem: seq<Frame>, owner: seq<Owner>, mem': seq<Frame>, owner': seq<Owner>, d: int)
    requires Shrunk(mem, owner, mem', owner', d) && 0 <= d < |owner| && owner[d].Dir?
    ensures KernKept(owner, owner') && KernelSame(mem, mem', d)
  {
  }

  lemma {:induction false} TablesPresent(mem: seq<Frame>, free: seq<int>, owner: seq<Owner>,
                                         flat: map<int, map<int, int>>, d: int)
    requires Consistent(mem, free, owner, flat) && d in flat
    ensures |mem| == |owner| && 0 <= d < |owner| && owner[d].Dir?
    ensures forall w {:trigger w in flat[d]} :: w in flat[d] ==>
      0 <= w < USER_PAGES && Entry(mem, d, w / ENTRIES).Present?
  {
    assert DirOk(mem, owner, d, 0);
    forall w | w in flat[d] ensures 0 <= w < USER_PAGES && Entry(mem, d, w / ENTRIES).Present? {
      assert PageOk(mem, owner, flat[d], d, w);
    }
  }

  // ----- what deallocuvm removes -----

  /** Tables x0 to x1 - 1 of d are missing. */
  ghost predicate NoTables(mem: seq<Frame>, d: int, x0: int, x1: int) {
    forall x {:trigger Entry(mem, d, x)} :: x0 <= x < x1 ==> Entry(mem, d, x) == Absent
  }

  /** Page v is passed over by a scan that starts at page vs. */
  ghost predicate Skipped(mem: seq<Frame>, d: int, vs: int, v: int) {
    vs / ENTRIES < v / ENTRIES && v % ENTRIES < vs % ENTRIES && NoTables(mem, d, vs / ENTRIES, v / ENTRIES)
  }

  /** m' is m without the pages from vs to ve - 1 that the scan meets. */
  ghost predicate Unmapped(mem: seq<Frame>, d: int, vs: int, ve: int, m: map<int, int>, m': map<int, int>) {
    forall v {:trigger v in m'} {:trigger v in m} ::
      && (v in m' <==> v in m && (vs <= v < ve ==> Skipped(mem, d, vs, v)))
      && (v in m' ==> m'[v] == m[v])
  }

  /** Where the scan stands: in step with vs until it has met a table, at the start of a table when it then misses
      one. */
  ghost predicate InStep(mem: seq<Frame>, d: int, vs: nat, v: nat) {
    && (NoTables(mem, d, vs / ENTRIES, v / ENTRIES) ==> v % ENTRIES >= vs % ENTRIES)
    && (Entry(mem, d, v / ENTRIES) == Absent ==>
      if NoTables(mem, d, vs / ENTRIES, v / ENTRIES) then v % ENTRIES == vs % ENTRIES else v % ENTRIES == 0)
  }

  lemma {:induction false} ScanStart(mem: seq<Frame>, owner: seq<Owner>, d: int, vs: nat, m: map<int, int>)
    requires |mem| == |owner|
    ensures Unmapped(mem, d, vs, vs, m, m) && InStep(mem, d, vs, vs) && Shrunk(mem, owner, mem, owner, d)
  {
  }

  lemma {:induction false} UnmappedJump(mem: seq<Frame>, d: int, vs: nat, v: nat, ve: int, m: map<int, int>,
                                        m': map<int, int>)
    requires vs <= v < ve <= USER_PAGES && Unmapped(mem, d, vs, v, m, m') && Entry(mem, d, v / ENTRIES) == Absent
    requires InStep(mem, d, vs, v)
    requires forall w {:trigger w in m} :: w in m ==> Entry(mem, d, w / ENTRIES).Present?
    ensures Unmapped(mem, d, vs, if v + ENTRIES < ve then v + ENTRIES else ve, m, m')
  {
    forall w | w in m && v <= w < v + ENTRIES ensures Skipped(mem, d, vs, w) {
      assert w / ENTRIES == v / ENTRIES || w / ENTRIES == v / ENTRIES + 1;
    }
  }

  lemma {:induction false} StepOver(mem: seq<Frame>, d: int, vs: nat, v: nat)
    requires vs <= v && Entry(mem, d, v / ENTRIES) == Absent && InStep(mem, d, vs, v)
    ensures InStep(mem, d, vs, v + ENTRIES)
  {
    assert (v + ENTRIES) / ENTRIES == v / ENTRIES + 1 && (v + ENTRIES) % ENTRIES == v % ENTRIES;
  }

  lemma {:induction false} StepIn(mem: seq<Frame>, d: int, vs: nat, v: nat)
    requires vs <= v && Entry(mem, d, v / ENTRIES).Present? && InStep(mem, d, vs, v)
    ensures InStep(mem, d, vs, v + 1) && !Skipped(mem, d, vs, v)
  {
    if (v + 1) / ENTRIES != v / ENTRIES {
      assert (v + 1) / ENTRIES == v / ENTRIES + 1 && (v + 1) % ENTRIES == 0;
      assert !NoTables(mem, d, vs / ENTRIES, (v + 1) / ENTRIES);
    }
  }

  lemma {:induction false} UnmappedStep(mem: seq<Frame>, d: int, vs: nat, v: nat, m: map<int, int>, m': map<int, int>)
    requires vs <= v && Unmapped(mem, d, vs, v, m, m') && Entry(mem, d, v / ENTRIES).Present? && InStep(mem, d, vs, v)
    ensures Unmapped(mem, d, vs, v + 1, m, m' - {v})
    ensures v !in m' ==> m' - {v} == m'
  {
    StepIn(mem, d, vs, v);
  }

  lemma {:induction false} PageAt(mem: seq<Frame>, free: seq<int>, owner: seq<Owner>, flat: map<int, map<int, int>>,
                                  d: int, v: int)
    requires Consistent(mem, free, owner, flat) && d in flat && 0 <= v < USER_PAGES
    ensures PteOf(mem, d, v) == if v in flat[d] then Present(flat[d][v]) else Absent
  {
    assert PageOk(mem, owner, flat[d], d, v);
  }

  lemma {:induction false} SameTable(mem: seq<Frame>, owner: seq<Owner>, mem': seq<Frame>, owner': seq<Owner>, d: int,
                                     x: int)
    requires Shrunk(mem, owner, mem', owner', d)
    ensures Entry(mem', d, x) == Entry(mem, d, x)
  {
  }

  /** In a space whose pages are exactly 0 to n - 1, the scan passes over no page. */
  lemma {:induction false} NoneSkipped(mem: seq<Frame>, free: seq<int>, owner: seq<Owner>,
                                       flat: map<int, map<int, int>>, d: int, n: nat, vs: nat, ve: nat,
                                       m': map<int, int>)
    requires Consistent(mem, free, owner, flat) && d in flat && (forall v :: v in flat[d] <==> 0 <= v < n)
    requires Unmapped(mem, d, vs, ve, flat[d], m')
    ensures forall v :: v in m' <==> 0 <= v < n && !(vs <= v < ve)
  {
    TablesPresent(mem, free, owner, flat, d);
    forall v | 0 <= v < n && vs <= v ensures !Skipped(mem, d, vs, v) {
      assert vs in flat[d] && Entry(mem, d, vs / ENTRIES).Present?;
    }
  }

  // ----- what allocuvm asks of the allocator -----

  /** Page v is the first of its table among the pages from vs on. */
  predicate FirstOfTable(vs: int, v: int) {
    v == vs || v % ENTRIES == 0
  }

  /** A table has to be made when page v is reached. */
  predicate NeedsTable(mem: seq<Frame>, d: int, vs: int, v: int) {
    FirstOfTable(vs, v) && Entry(mem, d, v / ENTRIES) == Absent
  }

  /** Frames and tables asked for, for the pages from vs to v - 1. */
  function Requests(mem: seq<Frame>, d: int, vs: int, v: int): nat
    decreases v - vs
  {
    if v <= vs then 0 else Requests(mem, d, vs, v - 1) + if NeedsTable(mem, d, vs, v - 1) then 2 else 1
  }

  /** With n free frames, the first request that cannot be met is one for a table. */
  ghost predicate Starved(mem: seq<Frame>, d: int, vs: int, ve: int, n: nat) {
    exists v {:trigger NeedsTable(mem, d, vs, v)} ::
      vs <= v < ve && NeedsTable(mem, d, vs, v) && n == Requests(mem, d, vs, v) + 1
  }

  lemma {:induction false} RequestsGrow(mem: seq<Frame>, d: int, vs: int, v: int, w: int)
    requires vs <= v <= w
    ensures Requests(mem, d, vs, v) + (w - v) <= Requests(mem, d, vs, w)
    decreases w - v
  {
    if v < w {
      RequestsGrow(mem, d, vs, v, w - 1);
    }
  }

  /** The starved page is the only one. */
  lemma {:induction false} StarvedAt(mem: seq<Frame>, d: int, vs: int, ve: int, v: int, n: nat)
    requires vs <= v < ve && Requests(mem, d, vs, v) <= n < Requests(mem, d, vs, v + 1)
    ensures Starved(mem, d, vs, ve, n) <==> NeedsTable(mem, d, vs, v) && n == Requests(mem, d, vs, v) + 1
  {
    forall w | vs <= w < ve && NeedsTable(mem, d, vs, w) && n == Requests(mem, d, vs, w) + 1 ensures w == v {
      if w < v {
        RequestsGrow(mem, d, vs, w + 1, v);
      } else if v < w {
        RequestsGrow(mem, d, vs, v + 1, w);
      }
    }
  }

  lemma {:induction false} NotStarved(mem: seq<Frame>, d: int, vs: int, ve: int, n: nat)
    requires vs <= ve && Requests(mem, d, vs, ve) <= n
    ensures !Starved(mem, d, vs, ve, n) && !LastStarved(mem, d, vs, ve, n)
  {
    forall w | vs <= w < ve && NeedsTable(mem, d, vs, w) ensures n != Requests(mem, d, vs, w) + 1 {
      RequestsGrow(mem, d, vs, w + 1, ve);
    }
  }

  /** The starved page is the last one asked for. */
  ghost predicate LastStarved(mem: seq<Frame>, d: int, vs: int, ve: int, n: nat) {
    vs < ve && NeedsTable(mem, d, vs, ve - 1) && n == Requests(mem, d, vs, ve - 1) + 1
  }

  lemma {:induction false} LastStarvedAt(mem: seq<Frame>, d: int, vs: int, ve: int, v: int, n: nat)
    requires vs <= v < ve && Requests(mem, d, vs, v) <= n < Requests(mem, d, vs, v + 1)
    ensures LastStarved(mem, d, vs, ve, n) <==>
      v == ve - 1 && NeedsTable(mem, d, vs, v) && n == Requests(mem, d, vs, v) + 1
    ensures n < Requests(mem, d, vs, ve)
  {
    RequestsGrow(mem, d, vs, v + 1, ve);
    if v < ve - 1 {
      RequestsGrow(mem, d, vs, v + 1, ve - 1);
    }
  }

  ghost predicate Lost(owner: seq<Owner>, owner': seq<Owner>, f: int) {
    && |owner'| == |owner| && 0 <= f < |owner| && owner[f].Free? && owner'[f].Kern?
    && (forall g {:trigger owner'[g]} :: 0 <= g < |owner| && g != f ==> (owner'[g].Kern? <==> owner[g].Kern?))
  }

  /** Exactly one frame went from the free list to the kernel. */
  ghost predicate OneLost(owner: seq<Owner>, owner': seq<Owner>) {
    && |owner'| == |owner|
    && exists f :: Lost(owner, owner', f)
  }

  /** m' is m with the pages from vs to v - 1 added. */
  ghost predicate Extended(m: map<int, int>, m': map<int, int>, vs: int, v: int) {
    && (forall w {:trigger w in m'} {:trigger w in m} :: w in m' <==> w in m || vs <= w < v)
    && (forall w {:trigger w in m} :: w in m ==> w in m' && m'[w] == m[w])
  }

  /** Pages vs to v - 1 of m hold zeroes. */
  ghost predicate Zeroed(mem: seq<Frame>, m: map<int, int>, vs: int, v: int) {
    forall w {:trigger w in m} :: w in m && vs <= w < v ==> 0 <= m[w] < |mem| && IsZero(mem[m[w]])
  }

  /** The tables of d are those in mem and the ones for pages vs to v - 1. */
  ghost predicate TablesMade(mem: seq<Frame>, mem': seq<Frame>, d: int, vs: int, v: int) {
    forall x {:trigger Entry(mem', d, x)} ::
      Entry(mem', d, x).Present? <==> Entry(mem, d, x).Present? || (vs < v && vs / ENTRIES <= x && x * ENTRIES < v)
  }

  /** Where allocuvm stands before page v. */
  ghost predicate Stage(mem: seq<Frame>, owner: seq<Owner>, m: map<int, int>, mem': seq<Frame>, owner': seq<Owner>,
                        m': map<int, int>, d: int, vs: int, v: int) {
    && Grown(mem, owner, mem', owner', d, -1) && Extended(m, m', vs, v) && Zeroed(mem', m', vs, v)
    && TablesMade(mem, mem', d, vs, v) && KernelSame(mem, mem', d)
  }

  lemma {:induction false} FirstStage(mem: seq<Frame>, owner: seq<Owner>, m: map<int, int>, d: int, vs: int)
    requires |mem| == |owner|
    ensures Stage(mem, owner, m, mem, owner, m, d, vs, vs) && Requests(mem, d, vs, vs) == 0
  {
  }

  lemma {:induction false} NextStage(mem: seq<Frame>, owner: seq<Owner>, m: map<int, int>, mem1: seq<Frame>,
                                     free1: seq<int>, owner1: seq<Owner>, flat1: map<int, map<int, int>>,
                                     mem2: seq<Frame>, owner2: seq<Owner>, m2: map<int, int>, d: int, vs: nat, v: nat)
    requires vs <= v && d in flat1 && Stage(mem, owner, m, mem1, owner1, flat1[d], d, vs, v)
    requires Consistent(mem1, free1, owner1, flat1)
    requires Grown(mem1, owner1, mem2, owner2, d, -1)
    requires forall x {:trigger Entry(mem2, d, x)} :: x != v / ENTRIES ==> Entry(mem2, d, x) == Entry(mem1, d, x)
    requires v in m2 && v !in flat1[d] && m2 == flat1[d][v := m2[v]] && 0 <= m2[v] < |mem2| && IsZero(mem2[m2[v]])
    requires Entry(mem2, d, v / ENTRIES).Present? && KernelSame(mem1, mem2, d)
    ensures Stage(mem, owner, m, mem2, owner2, m2, d, vs, v + 1)
  {
    hide PteOf;
    KernelSameTrans(mem, mem1, mem2, d);
    GrownTrans(mem, owner, mem1, owner1, mem2, owner2, d, -1);
    forall w {:trigger w in m2} | w in m2 && vs <= w < v + 1 ensures 0 <= m2[w] < |mem2| && IsZero(mem2[m2[w]]) {
      if w != v {
        assert PageOk(mem1, owner1, flat1[d], d, w);
      }
    }
    forall x {:trigger Entry(mem2, d, x)}
      ensures Entry(mem2, d, x).Present? <==> Entry(mem, d, x).Present? || (vs / ENTRIES <= x && x * ENTRIES < v + 1)
    {
      assert x != v / ENTRIES ==> Entry(mem2, d, x) == Entry(mem1, d, x);
      assert Entry(mem1, d, x).Present? <==>
        Entry(mem, d, x).Present? || (vs < v && vs / ENTRIES <= x && x * ENTRIES < v);
    }
  }

  lemma {:induction false} TableNeeded(mem: seq<Frame>, mem': seq<Frame>, d: int, vs: nat, v: nat)
    requires vs <= v && TablesMade(mem, mem', d, vs, v)
    ensures Entry(mem', d, v / ENTRIES) == Absent <==> NeedsTable(mem, d, vs, v)
  {
    assert Entry(mem', d, v / ENTRIES).Present? <==>
      Entry(mem, d, v / ENTRIES).Present? || (vs < v && vs / ENTRIES <= v / ENTRIES && v / ENTRIES * ENTRIES < v);
  }

  /** After a failed request the pages mapped so far are all met by deallocuvm. */
  lemma {:induction false} AllUnmapped(mem: seq<Frame>, mem': seq<Frame>, d: int, vs: nat, v: nat, ve: nat,
                                       m: map<int, int>, m1: map<int, int>, m2: map<int, int>)
    requires vs <= v <= ve && TablesMade(mem, mem', d, vs, v) && Extended(m, m1, vs, v)
    requires Unmapped(mem', d, vs, ve, m1, m2)
    requires forall w :: vs <= w < ve ==> w !in m
    ensures m2 == m
  {
    forall w | vs <= w < v ensures w !in m2 {
      assert Entry(mem', d, vs / ENTRIES).Present?;
      assert !Skipped(mem', d, vs, w);
    }
    forall w ensures w in m2 <==> w in m {
    }
  }

  /** User pages keep their owner and their contents. */
  ghost predicate PagesKept(mem: seq<Frame>, owner: seq<Owner>, mem': seq<Frame>, owner': seq<Owner>) {
    && |mem| == |owner| == |mem'| == |owner'|
    && forall f {:trigger owner'[f]} {:trigger mem'[f]} :: 0 <= f < |owner| && owner[f].Usr? ==>
         owner'[f] == owner[f] && mem'[f] == mem[f]
  }

  lemma {:induction false} GrownKeepsPages(mem: seq<Frame>, owner: seq<Owner>, mem': seq<Frame>, owner': seq<Owner>,
                                           d: int)
    requires Grown(mem, owner, mem', owner', d, -1)
    ensures PagesKept(mem, owner, mem', owner')
  {
    forall f | 0 <= f < |owner| && owner[f].Usr? ensures owner'[f] == owner[f] && mem'[f] == mem[f] {
    }
  }

  lemma {:induction false} RestoredPages(mem: seq<Frame>, free: seq<int>, owner: seq<Owner>, mem1: seq<Frame>,
                                         owner1: seq<Owner>, mem2: seq<Frame>, free2: seq<int>, owner2: seq<Owner>,
                                         flat: map<int, map<int, int>>, d: int)
    requires Consistent(mem, free, owner, flat) && Consistent(mem2, free2, owner2, flat)
    requires Grown(mem, owner, mem1, owner1, d, -1) && Shrunk(mem1, owner1, mem2, owner2, d)
    ensures PagesKept(mem, owner, mem2, owner2)
  {
    hide Consistent;
    forall f {:trigger owner2[f]} | 0 <= f < |owner| && owner[f].Usr?
      ensures owner2[f] == owner[f] && mem2[f] == mem[f]
    {
      UserFrame(mem, free, owner, flat, f);
      UserPage(mem2, free2, owner2, flat, owner[f].dir, owner[f].page);
      assert owner1[f] == owner[f] && mem1[f] == mem[f];
    }
  }

  lemma {:induction false} UserFrame(mem: seq<Frame>, free: seq<int>, owner: seq<Owner>, flat: map<int, map<int, int>>,
                                     f: int)
    requires Consistent(mem, free, owner, flat) && 0 <= f < |owner| && owner[f].Usr?
    ensures owner[f].dir in flat && owner[f].page in flat[owner[f].dir] && flat[owner[f].dir][owner[f].page] == f
  {
    assert FrameOk(mem, free, owner, flat, f);
  }

  lemma {:induction false} UserPage(mem: seq<Frame>, free: seq<int>, owner: seq<Owner>, flat: map<int, map<int, int>>,
                                    d: int, v: int)
    requires Consistent(mem, free, owner, flat) && d in flat && v in flat[d]
    ensures 0 <= flat[d][v] < |owner| == |mem| && owner[flat[d][v]] == Usr(d, v) && mem[flat[d][v]].Bytes?
  {
    assert PageOk(mem, owner, flat[d], d, v);
    assert FrameOk(mem, free, owner, flat, flat[d][v]);
  }

  lemma {:induction false} UserPages(mem: seq<Frame>, free: seq<int>, owner: seq<Owner>, flat: map<int, map<int, int>>,
                                     d: int)
    requires Consistent(mem, free, owner, flat) && d in flat
    ensures forall w {:trigger w in flat[d]} :: w in flat[d] ==>
      0 <= flat[d][w] < |owner| && owner[flat[d][w]] == Usr(d, w)
  {
    forall w | w in flat[d] ensures 0 <= flat[d][w] < |owner| && owner[flat[d][w]] == Usr(d, w) {
      UserPage(mem, free, owner, flat, d, w);
    }
  }

  lemma {:induction false} KernTrans(owner: seq<Owner>, owner1: seq<Owner>, owner2: seq<Owner>)
    requires KernKept(owner1, owner2)
    ensures KernKept(owner, owner1) ==> KernKept(owner, owner2)
    ensures OneLost(owner, owner1) ==> OneLost(owner, owner2)
  {
    if f :| Lost(owner, owner1, f) {
      assert Lost(owner, owner2, f);
    }
  }

  lemma {:induction false} LostIsNotKept(owner: seq<Owner>, owner': seq<Owner>)
    requires OneLost(owner, owner')
    ensures !KernKept(owner, owner')
  {
    var f :| Lost(owner, owner', f);
    assert owner'[f].Kern?;
  }

  lemma {:induction false} KeptIsNotLost(owner: seq<Owner>, owner': seq<Owner>)
    requires KernKept(owner, owner')
    ensures !OneLost(owner, owner')
  {
    if OneLost(owner, owner') {
      LostIsNotKept(owner, owner');
    }
  }

  lemma {:induction false} LacksLast(m: map<int, int>, m': map<int, int>, vs: int, ve: int)
    requires vs < ve && ve - 1 !in m && Extended(m, m', vs, ve - 1)
    ensures !Extended(m, m', vs, ve)
  {
    assert ve - 1 !in m';
  }

  lemma {:induction false} LostLater(mem: seq<Frame>, owner: seq<Owner>, mem1: seq<Frame>, owner1: seq<Owner>,
                                     owner2: seq<Owner>, d: int)
    requires Grown(mem, owner, mem1, owner1, d, -1) && KernKept(owner, owner1) && OneLost(owner1, owner2)
    ensures OneLost(owner, owner2)
  {
    var f :| Lost(owner1, owner2, f);
    assert owner1[f].Free?;
    assert Lost(owner, owner2, f);
  }

  lemma {:induction false} StageFacts(mem: seq<Frame>, owner: seq<Owner>, m: map<int, int>, mem': seq<Frame>,
                                      owner': seq<Owner>, m': map<int, int>, d: int, vs: int, v: int)
    requires Stage(mem, owner, m, mem', owner', m', d, vs, v)
    ensures Grown(mem, owner, mem', owner', d, -1) && Extended(m, m', vs, v) && Zeroed(mem', m', vs, v)
    ensures TablesMade(mem, mem', d, vs, v) && KernelSame(mem, mem', d)
  {
  }

  lemma {:induction false} StageKept(mem: seq<Frame>, owner: seq<Owner>, m1: map<int, int>, mem1: seq<Frame>,
                                     owner1: seq<Owner>, mem2: seq<Frame>, owner2: seq<Owner>, m: map<int, int>, d: int,
                                     vs: int, v: int)
    requires Stage(mem, owner, m, mem1, owner1, m1, d, vs, v) && Grown(mem1, owner1, mem2, owner2, d, -1)
    requires KernelSame(mem1, mem2, d)
    requires forall x {:trigger Entry(mem2, d, x)} :: Entry(mem2, d, x).Present? <==> Entry(mem1, d, x).Present?
    requires forall w {:trigger w in m1} :: w in m1 ==> 0 <= m1[w] < |owner1| && owner1[m1[w]].Usr?
    ensures Stage(mem, owner, m, mem2, owner2, m1, d, vs, v)
  {
    KernelSameTrans(mem, mem1, mem2, d);
    GrownTrans(mem, owner, mem1, owner1, mem2, owner2, d, -1);
  }

  lemma {:induction false} Unchanged(mem: seq<Frame>, owner: seq<Owner>)
    requires |mem| == |owner|
    ensures PagesKept(mem, owner, mem, owner) && KernKept(owner, owner) && forall d :: KernelSame(mem, mem, d)
  {
  }

  lemma {:induction false} RequestsStep(mem: seq<Frame>, d: int, vs: int, v: int, ve: int)
    requires vs <= v < ve
    ensures Requests(mem, d, vs, v + 1) == Requests(mem, d, vs, v) + if NeedsTable(mem, d, vs, v) then 2 else 1
    ensures Requests(mem, d, vs, v + 1) <= Requests(mem, d, vs, ve)
  {
    RequestsGrow(mem, d, vs, v + 1, ve);
  }

  /** A new table translates nothing. */
  lemma {:induction false} NewTableEmpty(mem: seq<Frame>, free: seq<int>, owner: seq<Owner>,
                                         flat: map<int, map<int, int>>, d: int, x: int, t: int)
    requires Consistent(mem, free, owner, flat) && d in flat && 0 <= x < ENTRIES && Entry(mem, d, x) == Absent
    requires 0 < t < |mem| && t != d && IsTable(mem[t := Ptes(NO_ENTRIES)], d) && owner[t].Free?
    ensures forall w {:trigger PteOf(SetEntry(mem[t := Ptes(NO_ENTRIES)], d, x, Present(t)), d, w)} ::
      0 <= w < ENTRIES * ENTRIES ==>
      PteOf(SetEntry(mem[t := Ptes(NO_ENTRIES)], d, x, Present(t)), d, w) == PteOf(mem, d, w)
  {
    hide SetEntry;
    forall w | 0 <= w < ENTRIES * ENTRIES
      ensures PteOf(SetEntry(mem[t := Ptes(NO_ENTRIES)], d, x, Present(t)), d, w) == PteOf(mem, d, w)
    {
      assert DirOk(mem, owner, d, w / ENTRIES);
    }
  }

  // ----- what freevm returns -----

  /** The frames that d held are free now; all others have the owner and contents they had. */
  ghost predicate Returned(mem: seq<Frame>, owner: seq<Owner>, mem': seq<Frame>, owner': seq<Owner>, d: int) {
    && |mem| == |owner| == |mem'| == |owner'|
    && (forall f {:trigger owner'[f]} :: 0 <= f < |owner| ==>
          if Held(owner[f], d, f) then owner'[f].Free? else owner'[f] == owner[f])
    && (forall f {:trigger mem'[f]} :: 0 <= f < |owner| ==>
          if Held(owner[f], d, f) then IsJunk(mem'[f]) else mem'[f] == mem[f])
  }

  /** Halfway through the last loop of freevm: the tables before entry i are returned. */
  ghost predicate TablesReturned(mem: seq<Frame>, owner: seq<Owner>, mem': seq<Frame>, owner': seq<Owner>, d: int,
                                 i: int) {
    && |mem| == |owner| == |mem'| == |owner'|
    && (forall f {:trigger owner'[f]} :: 0 <= f < |owner| ==>
      if !Held(owner[f], d, f) then owner'[f] == owner[f]
      else if owner[f].Tab? && owner[f].index < i then owner'[f].Free? else owner'[f].Kern?)
    && (forall f {:trigger mem'[f]} :: 0 <= f < |owner| ==>
          if owner[f].Tab? && owner[f].dir == d then owner[f].index < i ==> IsJunk(mem'[f]) else mem'[f] == mem[f])
  }

  lemma {:induction false} TablesReturnedStep(mem: seq<Frame>, free: seq<int>, owner: seq<Owner>,
                                              flat: map<int, map<int, int>>, mem1: seq<Frame>, owner1: seq<Owner>,
                                              mem2: seq<Frame>, owner2: seq<Owner>, d: int, i: int, pos: int)
    requires Consistent(mem, free, owner, flat) && d in flat && 0 <= i < ENTRIES
    requires TablesReturned(mem, owner, mem1, owner1, d, i)
    requires match Entry(mem, d, i)
      case Present(t) => 0 <= t < |owner1| && owner2 == owner1[t := Free(pos)] && mem2 == mem1[t := Bytes(Filled(1))]
      case Absent => owner2 == owner1 && mem2 == mem1
    ensures TablesReturned(mem, owner, mem2, owner2, d, i + 1)
  {
    assert DirOk(mem, owner, d, i);
    forall f {:trigger owner2[f]} | 0 <= f < |owner|
      ensures if !Held(owner[f], d, f) then owner2[f] == owner[f]
        else if owner[f].Tab? && owner[f].index < i + 1 then owner2[f].Free? else owner2[f].Kern?
    {
      assert FrameOk(mem, free, owner, flat, f);
      assert owner1[f] == owner1[f];
    }
    forall f {:trigger mem2[f]} | 0 <= f < |owner|
      ensures
        if owner[f].Tab? && owner[f].dir == d then owner[f].index < i + 1 ==> IsJunk(mem2[f]) else mem2[f] == mem[f]
    {
      assert FrameOk(mem, free, owner, flat, f);
      assert mem1[f] == mem1[f];
    }
  }

  lemma {:induction false} DirectoryStays(mem: seq<Frame>, free: seq<int>, owner: seq<Owner>,
                                          flat: map<int, map<int, int>>, mem': seq<Frame>, owner': seq<Owner>, d: int,
                                          i: int)
    requires Consistent(mem, free, owner, flat) && d in flat && 0 <= i < ENTRIES
    requires TablesReturned(mem, owner, mem', owner', d, i)
    ensures 0 < d < |mem'| && Entry(mem', d, i) == Entry(mem, d, i) && owner'[d].Kern?
    ensures Entry(mem, d, i).Present? ==> var t := Entry(mem, d, i).frame; 0 < t < |owner'| && owner'[t].Kern? && t != d
  {
    assert DirOk(mem, owner, d, i) && FrameOk(mem, free, owner, flat, d);
    assert mem'[d] == mem[d];
  }

  lemma {:induction false} AllTablesReturned(mem: seq<Frame>, free: seq<int>, owner: seq<Owner>,
                                             flat: map<int, map<int, int>>, mem': seq<Frame>, owner': seq<Owner>,
                                             d: int, pos: int)
    requires Consistent(mem, free, owner, flat) && d in flat && flat[d] == map[]
    requires TablesReturned(mem, owner, mem', owner', d, ENTRIES)
    ensures 0 < d < |owner'| && owner'[d].Kern?
    ensures Returned(mem, owner, mem'[d := Bytes(Filled(1))], owner'[d := Free(pos)], d)
  {
    assert DirOk(mem, owner, d, 0) && FrameOk(mem, free, owner, flat, d);
    var owner2, mem2 := owner'[d := Free(pos)], mem'[d := Bytes(Filled(1))];
    forall f {:trigger owner2[f]} | 0 <= f < |owner|
      ensures if Held(owner[f], d, f) then owner2[f].Free? else owner2[f] == owner[f]
    {
      assert FrameOk(mem, free, owner, flat, f);
      assert owner'[f] == owner'[f];
    }
    forall f {:trigger mem2[f]} | 0 <= f < |owner|
      ensures if Held(owner[f], d, f) then IsJunk(mem2[f]) else mem2[f] == mem[f]
    {
      assert FrameOk(mem, free, owner, flat, f);
      assert mem'[f] == mem'[f];
    }
  }

  lemma {:induction false} ShrunkThenReturned(mem: seq<Frame>, owner: seq<Owner>, mem1: seq<Frame>, owner1: seq<Owner>,
                                              mem2: seq<Frame>, owner2: seq<Owner>, d: int)
    requires Shrunk(mem, owner, mem1, owner1, d) && Returned(mem1, owner1, mem2, owner2, d)
    ensures Returned(mem, owner, mem2, owner2, d)
  {
    forall f | 0 <= f < |owner|
      ensures if Held(owner[f], d, f) then owner2[f].Free? else owner2[f] == owner[f]
      ensures if Held(owner[f], d, f) then IsJunk(mem2[f]) else mem2[f] == mem[f]
    {
      assert owner1[f] == owner[f] || (owner[f].Usr? && owner[f].dir == d && owner1[f].Free?);
      assert owner2[f] == owner1[f] || Held(owner1[f], d, f);
      assert mem2[f] == mem2[f] && mem1[f] == mem1[f];
    }
  }

  lemma {:induction false} EverythingUnmapped(mem: seq<Frame>, free: seq<int>, owner: seq<Owner>,
                                              flat: map<int, map<int, int>>, d: int, m': map<int, int>)
    requires Consistent(mem, free, owner, flat) && d in flat && Unmapped(mem, d, 0, USER_PAGES, flat[d], m')
    ensures m' == map[]
  {
    TablesPresent(mem, free, owner, flat, d);
    forall v ensures v !in m' {
      assert v in flat[d] ==> 0 <= v < USER_PAGES;
    }
  }

  lemma {:induction false} SameSize(mem: seq<Frame>, free: seq<int>, owner: seq<Owner>, flat: map<int, map<int, int>>)
    requires Consistent(mem, free, owner, flat)
    ensures |mem| == |owner|
  {
  }

  lemma {:induction false} GivenUp(mem: seq<Frame>, free: seq<int>, owner: seq<Owner>, flat: map<int, map<int, int>>,
                                   d: int)
    requires Consistent(mem, free, owner, flat)
    ensures TablesReturned(mem, owner, mem, Dismantled(owner, d), d, 0)
  {
    var owner' := Dismantled(owner, d);
    forall f {:trigger owner'[f]} | 0 <= f < |owner|
      ensures
        if !Held(owner[f], d, f) then owner'[f] == owner[f]
        else if owner[f].Tab? && owner[f].index < 0 then owner'[f].Free?
        else owner'[f].Kern?
    {
      assert FrameOk(mem, free, owner, flat, f);
    }
    forall f {:trigger mem[f]} | 0 <= f < |owner| ensures owner[f].Tab? && owner[f].dir == d ==> 0 <= owner[f].index {
      assert FrameOk(mem, free, owner, flat, f);
    }
  }

  // ----- how many tables -----

  /** Tables present among the first n entries of d. */
  function Tables(mem: seq<Frame>, d: int, n: nat): nat {
    if n == 0 then 0 else Tables(mem, d, n - 1) + if Entry(mem, d, n - 1).Present? then 1 else 0
  }

  lemma {:induction false} TablesSame(mem: seq<Frame>, mem': seq<Frame>, d: int, n: nat)
    requires forall x :: 0 <= x < n ==> Entry(mem', d, x).Present? == Entry(mem, d, x).Present?
    ensures Tables(mem', d, n) == Tables(mem, d, n)
  {
    if n > 0 {
      TablesSame(mem, mem', d, n - 1);
    }
  }

  lemma {:induction false} TablesMore(mem: seq<Frame>, mem': seq<Frame>, d: int, x: nat, n: nat)
    requires x < n && Entry(mem, d, x) == Absent && Entry(mem', d, x).Present?
    requires forall y :: 0 <= y < n && y != x ==> Entry(mem', d, y).Present? == Entry(mem, d, y).Present?
    ensures Tables(mem', d, n) == Tables(mem, d, n) + 1
  {
    if x < n - 1 {
      TablesMore(mem, mem', d, x, n - 1);
    } else {
      TablesSame(mem, mem', d, n - 1);
    }
  }

  // ----- the kernel's half -----

  /** Pages first to first + count - 1 are mapped to frames from pa on. */
  datatype Region = Region(first: int, count: nat, pa: int)

  predicate Covers(r: Region, v: int) {
    r.first <= v < r.first + r.count
  }

  /** What the table kmap says about page v. */
  function KernelPte(kmap: seq<Region>, v: int): Pte {
    if kmap == [] then Absent else
      var r := kmap[|kmap| - 1];
      if Covers(r, v) then Present(r.pa + (v - r.first)) else KernelPte(kmap[..|kmap| - 1], v)
  }

  /** kmap is above KERNBASE, and no page is in two regions. */
  ghost predicate KernelOnly(kmap: seq<Region>) {
    && (forall i {:trigger kmap[i]} :: 0 <= i < |kmap| ==>
          USER_PAGES <= kmap[i].first && kmap[i].first + kmap[i].count <= ENTRIES * ENTRIES)
    && (forall i, v {:trigger Covers(kmap[i], v)} :: 0 <= i < |kmap| && Covers(kmap[i], v) ==>
          KernelPte(kmap[..i], v) == Absent)
  }

  /** Region r has a page in table x. */
  predicate Touches(r: Region, x: int) {
    r.count > 0 && r.first / ENTRIES <= x <= (r.first + r.count - 1) / ENTRIES
  }

  predicate Needed(kmap: seq<Region>, x: int) {
    kmap != [] && (Touches(kmap[|kmap| - 1], x) || Needed(kmap[..|kmap| - 1], x))
  }

  /** Tables that the kernel's half needs. */
  function KernelTables(kmap: seq<Region>, n: nat): nat {
    if n == 0 then 0 else KernelTables(kmap, n - 1) + if Needed(kmap, n - 1) then 1 else 0
  }

  /** The tables of d are those that kmap needs. */
  ghost predicate TablesFor(mem: seq<Frame>, d: int, kmap: seq<Region>) {
    forall x {:trigger Entry(mem, d, x)} :: 0 <= x < ENTRIES ==> (Entry(mem, d, x).Present? <==> Needed(kmap, x))
  }

  lemma {:induction false} AllTables(mem: seq<Frame>, d: int, kmap: seq<Region>, n: nat)
    requires n <= ENTRIES && TablesFor(mem, d, kmap)
    ensures Tables(mem, d, n) == KernelTables(kmap, n)
  {
    if n > 0 {
      AllTables(mem, d, kmap, n - 1);
      assert Entry(mem, d, n - 1).Present? <==> Needed(kmap, n - 1);
    }
  }

  /** A directory with no table but needed ones, and one of them missing. */
  lemma {:induction false} SomeMissing(mem: seq<Frame>, d: int, kmap: seq<Region>, x: nat, n: nat)
    requires x < n && Entry(mem, d, x) == Absent && Needed(kmap, x)
    requires forall y {:trigger Entry(mem, d, y)} :: 0 <= y < n && Entry(mem, d, y).Present? ==> Needed(kmap, y)
    ensures Tables(mem, d, n) < KernelTables(kmap, n)
  {
    if x < n - 1 {
      SomeMissing(mem, d, kmap, x, n - 1);
    } else {
      OnlyNeeded(mem, d, kmap, n - 1);
    }
    assert Entry(mem, d, n - 1).Present? ==> Needed(kmap, n - 1);
  }

  lemma {:induction false} OnlyNeeded(mem: seq<Frame>, d: int, kmap: seq<Region>, n: nat)
    requires forall y {:trigger Entry(mem, d, y)} :: 0 <= y < n && Entry(mem, d, y).Present? ==> Needed(kmap, y)
    ensures Tables(mem, d, n) <= KernelTables(kmap, n)
  {
    if n > 0 {
      OnlyNeeded(mem, d, kmap, n - 1);
      assert Entry(mem, d, n - 1).Present? ==> Needed(kmap, n - 1);
    }
  }

  lemma {:induction false} NeededLast(kmap: seq<Region>, r: Region, x: int)
    ensures Needed(kmap + [r], x) <==> Touches(r, x) || Needed(kmap, x)
  {
    assert (kmap + [r])[..|kmap|] == kmap;
  }

  lemma {:induction false} NeededMore(kmap: seq<Region>, i: nat, x: int)
    requires i <= |kmap| && Needed(kmap[..i], x)
    ensures Needed(kmap, x)
    decreases |kmap| - i
  {
    if i < |kmap| {
      assert kmap[..i + 1] == kmap[..i] + [kmap[i]];
      NeededLast(kmap[..i], kmap[i], x);
      NeededMore(kmap, i + 1, x);
    } else {
      assert kmap[..i] == kmap;
    }
  }

  lemma {:induction false} KernelTablesHigh(kmap: seq<Region>, x: int)
    requires KernelOnly(kmap) && Needed(kmap, x)
    ensures x >= USER_PAGES / ENTRIES
    decreases |kmap|
  {
    var n := |kmap| - 1;
    if !Touches(kmap[n], x) {
      forall i {:trigger kmap[..n][i]} | 0 <= i < n
        ensures USER_PAGES <= kmap[..n][i].first && kmap[..n][i].first + kmap[..n][i].count <= ENTRIES * ENTRIES
      {
        assert kmap[..n][i] == kmap[i];
      }
      forall i, v {:trigger Covers(kmap[..n][i], v)} | 0 <= i < n && Covers(kmap[..n][i], v)
        ensures KernelPte(kmap[..n][..i], v) == Absent
      {
        assert kmap[..n][i] == kmap[i] && kmap[..n][..i] == kmap[..i];
        assert Covers(kmap[i], v);
      }
      KernelTablesHigh(kmap[..n], x);
    }
  }

  /** One more page of region r, in table x. */
  lemma {:induction false} TablesStep(mem: seq<Frame>, mem': seq<Frame>, d: int, kmap: seq<Region>, r: Region, k: nat)
    requires TablesFor(mem, d, kmap + [Region(r.first, k, r.pa)]) && r.first >= 0
    requires Entry(mem', d, (r.first + k) / ENTRIES).Present?
    requires forall y {:trigger Entry(mem', d, y)} :: y != (r.first + k) / ENTRIES ==>
      Entry(mem', d, y) == Entry(mem, d, y)
    ensures TablesFor(mem', d, kmap + [Region(r.first, k + 1, r.pa)])
  {
    forall x {:trigger Entry(mem', d, x)} | 0 <= x < ENTRIES
      ensures Entry(mem', d, x).Present? <==> Needed(kmap + [Region(r.first, k + 1, r.pa)], x)
    {
      NeededLast(kmap, Region(r.first, k, r.pa), x);
      NeededLast(kmap, Region(r.first, k + 1, r.pa), x);
      assert x != (r.first + k) / ENTRIES ==> Entry(mem', d, x) == Entry(mem, d, x);
      TouchesMore(r, k, x);
    }
  }

  lemma {:induction false} TouchesMore(r: Region, k: nat, x: int)
    requires r.first >= 0
    ensures Touches(Region(r.first, k + 1, r.pa), x) <==>
      Touches(Region(r.first, k, r.pa), x) || x == (r.first + k) / ENTRIES
  {
  }

  lemma {:induction false} TablesKeep(mem: seq<Frame>, mem': seq<Frame>, d: int, kmap: seq<Region>)
    requires forall x {:trigger Entry(mem', d, x)} :: Entry(mem', d, x) == Entry(mem, d, x)
    ensures Tables(mem', d, ENTRIES) == Tables(mem, d, ENTRIES)
    ensures TablesFor(mem, d, kmap) ==> TablesFor(mem', d, kmap)
  {
    TablesSame(mem, mem', d, ENTRIES);
  }

  /** A table is missing for page k of region r. */
  lemma {:induction false} RanOut(mem: seq<Frame>, d: int, kmap: seq<Region>, r: Region, k: nat)
    requires TablesFor(mem, d, kmap + [Region(r.first, k, r.pa)]) && 0 <= r.first && k < r.count
    requires r.first + r.count <= ENTRIES * ENTRIES
    requires Entry(mem, d, (r.first + k) / ENTRIES) == Absent
    ensures Tables(mem, d, ENTRIES) < KernelTables(kmap + [r], ENTRIES)
  {
    hide Needed;
    var x := (r.first + k) / ENTRIES;
    NeededLast(kmap, r, x);
    forall y {:trigger Entry(mem, d, y)} | 0 <= y < ENTRIES && Entry(mem, d, y).Present? ensures Needed(kmap + [r], y) {
      NeededLast(kmap, Region(r.first, k, r.pa), y);
      NeededLast(kmap, r, y);
      TouchesPart(r, k, y);
    }
    SomeMissing(mem, d, kmap + [r], x, ENTRIES);
  }

  lemma {:induction false} TouchesPart(r: Region, k: nat, x: int)
    requires 0 <= r.first && k <= r.count
    ensures Touches(Region(r.first, k, r.pa), x) ==> Touches(r, x)
  {
  }

  lemma {:induction false} KernelTablesMore(kmap: seq<Region>, i: nat, n: nat)
    requires i <= |kmap|
    ensures KernelTables(kmap[..i], n) <= KernelTables(kmap, n)
  {
    if n > 0 {
      KernelTablesMore(kmap, i, n - 1);
      if Needed(kmap[..i], n - 1) {
        NeededMore(kmap, i, n - 1);
      }
    }
  }

  lemma {:induction false} TablesStart(mem: seq<Frame>, d: int, kmap: seq<Region>, r: Region)
    requires TablesFor(mem, d, kmap)
    ensures TablesFor(mem, d, kmap + [Region(r.first, 0, r.pa)])
  {
    forall x {:trigger Entry(mem, d, x)} | 0 <= x < ENTRIES
      ensures Entry(mem, d, x).Present? <==> Needed(kmap + [Region(r.first, 0, r.pa)], x)
    {
      NeededLast(kmap, Region(r.first, 0, r.pa), x);
    }
  }

  /** The kernel's half of d is as kmap says. */
  ghost predicate KernelMapped(mem: seq<Frame>, d: int, kmap: seq<Region>) {
    forall v {:trigger PteOf(mem, d, v)} :: USER_PAGES <= v < ENTRIES * ENTRIES ==>
      PteOf(mem, d, v) == KernelPte(kmap, v)
  }

  lemma {:induction false} KernelPteIs(kmap: seq<Region>, i: nat, v: int)
    requires KernelOnly(kmap) && i < |kmap| && Covers(kmap[i], v)
    ensures KernelPte(kmap, v) == Present(kmap[i].pa + (v - kmap[i].first))
  {
    var n := |kmap| - 1;
    if i < n {
      if Covers(kmap[n], v) {
        assert KernelPte(kmap[..n], v) == Absent;
      }
      KernelOnlyPrefix(kmap, n);
      assert kmap[..n][i] == kmap[i];
      KernelPteIs(kmap[..n], i, v);
    }
  }

  lemma {:induction false} KernelOnlyPrefix(kmap: seq<Region>, n: nat)
    requires KernelOnly(kmap) && n <= |kmap|
    ensures KernelOnly(kmap[..n])
  {
    forall i, v {:trigger Covers(kmap[..n][i], v)} | 0 <= i < n && Covers(kmap[..n][i], v)
      ensures KernelPte(kmap[..n][..i], v) == Absent
    {
      assert kmap[..n][..i] == kmap[..i];
      assert Covers(kmap[i], v);
    }
  }

  lemma {:induction false} KernelPteNone(kmap: seq<Region>, v: int)
    requires forall i {:trigger kmap[i]} :: 0 <= i < |kmap| ==> !Covers(kmap[i], v)
    ensures KernelPte(kmap, v) == Absent
  {
    if kmap != [] {
      KernelPteNone(kmap[..|kmap| - 1], v);
    }
  }

  /** Each page of a region maps the page of physical memory as far from the region's start; other pages of the
      kernel's half map nothing. */
  ghost predicate RegionsMapped(mem: seq<Frame>, d: int, kmap: seq<Region>) {
    && (forall i, v {:trigger Covers(kmap[i], v)} :: 0 <= i < |kmap| && Covers(kmap[i], v) ==>
          PteOf(mem, d, v) == Present(kmap[i].pa + (v - kmap[i].first)))
    && (forall v {:trigger PteOf(mem, d, v)} :: USER_PAGES <= v < ENTRIES * ENTRIES && PteOf(mem, d, v).Present? ==>
          exists i :: 0 <= i < |kmap| && Covers(kmap[i], v))
  }

  lemma {:induction false} KernelRegions(mem: seq<Frame>, d: int, kmap: seq<Region>)
    requires KernelOnly(kmap) && KernelMapped(mem, d, kmap)
    ensures RegionsMapped(mem, d, kmap)
  {
    hide KernelPte, PteOf;
    forall i, v {:trigger Covers(kmap[i], v)} | 0 <= i < |kmap| && Covers(kmap[i], v)
      ensures PteOf(mem, d, v) == Present(kmap[i].pa + (v - kmap[i].first))
    {
      KernelPteIs(kmap, i, v);
    }
    forall v {:trigger PteOf(mem, d, v)} | USER_PAGES <= v < ENTRIES * ENTRIES && PteOf(mem, d, v).Present?
      ensures exists i :: 0 <= i < |kmap| && Covers(kmap[i], v)
    {
      if forall i {:trigger kmap[i]} :: 0 <= i < |kmap| ==> !Covers(kmap[i], v) {
        KernelPteNone(kmap, v);
      }
    }
  }

  lemma {:induction false} RegionsStay(mem: seq<Frame>, mem': seq<Frame>, d: int, kmap: seq<Region>)
    requires KernelOnly(kmap) && RegionsMapped(mem, d, kmap) && KernelSame(mem, mem', d)
    ensures RegionsMapped(mem', d, kmap)
  {
    hide PteOf;
    forall i, v {:trigger Covers(kmap[i], v)} | 0 <= i < |kmap| && Covers(kmap[i], v)
      ensures PteOf(mem', d, v) == Present(kmap[i].pa + (v - kmap[i].first))
    {
      assert PteOf(mem', d, v) == PteOf(mem, d, v);
    }
    forall v {:trigger PteOf(mem', d, v)} | USER_PAGES <= v < ENTRIES * ENTRIES && PteOf(mem', d, v).Present?
      ensures exists i :: 0 <= i < |kmap| && Covers(kmap[i], v)
    {
      assert PteOf(mem', d, v) == PteOf(mem, d, v);
    }
  }

  lemma {:induction false} PteUpdated(mem: seq<Frame>, free: seq<int>, owner: seq<Owner>, flat: map<int, map<int, int>>,
                                      d: int, v: int, t: int, e: Pte)
    requires Consistent(mem, free, owner, flat) && d in flat && 0 <= v < ENTRIES * ENTRIES
    requires Entry(mem, d, v / ENTRIES) == Present(t) && IsTable(mem, t)
    ensures forall w {:trigger PteOf(SetEntry(mem, t, v % ENTRIES, e), d, w)} :: 0 <= w < ENTRIES * ENTRIES ==>
      PteOf(SetEntry(mem, t, v % ENTRIES, e), d, w) == if w == v then e else PteOf(mem, d, w)
  {
    hide SetEntry;
    assert DirOk(mem, owner, d, v / ENTRIES);
    forall w | 0 <= w < ENTRIES * ENTRIES
      ensures PteOf(SetEntry(mem, t, v % ENTRIES, e), d, w) == if w == v then e else PteOf(mem, d, w)
    {
      SameCell(v, w);
      assert DirOk(mem, owner, d, w / ENTRIES);
    }
  }

  lemma {:induction false} RegionGrows(kmap: seq<Region>, r: Region, k: nat, v: int)
    ensures KernelPte(kmap + [Region(r.first, k, r.pa)], v) ==
      if r.first <= v < r.first + k then Present(r.pa + (v - r.first)) else KernelPte(kmap, v)
  {
    assert (kmap + [Region(r.first, k, r.pa)])[..|kmap|] == kmap;
  }

  /** One more page of region r. */
  lemma {:induction false} KernelStep(mem: seq<Frame>, mem': seq<Frame>, d: int, kmap: seq<Region>, r: Region, k: nat)
    requires KernelMapped(mem, d, kmap + [Region(r.first, k, r.pa)])
    requires forall w {:trigger PteOf(mem', d, w)} :: 0 <= w < ENTRIES * ENTRIES ==>
      PteOf(mem', d, w) == if w == r.first + k then Present(r.pa + k) else PteOf(mem, d, w)
    ensures KernelMapped(mem', d, kmap + [Region(r.first, k + 1, r.pa)])
  {
    forall v | USER_PAGES <= v < ENTRIES * ENTRIES
      ensures PteOf(mem', d, v) == KernelPte(kmap + [Region(r.first, k + 1, r.pa)], v)
    {
      RegionGrows(kmap, r, k, v);
      RegionGrows(kmap, r, k + 1, v);
    }
  }

  lemma {:induction false} NoRegion(mem: seq<Frame>, d: int, kmap: seq<Region>, r: Region)
    requires KernelMapped(mem, d, kmap)
    ensures KernelMapped(mem, d, kmap + [Region(r.first, 0, r.pa)])
  {
    forall v | USER_PAGES <= v < ENTRIES * ENTRIES
      ensures PteOf(mem, d, v) == KernelPte(kmap + [Region(r.first, 0, r.pa)], v)
    {
      RegionGrows(kmap, r, 0, v);
    }
  }

  lemma {:induction false} Unmoved(mem: seq<Frame>, owner: seq<Owner>, d: int)
    requires |mem| == |owner|
    ensures Grown(mem, owner, mem, owner, d, -1) && KernKept(owner, owner)
  {
  }

  lemma {:induction false} KernelAt(mem: seq<Frame>, d: int, kmap: seq<Region>, r: Region, k: nat)
    requires KernelMapped(mem, d, kmap + [Region(r.first, k, r.pa)]) && USER_PAGES <= r.first + k < ENTRIES * ENTRIES
    ensures PteOf(mem, d, r.first + k) == KernelPte(kmap, r.first + k)
  {
    RegionGrows(kmap, r, k, r.first + k);
  }

  lemma {:induction false} TableOwned(mem: seq<Frame>, free: seq<int>, owner: seq<Owner>, flat: map<int, map<int, int>>,
                                      d: int, v: int, t: int)
    requires Consistent(mem, free, owner, flat) && d in flat && 0 <= v < ENTRIES * ENTRIES
    requires Entry(mem, d, v / ENTRIES) == Present(t)
    ensures |mem| == |owner| && 0 < t < |owner| && owner[t].Tab? && owner[t].dir == d && t != d
  {
    assert DirOk(mem, owner, d, v / ENTRIES);
  }

  lemma {:induction false} OwnTableOnly(mem: seq<Frame>, owner: seq<Owner>, mem': seq<Frame>, d: int, t: int)
    requires |mem'| == |mem| == |owner| && 0 <= t < |owner| && owner[t].Tab? && owner[t].dir == d
    requires forall f :: 0 <= f < |mem| && f != t ==> mem'[f] == mem[f]
    ensures Grown(mem, owner, mem', owner, d, -1)
  {
  }

  // ----- bytes of an address space -----

  /** The space m has a byte at address a. */
  ghost predicate HasByte(mem: seq<Frame>, m: map<int, int>, a: nat) {
    a / PGSIZE in m && 0 <= m[a / PGSIZE] < |mem| && mem[m[a / PGSIZE]].Bytes?
  }

  /** What a read of address a finds. */
  ghost function ByteAt(mem: seq<Frame>, m: map<int, int>, a: nat): int
    requires HasByte(mem, m, a)
  {
    mem[m[a / PGSIZE]].page.bytes[a % PGSIZE]
  }

  lemma {:induction false} PageOfByte(a: nat, sz: nat)
    ensures a < sz ==> a / PGSIZE < PageUp(sz)
    ensures PageUp(sz) * PGSIZE <= a ==> PageUp(sz) <= a / PGSIZE
  {
  }

  /** Every byte from page PageUp(oldsz) up to newsz is there and is zero. */
  ghost predicate BytesZeroed(mem: seq<Frame>, m: map<int, int>, oldsz: nat, newsz: nat) {
    forall a: nat {:trigger HasByte(mem, m, a)} :: PageUp(oldsz) * PGSIZE <= a < newsz ==>
      HasByte(mem, m, a) && ByteAt(mem, m, a) == 0
  }

  lemma {:induction false} ZeroedBytes(mem: seq<Frame>, m: map<int, int>, m': map<int, int>, oldsz: nat, newsz: nat)
    requires Extended(m, m', PageUp(oldsz), PageUp(newsz)) && Zeroed(mem, m', PageUp(oldsz), PageUp(newsz))
    ensures BytesZeroed(mem, m', oldsz, newsz)
  {
    forall a: nat {:trigger HasByte(mem, m', a)} | PageUp(oldsz) * PGSIZE <= a < newsz
      ensures HasByte(mem, m', a) && ByteAt(mem, m', a) == 0
    {
      PageOfByte(a, oldsz);
      PageOfByte(a, newsz);
      assert a / PGSIZE in m' && IsZero(mem[m'[a / PGSIZE]]);
      assert mem[m'[a / PGSIZE]].page.bytes[a % PGSIZE] == 0;
    }
  }

  /** The spaces m and m' have the same byte at every address below sz, in frames of their own. */
  ghost predicate BytesCopied(mem: seq<Frame>, m: map<int, int>, m': map<int, int>, sz: nat) {
    forall a: nat {:trigger HasByte(mem, m', a)} :: a < sz ==>
      && HasByte(mem, m, a) && HasByte(mem, m', a) && ByteAt(mem, m', a) == ByteAt(mem, m, a)
      && m'[a / PGSIZE] != m[a / PGSIZE]
  }

  // ----- what copyuvm copies -----

  /** Pages 0 to v - 1 of m and m' hold the same bytes. */
  ghost predicate SameBytes(mem: seq<Frame>, m: map<int, int>, m': map<int, int>, v: int) {
    forall w {:trigger w in m'} :: w in m' && 0 <= w < v ==>
      w in m && 0 <= m[w] < |mem| && 0 <= m'[w] < |mem| && mem[m'[w]] == mem[m[w]]
  }

  lemma {:induction false} CopiedBytes(mem: seq<Frame>, free: seq<int>, owner: seq<Owner>,
                                       flat: map<int, map<int, int>>, d: int, e: int, sz: nat)
    requires Consistent(mem, free, owner, flat) && d in flat && e in flat && d != e
    requires (forall w :: w in flat[e] <==> 0 <= w < PageUp(sz)) && SameBytes(mem, flat[d], flat[e], PageUp(sz))
    ensures BytesCopied(mem, flat[d], flat[e], sz)
  {
    forall a: nat {:trigger HasByte(mem, flat[e], a)} | a < sz
      ensures HasByte(mem, flat[d], a) && HasByte(mem, flat[e], a) && flat[e][a / PGSIZE] != flat[d][a / PGSIZE]
      ensures ByteAt(mem, flat[e], a) == ByteAt(mem, flat[d], a)
    {
      PageOfByte(a, sz);
      assert a / PGSIZE in flat[e];
      UserPage(mem, free, owner, flat, d, a / PGSIZE);
      UserPage(mem, free, owner, flat, e, a / PGSIZE);
    }
  }

  /** Where copyuvm stands before page v: e, which was empty, is a copy of d so far. */
  ghost predicate Copied(mem: seq<Frame>, owner: seq<Owner>, mem': seq<Frame>, owner': seq<Owner>,
                         flat': map<int, map<int, int>>, d: int, e: int, v: int) {
    && d in flat' && e in flat' && Grown(mem, owner, mem', owner', e, -1) && Extended(map[], flat'[e], 0, v)
    && SameBytes(mem', flat'[d], flat'[e], v) && TablesMade(mem, mem', e, 0, v) && KernelSame(mem, mem', e)
  }

  lemma {:induction false} CopiedStep(mem: seq<Frame>, owner: seq<Owner>, mem1: seq<Frame>, free1: seq<int>,
                                      owner1: seq<Owner>, flat1: map<int, map<int, int>>, mem2: seq<Frame>,
                                      owner2: seq<Owner>, flat2: map<int, map<int, int>>, d: int, e: int, v: nat)
    requires Consistent(mem1, free1, owner1, flat1) && d != e && Copied(mem, owner, mem1, owner1, flat1, d, e, v)
    requires v in flat1[d]
    requires Grown(mem1, owner1, mem2, owner2, e, -1)
    requires forall x {:trigger Entry(mem2, e, x)} :: x != v / ENTRIES ==> Entry(mem2, e, x) == Entry(mem1, e, x)
    requires e in flat2 && v in flat2[e] && flat2 == flat1[e := flat1[e][v := flat2[e][v]]]
    requires 0 <= flat1[d][v] < |mem1| && 0 <= flat2[e][v] < |mem2| && mem2[flat2[e][v]] == mem1[flat1[d][v]]
    requires Entry(mem2, e, v / ENTRIES).Present? && KernelSame(mem1, mem2, e)
    ensures Copied(mem, owner, mem2, owner2, flat2, d, e, v + 1)
  {
    hide Consistent, PteOf;
    KernelSameTrans(mem, mem1, mem2, e);
    GrownTrans(mem, owner, mem1, owner1, mem2, owner2, e, -1);
    UserPages(mem1, free1, owner1, flat1, d);
    UserPages(mem1, free1, owner1, flat1, e);
    forall x {:trigger Entry(mem2, e, x)}
      ensures Entry(mem2, e, x).Present? <==> Entry(mem, e, x).Present? || (0 < v + 1 && 0 <= x && x * ENTRIES < v + 1)
    {
      assert x != v / ENTRIES ==> Entry(mem2, e, x) == Entry(mem1, e, x);
      assert Entry(mem1, e, x).Present? <==> Entry(mem, e, x).Present? || (0 < v && 0 <= x && x * ENTRIES < v);
    }
    forall w {:trigger w in flat2[e]} | w in flat2[e] && 0 <= w < v + 1
      ensures w in flat2[d] && 0 <= flat2[d][w] < |mem2| && 0 <= flat2[e][w] < |mem2|
      ensures mem2[flat2[e][w]] == mem2[flat2[d][w]]
    {
      assert w != v ==> w in flat1[e];
      assert owner1[flat1[d][w]] == Usr(d, w);
    }
  }

  /** Frames and tables for n pages of an empty space. */
  function FreshRequests(n: nat): nat {
    n + (n + ENTRIES - 1) / ENTRIES
  }

  lemma {:induction false} NothingBelow(mem: seq<Frame>, e: int, kmap: seq<Region>)
    requires TablesFor(mem, e, kmap) && KernelOnly(kmap)
    ensures forall x {:trigger Entry(mem, e, x)} :: 0 <= x < USER_PAGES / ENTRIES ==> Entry(mem, e, x) == Absent
  {
    forall x {:trigger Entry(mem, e, x)} | 0 <= x < USER_PAGES / ENTRIES ensures Entry(mem, e, x) == Absent {
      if Needed(kmap, x) {
        KernelTablesHigh(kmap, x);
      }
    }
  }

  lemma {:induction false} FreshCount(mem: seq<Frame>, e: int, n: nat)
    requires n <= USER_PAGES
    requires forall x {:trigger Entry(mem, e, x)} :: 0 <= x < USER_PAGES / ENTRIES ==> Entry(mem, e, x) == Absent
    ensures Requests(mem, e, 0, n) == FreshRequests(n)
  {
    if n > 0 {
      FreshCount(mem, e, n - 1);
      assert Entry(mem, e, (n - 1) / ENTRIES) == Absent;
    }
  }

  /** With m free frames, a space of n pages without tables fails on a request for a table. */
  ghost predicate ShortOfTable(n: nat, m: int) {
    exists v {:trigger FreshRequests(v)} :: 0 <= v < n && v % ENTRIES == 0 && m == FreshRequests(v) + 1
  }

  /** For a new space, being starved is a matter of counting. */
  lemma {:induction false} FreshStarved(mem: seq<Frame>, e: int, n: nat, m: nat)
    requires n <= USER_PAGES
    requires forall x {:trigger Entry(mem, e, x)} :: 0 <= x < USER_PAGES / ENTRIES ==> Entry(mem, e, x) == Absent
    ensures Starved(mem, e, 0, n, m) <==> ShortOfTable(n, m)
  {
    forall v: nat | v < n
      ensures Requests(mem, e, 0, v) == FreshRequests(v) && (NeedsTable(mem, e, 0, v) <==> v % ENTRIES == 0)
    {
      FreshCount(mem, e, v);
      assert Entry(mem, e, v / ENTRIES) == Absent;
    }
    if Starved(mem, e, 0, n, m) {
      var v :| 0 <= v < n && NeedsTable(mem, e, 0, v) && m == Requests(mem, e, 0, v) + 1;
      assert m == FreshRequests(v) + 1;
    }
    if ShortOfTable(n, m) {
      var v :| 0 <= v < n && v % ENTRIES == 0 && m == FreshRequests(v) + 1;
      assert NeedsTable(mem, e, 0, v);
    }
  }

  /** Page v is the first one below n that m does not map. */
  ghost predicate FirstHole(m: map<int, int>, n: nat, v: int) {
    0 <= v < n && v !in m && forall w :: 0 <= w < v ==> w in m
  }

  /** Copying n pages of m into the new space e, with k free frames, reaches a page that m does not map. */
  ghost predicate MeetsHole(mem: seq<Frame>, e: int, m: map<int, int>, n: nat, k: nat) {
    exists v :: FirstHole(m, n, v) && Requests(mem, e, 0, v) <= k
  }

  lemma {:induction false} HoleMet(mem: seq<Frame>, e: int, m: map<int, int>, n: nat, k: nat, v: nat)
    requires FirstHole(m, n, v) && Requests(mem, e, 0, v) <= k
    ensures MeetsHole(mem, e, m, n, k)
  {
  }

  lemma {:induction false} NoHoleMet(mem: seq<Frame>, e: int, m: map<int, int>, n: nat, k: nat, v: nat)
    requires v <= n && (forall w :: 0 <= w < v ==> w in m) && (v == n || k < Requests(mem, e, 0, v))
    ensures !MeetsHole(mem, e, m, n, k)
  {
    forall w | FirstHole(m, n, w) ensures Requests(mem, e, 0, w) > k {
      RequestsGrow(mem, e, 0, v, w);
    }
  }

  lemma {:induction false} FreshHole(mem: seq<Frame>, e: int, m: map<int, int>, n: nat, k: nat)
    requires n <= USER_PAGES
    requires forall x {:trigger Entry(mem, e, x)} :: 0 <= x < USER_PAGES / ENTRIES ==> Entry(mem, e, x) == Absent
    ensures MeetsHole(mem, e, m, n, k) <==> exists v: nat :: FirstHole(m, n, v) && FreshRequests(v) <= k
  {
    if MeetsHole(mem, e, m, n, k) {
      var v :| FirstHole(m, n, v) && Requests(mem, e, 0, v) <= k;
      FreshCount(mem, e, v);
      var u: nat := v;
      assert FirstHole(m, n, u) && FreshRequests(u) <= k;
    }
    if v: nat :| FirstHole(m, n, v) && FreshRequests(v) <= k {
      FreshCount(mem, e, v);
    }
  }

  lemma {:induction false} NothingCopied(mem: seq<Frame>, owner: seq<Owner>, flat: map<int, map<int, int>>, d: int,
                                         e: int)
    requires |mem| == |owner| && d in flat && e in flat && flat[e] == map[]
    ensures Copied(mem, owner, mem, owner, flat, d, e, 0) && Requests(mem, e, 0, 0) == 0
  {
  }

  lemma {:induction false} CopiedFacts(mem: seq<Frame>, owner: seq<Owner>, mem': seq<Frame>, owner': seq<Owner>,
                                       flat': map<int, map<int, int>>, d: int, e: int, v: int)
    requires Copied(mem, owner, mem', owner', flat', d, e, v)
    ensures Grown(mem, owner, mem', owner', e, -1) && (forall w :: w in flat'[e] <==> 0 <= w < v)
    ensures SameBytes(mem', flat'[d], flat'[e], v) && TablesMade(mem, mem', e, 0, v) && KernelSame(mem, mem', e)
  {
  }

  lemma {:induction false} SourcePage(mem: seq<Frame>, free: seq<int>, owner: seq<Owner>, flat: map<int, map<int, int>>,
                                      d: int, v: int)
    requires Consistent(mem, free, owner, flat) && d in flat && 0 <= v < USER_PAGES && PteOf(mem, d, v).Present?
    ensures v in flat[d] && PteOf(mem, d, v).frame == flat[d][v] && 0 <= flat[d][v] < |mem| && mem[flat[d][v]].Bytes?
  {
    assert PageOk(mem, owner, flat[d], d, v);
    assert FrameOk(mem, free, owner, flat, flat[d][v]);
  }

  /** freevm of a space that had no pages when it was new spoils no page of another. */
  lemma {:induction false} PagesSurvive(mem: seq<Frame>, free: seq<int>, owner: seq<Owner>,
                                        flat: map<int, map<int, int>>, mem1: seq<Frame>, owner1: seq<Owner>,
                                        mem2: seq<Frame>, owner2: seq<Owner>, e: int)
    requires Consistent(mem, free, owner, flat) && e in flat && flat[e] == map[]
    requires Grown(mem, owner, mem1, owner1, e, -1) && Returned(mem1, owner1, mem2, owner2, e)
    ensures PagesKept(mem, owner, mem2, owner2)
  {
    hide Consistent;
    forall f {:trigger owner2[f]} | 0 <= f < |owner| && owner[f].Usr?
      ensures owner2[f] == owner[f] && mem2[f] == mem[f]
    {
      UserFrame(mem, free, owner, flat, f);
      assert owner1[f] == owner[f] && mem1[f] == mem[f];
    }
  }

  lemma {:induction false} KernSurvives(mem: seq<Frame>, owner: seq<Owner>, mem': seq<Frame>, owner': seq<Owner>,
                                        e: int)
    requires Returned(mem, owner, mem', owner', e)
    ensures KernKept(owner, owner')
  {
  }

  lemma {:induction false} PagesTrans(mem: seq<Frame>, owner: seq<Owner>, mem1: seq<Frame>, owner1: seq<Owner>,
                                      mem2: seq<Frame>, owner2: seq<Owner>)
    requires PagesKept(mem, owner, mem1, owner1) && PagesKept(mem1, owner1, mem2, owner2)
    ensures PagesKept(mem, owner, mem2, owner2)
  {
    forall f | 0 <= f < |owner| && owner[f].Usr? ensures owner2[f] == owner[f] && mem2[f] == mem[f] {
      assert owner1[f] == owner[f];
    }
  }

  lemma {:induction false} NoKernelTables(n: nat)
    ensures KernelTables([], n) == 0
  {
    if n > 0 {
      NoKernelTables(n - 1);
    }
  }

  lemma {:induction false} FreshSpace(mem: seq<Frame>, owner: seq<Owner>, mem': seq<Frame>, owner': seq<Owner>, d: int)
    requires |mem| == |owner| && 0 < d < |owner| && owner[d].Free? && owner' == owner[d := Dir]
    requires mem' == mem[d := Ptes(NO_ENTRIES)]
    ensures Grown(mem, owner, mem', owner', d, -1) && KernKept(owner, owner') && KernelMapped(mem', d, [])
    ensures TablesFor(mem', d, []) && Tables(mem', d, ENTRIES) == 0
  {
    AllTables(mem', d, [], ENTRIES);
    NoKernelTables(ENTRIES);
    forall v | USER_PAGES <= v < ENTRIES * ENTRIES ensures PteOf(mem', d, v) == Absent {
      assert Entry(mem', d, v / ENTRIES) == Absent;
    }
  }

  lemma {:induction false} RegionFits(kmap: seq<Region>, i: nat)
    requires KernelOnly(kmap) && i < |kmap|
    ensures USER_PAGES <= kmap[i].first && kmap[i].first + kmap[i].count <= ENTRIES * ENTRIES
    ensures forall v :: Covers(kmap[i], v) ==> KernelPte(kmap[..i], v) == Absent
  {
  }

  class Vm {
    var mem: seq<Frame>
    var free: seq<int>
    ghost var owner: seq<Owner>
    ghost var flat: map<int, map<int, int>>

    ghost predicate Valid()
      reads this
    {
      Consistent(mem, free, owner, flat)
    }

    /** freerange over n pages. */
    constructor (n: nat)
      ensures Valid() && |mem| == n + 1 && |free| == n && flat == map[]
    {
      mem := seq(n + 1, _ => Bytes(Filled(0)));
      free := [];
      owner := seq(n + 1, _ => Kern);
      flat := map[];
      new;
      var p := 1;
      while p <= n
        invariant 1 <= p <= n + 1 && Valid() && |mem| == n + 1 && |free| == p - 1 && flat == map[]
        invariant forall f :: p <= f <= n ==> owner[f] == Kern
      {
        KFree(p);
        p := p + 1;
      }
    }

    method KAlloc() returns (f: int)
      requires Valid()
      modifies this`free, this`owner
      ensures Valid()
      ensures f == 0 <==> old(free) == []
      ensures f == 0 ==> free == [] && owner == old(owner)
      ensures f != 0 ==> 0 < f < |owner| == |old(owner)| && old(owner)[f].Free? && owner == old(owner)[f := Kern]
      ensures f != 0 ==> free == old(free)[..|old(free)| - 1]
    {
      if free == [] {
        return 0;
      }
      Take(mem, free, owner, flat);
      f := free[|free| - 1];
      free := free[..|free| - 1];
      owner := owner[f := Kern];
    }

    method KFree(f: int)
      requires Valid() && 0 < f < |mem| && owner[f].Kern?
      modifies this`free, this`mem, this`owner
      ensures Valid()
      ensures free == old(free) + [f] && mem == old(mem)[f := Bytes(Filled(1))]
      ensures owner == old(owner)[f := Free(|old(free)|)] && IsJunk(mem[f])
    {
      Give(mem, free, owner, flat, f, Filled(1));
      mem := mem[f := Bytes(Filled(1))];
      free := free + [f];
      owner := owner[f := Free(|free| - 1)];
    }

    /** walkpgdir with alloc: the table for page v, made if need be. */
    method Walk(d: int, v: int) returns (t: int)
      requires Valid() && d in flat && 0 <= v < ENTRIES * ENTRIES
      modifies this`free, this`mem, this`owner
      ensures Valid() && Grown(old(mem), old(owner), mem, owner, d, -1) && KernKept(old(owner), owner)
      ensures t == 0 <==> Entry(old(mem), d, v / ENTRIES) == Absent && old(free) == []
      ensures t == 0 ==> mem == old(mem)
      ensures t != 0 ==> Entry(mem, d, v / ENTRIES) == Present(t)
      ensures |free| == |old(free)| - if t != 0 && Entry(old(mem), d, v / ENTRIES) == Absent then 1 else 0
      ensures forall x {:trigger Entry(mem, d, x)} :: x != v / ENTRIES ==> Entry(mem, d, x) == Entry(old(mem), d, x)
      ensures forall w {:trigger PteOf(mem, d, w)} :: 0 <= w < ENTRIES * ENTRIES ==>
        PteOf(mem, d, w) == PteOf(old(mem), d, w)
      ensures KernelSame(old(mem), mem, d)
      ensures |free| + Tables(mem, d, ENTRIES) == |old(free)| + Tables(old(mem), d, ENTRIES)
    {
      hide Tables;
      var x := v / ENTRIES;
      assert DirOk(mem, owner, d, x);
      match Entry(mem, d, x)
      case Present(p) =>
        t := p;
      case Absent =>
        t := KAlloc();
        if t != 0 {
          KernMemory(mem, free, owner, flat, t, Ptes(NO_ENTRIES));
          mem := mem[t := Ptes(NO_ENTRIES)];
          NewTable(mem, free, owner, flat, d, x, t);
          NewTableEmpty(old(mem), old(free), old(owner), flat, d, x, t);
          mem := SetEntry(mem, d, x, Present(t));
          owner := owner[t := Tab(d, x)];
          TablesMore(old(mem), mem, d, x, ENTRIES);
        }
    }

    /** mappages of one user page. It answers false, with nothing mapped, when it needs a table and memory is out. */
    method MapPage(d: int, v: int, f: int) returns (ok: bool)
      requires Valid() && d in flat && 0 <= v < USER_PAGES && v !in flat[d]
      requires 0 < f < |owner| && owner[f].Kern? && mem[f].Bytes?
      modifies this
      ensures Valid() && Grown(old(mem), old(owner), mem, owner, d, f) && f < |mem| && mem[f] == old(mem)[f]
      ensures forall g {:trigger owner[g]} :: 0 <= g < |owner| && g != f ==> (owner[g].Kern? <==> old(owner)[g].Kern?)
      ensures owner[f] == if ok then Usr(d, v) else Kern
      ensures ok <==> Entry(old(mem), d, v / ENTRIES).Present? || old(free) != []
      ensures flat == if ok then old(flat)[d := old(flat)[d][v := f]] else old(flat)
      ensures |free| == |old(free)| - if ok && Entry(old(mem), d, v / ENTRIES) == Absent then 1 else 0
      ensures forall x {:trigger Entry(mem, d, x)} :: x != v / ENTRIES ==> Entry(mem, d, x) == Entry(old(mem), d, x)
      ensures (Entry(mem, d, v / ENTRIES).Present? <==> ok) && KernelSame(old(mem), mem, d)
    {
      hide KernelSame;
      var t := Walk(d, v);
      ok := t != 0;
      assert owner[f] == old(owner)[f] && mem[f] == old(mem)[f];
      if ok {
        ghost var mem1, owner1 := mem, owner;
        NewPage(mem, free, owner, flat, d, v, t, f);
        UserEntrySet(mem, free, owner, flat, d, v, t, Present(f));
        assert DirOk(mem, owner, d, v / ENTRIES);
        mem := SetEntry(mem, t, v % ENTRIES, Present(f));
        owner := owner[f := Usr(d, v)];
        flat := flat[d := flat[d][v := f]];
        assert Grown(mem1, owner1, mem, owner, d, f);
        GrownTrans(old(mem), old(owner), mem1, owner1, mem, owner, d, f);
        KernelSameTrans(old(mem), mem1, mem, d);
      }
    }

    /** One page of deallocuvm: kfree it and clear its entry. */
    method UnmapPage(d: int, v: int, t: int)
      requires Valid() && d in flat && 0 <= v < USER_PAGES && v in flat[d] && Entry(mem, d, v / ENTRIES) == Present(t)
      modifies this
      ensures Valid() && Shrunk(old(mem), old(owner), mem, owner, d)
      ensures flat == old(flat)[d := old(flat)[d] - {v}]
      ensures var f := old(flat)[d][v]; 0 < f < |mem| && owner[f].Free? && IsJunk(mem[f]) && free == old(free) + [f]
    {
      hide KernelSame;
      DropPage(mem, free, owner, flat, d, v, t);
      UserEntrySet(mem, free, owner, flat, d, v, t, Absent);
      assert PageOk(mem, owner, flat[d], d, v) && DirOk(mem, owner, d, v / ENTRIES);
      var f := PteOf(mem, d, v).frame;
      assert f == flat[d][v] && owner[f] == Usr(d, v) && owner[t] == Tab(d, v / ENTRIES);
      assert FrameOk(mem, free, owner, flat, f);
      ghost var mem1 := SetEntry(mem, t, v % ENTRIES, Absent);
      Give(mem1, free, owner[f := Kern], flat[d := flat[d] - {v}], f, Filled(1));
      KernFrameSet(mem1, free, owner[f := Kern], flat[d := flat[d] - {v}], d, f, Bytes(Filled(1)));
      KernelSameTrans(mem, mem1, mem1[f := Bytes(Filled(1))], d);
      mem := mem[f := Bytes(Filled(1))];
      free := free + [f];
      mem := SetEntry(mem, t, v % ENTRIES, Absent);
      owner := owner[f := Kern][f := Free(|free| - 1)];
      flat := flat[d := flat[d] - {v}];
      assert mem == SetEntry(old(mem), t, v % ENTRIES, Absent)[f := Bytes(Filled(1))];
    }

    /** deallocuvm: where a table is missing the scan moves on by a whole table's worth of pages, which from
        a page in the middle of its table can pass over pages of the next one. */
    method DeallocUvm(d: int, oldsz: nat, newsz: nat) returns (r: nat)
      requires Valid() && d in flat && oldsz <= KERNBASE
      modifies this
      ensures Valid() && Shrunk(old(mem), old(owner), mem, owner, d)
      ensures newsz >= oldsz ==> r == oldsz && flat == old(flat)
      ensures newsz < oldsz ==> r == newsz && d in flat && flat == old(flat)[d := flat[d]]
      ensures newsz < oldsz ==> Unmapped(old(mem), d, PageUp(newsz), PageUp(oldsz), old(flat)[d], flat[d])
    {
      hide Consistent, Shrunk, PteOf, Unmapped, NoTables;
      TablesPresent(mem, free, owner, flat, d);
      if newsz >= oldsz {
        ScanStart(mem, owner, d, 0, flat[d]);
        return oldsz;
      }
      var vs, ve := PageUp(newsz), PageUp(oldsz);
      var v := vs;
      ScanStart(mem, owner, d, vs, flat[d]);
      while v < ve
        invariant vs <= v && Valid() && Shrunk(old(mem), old(owner), mem, owner, d)
        invariant d in flat && flat == old(flat)[d := flat[d]]
        invariant Unmapped(old(mem), d, vs, if v < ve then v else ve, old(flat)[d], flat[d])
        invariant InStep(old(mem), d, vs, v)
      {
        v := Scan(d, vs, v, ve, old(mem), old(owner), old(flat)[d]);
      }
      r := newsz;
    }

    /** One round of the loop of deallocuvm. */
    method Scan(d: int, vs: nat, v: nat, ve: nat, ghost was: seq<Frame>, ghost wasOwner: seq<Owner>,
                ghost m: map<int, int>) returns (next: nat)
      requires Valid() && d in flat && vs <= v < ve <= USER_PAGES
      requires Shrunk(was, wasOwner, mem, owner, d) && Unmapped(was, d, vs, v, m, flat[d]) && InStep(was, d, vs, v)
      requires forall w {:trigger w in m} :: w in m ==> Entry(was, d, w / ENTRIES).Present?
      modifies this
      ensures Valid() && Shrunk(was, wasOwner, mem, owner, d) && d in flat && flat == old(flat)[d := flat[d]]
      ensures v < next && Unmapped(was, d, vs, if next < ve then next else ve, m, flat[d]) && InStep(was, d, vs, next)
    {
      hide Consistent, Unmapped, NoTables, PteOf, Skipped;
      PageAt(mem, free, owner, flat, d, v);
      SameTable(was, wasOwner, mem, owner, d, v / ENTRIES);
      match Entry(mem, d, v / ENTRIES)
      case Absent =>
        UnmappedJump(was, d, vs, v, ve, m, flat[d]);
        StepOver(was, d, vs, v);
        next := v + ENTRIES;
      case Present(t) =>
        UnmappedStep(was, d, vs, v, m, flat[d]);
        StepIn(was, d, vs, v);
        if PteOf(mem, d, v).Present? {
          ghost var mem1, owner1 := mem, owner;
          UnmapPage(d, v, t);
          ShrunkTrans(was, wasOwner, mem1, owner1, mem, owner, d);
        }
        next := v + 1;
    }

    /** kalloc, the filling of the page, and mappages, as allocuvm and copyuvm do for each page. */
    method GrowPage(d: int, v: int, page: Page) returns (got: bool, mapped: bool)
      requires Valid() && d in flat && 0 <= v < USER_PAGES && v !in flat[d]
      modifies this
      ensures Valid() && Grown(old(mem), old(owner), mem, owner, d, -1)
      ensures (got <==> old(free) != []) && KernelSame(old(mem), mem, d)
      ensures !got ==> flat == old(flat) && owner == old(owner) && mem == old(mem) && free == []
      ensures forall x {:trigger Entry(mem, d, x)} :: x != v / ENTRIES ==> Entry(mem, d, x) == Entry(old(mem), d, x)
      ensures mapped <==> |old(free)| > 1 || (got && Entry(old(mem), d, v / ENTRIES).Present?)
      ensures mapped ==>
        && d in flat && v in flat[d] && flat == old(flat)[d := old(flat)[d][v := flat[d][v]]]
        && KernKept(old(owner), owner)
        && 0 <= flat[d][v] < |mem| && mem[flat[d][v]] == Bytes(page) && Entry(mem, d, v / ENTRIES).Present?
        && |free| == |old(free)| - if Entry(old(mem), d, v / ENTRIES) == Absent then 2 else 1
      ensures got && !mapped ==>
        flat == old(flat) && free == [] && OneLost(old(owner), owner) && Entry(mem, d, v / ENTRIES) == Absent
    {
      var f := KAlloc();
      got, mapped := f != 0, false;
      if got {
        KernMemory(mem, free, owner, flat, f, Bytes(page));
        KernFrameSet(mem, free, owner, flat, d, f, Bytes(page));
        mem := mem[f := Bytes(page)];
        ghost var mem1 := mem;
        assert DirOk(mem, owner, d, 0);
        mapped := MapPage(d, v, f);
        KernelSameTrans(old(mem), mem1, mem, d);
        if !mapped {
          assert Lost(old(owner), owner, f);
        }
      }
    }

    /** The failing end of allocuvm: deallocuvm takes back the pages from vs to v - 1. */
    method GiveBack(d: int, oldsz: nat, newsz: nat, ghost mem0: seq<Frame>, ghost free0: seq<int>,
                    ghost owner0: seq<Owner>, ghost flat0: map<int, map<int, int>>, ghost v: nat)
      requires Valid() && Consistent(mem0, free0, owner0, flat0) && d in flat0 && d in flat
      requires flat == flat0[d := flat[d]]
      requires oldsz <= newsz < KERNBASE && PageUp(oldsz) <= v <= PageUp(newsz) && PageUp(oldsz) < PageUp(newsz)
      requires forall w :: PageUp(oldsz) <= w < PageUp(newsz) ==> w !in flat0[d]
      requires Stage(mem0, owner0, flat0[d], mem, owner, flat[d], d, PageUp(oldsz), v)
      modifies this
      ensures Valid() && flat == flat0 && PagesKept(mem0, owner0, mem, owner) && KernKept(old(owner), owner)
      ensures KernelSame(mem0, mem, d)
    {
      hide Consistent, Stage, PagesKept, Shrunk, Grown, Unmapped, KernKept, KernelSame;
      var vs, ve := PageUp(oldsz), PageUp(newsz);
      StageFacts(mem0, owner0, flat0[d], mem, owner, flat[d], d, vs, v);
      TablesPresent(mem, free, owner, flat, d);
      var size := DeallocUvm(d, newsz, oldsz);
      AllUnmapped(mem0, old(mem), d, vs, v, ve, flat0[d], old(flat)[d], flat[d]);
      assert flat == flat0;
      RestoredPages(mem0, free0, owner0, old(mem), old(owner), mem, free, owner, flat, d);
      ShrunkKeeps(old(mem), old(owner), mem, owner, d);
      KernelSameTrans(mem0, old(mem), mem, d);
    }

    /** allocuvm: all the pages, or none; except that memory that runs out on a page table costs a frame. */
    method AllocUvm(d: int, oldsz: nat, newsz: nat) returns (r: nat)
      requires Valid() && d in flat && forall v :: PageUp(oldsz) <= v < PageUp(newsz) ==> v !in flat[d]
      modifies this
      ensures Valid() && PagesKept(old(mem), old(owner), mem, owner) && d in flat && flat == old(flat)[d := flat[d]]
      ensures KernelSame(old(mem), mem, d)
      ensures newsz >= KERNBASE || newsz < oldsz ==>
        mem == old(mem) && owner == old(owner) && free == old(free) && flat == old(flat)
      ensures newsz >= KERNBASE ==> r == 0
      ensures newsz < oldsz && newsz < KERNBASE ==> r == oldsz
      ensures oldsz <= newsz < KERNBASE ==>
        var vs, ve, n := PageUp(oldsz), PageUp(newsz), |old(free)|;
        && (Requests(old(mem), d, vs, ve) <= n ==>
              r == newsz && Extended(old(flat)[d], flat[d], vs, ve) && Zeroed(mem, flat[d], vs, ve))
        && (Requests(old(mem), d, vs, ve) <= n ==>
              BytesZeroed(mem, flat[d], oldsz, newsz) && TablesMade(old(mem), mem, d, vs, ve))
        && (n < Requests(old(mem), d, vs, ve) && !LastStarved(old(mem), d, vs, ve, n) ==> r == 0 && flat == old(flat))
        && (LastStarved(old(mem), d, vs, ve, n) ==>
              r == newsz && Extended(old(flat)[d], flat[d], vs, ve - 1) && Zeroed(mem, flat[d], vs, ve - 1))
        && (r == newsz && !Extended(old(flat)[d], flat[d], vs, ve) <==> LastStarved(old(mem), d, vs, ve, n))
        && (OneLost(old(owner), owner) <==> Starved(old(mem), d, vs, ve, n))
        && (KernKept(old(owner), owner) <==> !Starved(old(mem), d, vs, ve, n))
    {
      hide Consistent, Stage, Requests, Starved, LastStarved, Extended, Zeroed, TablesMade, NeedsTable, OneLost,
           PagesKept, Shrunk, Grown, Unmapped, KernKept, BytesZeroed, AllBytes, PageUp, KernelSame;
      TablesPresent(mem, free, owner, flat, d);
      FirstStage(mem, owner, flat[d], d, PageUp(oldsz));
      Unchanged(mem, owner);
      if newsz >= KERNBASE {
        return 0;
      }
      if newsz < oldsz {
        return oldsz;
      }
      var vs, ve := PageUp(oldsz), PageUp(newsz);
      var v := vs;
      ghost var lost := false;
      while v < ve
        invariant vs <= v <= ve && (lost ==> vs < v) && Valid() && d in flat && flat == old(flat)[d := flat[d]]
        invariant Stage(old(mem), old(owner), old(flat)[d], mem, owner, flat[d], d, vs, if lost then v - 1 else v)
        invariant !lost ==> |free| + Requests(old(mem), d, vs, v) == |old(free)| && KernKept(old(owner), owner)
        invariant lost ==> free == [] && Starved(old(mem), d, vs, ve, |old(free)|) && OneLost(old(owner), owner)
        invariant lost ==> Requests(old(mem), d, vs, v - 1) <= |old(free)| < Requests(old(mem), d, vs, v)
        invariant lost ==> NeedsTable(old(mem), d, vs, v - 1) && |old(free)| == Requests(old(mem), d, vs, v - 1) + 1
      {
        ghost var mem1, free1, owner1, flat1 := mem, free, owner, flat;
        StageFacts(old(mem), old(owner), old(flat)[d], mem, owner, flat[d], d, vs, if lost then v - 1 else v);
        RequestsStep(old(mem), d, vs, v, ve);
        var got, mapped := GrowPage(d, v, Filled(0));
        if !got {
          GiveBack(d, oldsz, newsz, old(mem), old(free), old(owner), old(flat), if lost then v - 1 else v);
          KernTrans(old(owner), owner1, owner);
          LastStarvedAt(old(mem), d, vs, ve, if lost then v - 1 else v, |old(free)|);
          if lost {
            LostIsNotKept(old(owner), owner);
          } else {
            StarvedAt(old(mem), d, vs, ve, v, |old(free)|);
            KeptIsNotLost(old(owner), owner);
          }
          return 0;
        }
        TableNeeded(old(mem), mem1, d, vs, v);
        if mapped {
          NextStage(old(mem), old(owner), old(flat)[d], mem1, free1, owner1, flat1, mem, owner, flat[d], d, vs, v);
          KernTrans(old(owner), owner1, owner);
        } else {
          UserPages(mem1, free1, owner1, flat1, d);
          StageKept(old(mem), old(owner), flat1[d], mem1, owner1, mem, owner, old(flat)[d], d, vs, v);
          StarvedAt(old(mem), d, vs, ve, v, |old(free)|);
          LostLater(old(mem), old(owner), mem1, owner1, owner, d);
          lost := true;
        }
        v := v + 1;
      }
      StageFacts(old(mem), old(owner), old(flat)[d], mem, owner, flat[d], d, vs, if lost then v - 1 else v);
      GrownKeepsPages(old(mem), old(owner), mem, owner, d);
      if lost {
        LastStarvedAt(old(mem), d, vs, ve, ve - 1, |old(free)|);
        LostIsNotKept(old(owner), owner);
        LacksLast(old(flat)[d], flat[d], vs, ve);
      } else {
        NotStarved(old(mem), d, vs, ve, |old(free)|);
        KeptIsNotLost(old(owner), owner);
        ZeroedBytes(mem, old(flat)[d], flat[d], oldsz, newsz);
      }
      r := newsz;
    }

    /** freevm: exactly the frames that d holds go back to the free list. */
    method FreeVm(d: int)
      requires Valid() && d in flat
      modifies this
      ensures Valid() && flat == old(flat) - {d} && Returned(old(mem), old(owner), mem, owner, d)
    {
      hide Consistent, Shrunk, Unmapped, TablesReturned, Returned, Dismantled;
      var size := DeallocUvm(d, KERNBASE, 0);
      EverythingUnmapped(old(mem), old(free), old(owner), old(flat), d, flat[d]);
      ghost var mem1, free1, owner1, flat1 := mem, free, owner, flat;
      GiveUp(mem, free, owner, flat, d);
      GivenUp(mem, free, owner, flat, d);
      owner := Dismantled(owner, d);
      flat := flat - {d};
      var i := 0;
      while i < ENTRIES
        invariant 0 <= i <= ENTRIES && Valid() && flat == old(flat) - {d}
        invariant TablesReturned(mem1, owner1, mem, owner, d, i)
      {
        DirectoryStays(mem1, free1, owner1, flat1, mem, owner, d, i);
        ghost var mem2, owner2, n := mem, owner, |free|;
        match Entry(mem, d, i) {
          case Absent =>
          case Present(t) =>
            SameSize(mem, free, owner, flat);
            KFree(t);
        }
        TablesReturnedStep(mem1, free1, owner1, flat1, mem2, owner2, mem, owner, d, i, n);
        i := i + 1;
      }
      AllTablesReturned(mem1, free1, owner1, flat1, mem, owner, d, |free|);
      SameSize(mem, free, owner, flat);
      KFree(d);
      ShrunkThenReturned(old(mem), old(owner), mem1, owner1, mem, owner, d);
    }

    /** mappages above KERNBASE. */
    method MapRegion(d: int, r: Region, ghost done: seq<Region>) returns (res: Outcome<bool>)
      requires Valid() && d in flat && USER_PAGES <= r.first && r.first + r.count <= ENTRIES * ENTRIES
      requires KernelMapped(mem, d, done) && TablesFor(mem, d, done)
      modifies this`free, this`mem, this`owner
      ensures Valid() && Grown(old(mem), old(owner), mem, owner, d, -1) && KernKept(old(owner), owner)
      ensures |free| + Tables(mem, d, ENTRIES) == |old(free)| + Tables(old(mem), d, ENTRIES)
      ensures res.Ok? && res.value ==> KernelMapped(mem, d, done + [r]) && TablesFor(mem, d, done + [r])
      ensures res.Ok? && !res.value ==> free == [] && Tables(mem, d, ENTRIES) < KernelTables(done + [r], ENTRIES)
      ensures !res.Ok? ==> exists v :: Covers(r, v) && KernelPte(done, v).Present?
    {
      hide Consistent, KernelMapped, Grown, KernKept, KernelPte, Tables, TablesFor, KernelTables;
      SameSize(mem, free, owner, flat);
      Unmoved(mem, owner, d);
      NoRegion(mem, d, done, r);
      TablesStart(mem, d, done, r);
      var k := 0;
      while k < r.count
        invariant 0 <= k <= r.count && Valid() && Grown(old(mem), old(owner), mem, owner, d, -1)
        invariant KernKept(old(owner), owner)
        invariant KernelMapped(mem, d, done + [Region(r.first, k, r.pa)])
        invariant TablesFor(mem, d, done + [Region(r.first, k, r.pa)])
        invariant |free| + Tables(mem, d, ENTRIES) == |old(free)| + Tables(old(mem), d, ENTRIES)
      {
        var v := r.first + k;
        ghost var mem1, owner1 := mem, owner;
        var t := Walk(d, v);
        GrownTrans(old(mem), old(owner), mem1, owner1, mem, owner, d, -1);
        KernTrans(old(owner), owner1, owner);
        if t == 0 {
          RanOut(mem, d, done, r, k);
          return Ok(false);
        }
        TablesStep(mem1, mem, d, done, r, k);
        KernelAt(mem1, d, done, r, k);
        if PteOf(mem, d, v).Present? {
          return Panic;
        }
        ghost var mem2 := mem;
        KernelPage(mem, free, owner, flat, d, v, t, r.pa + k);
        PteUpdated(mem, free, owner, flat, d, v, t, Present(r.pa + k));
        TableOwned(mem, free, owner, flat, d, v, t);
        mem := SetEntry(mem, t, v % ENTRIES, Present(r.pa + k));
        OwnTableOnly(mem2, owner, mem, d, t);
        TablesKeep(mem2, mem, d, done + [Region(r.first, k + 1, r.pa)]);
        GrownTrans(old(mem), old(owner), mem2, owner, mem, owner, d, -1);
        KernelStep(mem1, mem, d, done, r, k);
        k := k + 1;
      }
      res := Ok(true);
    }

    /** setupkvm: a new address space with the kernel's half as in kmap and nothing below. It takes one frame and
        the tables of that half; memory that runs out on the way leaves the unfinished space behind. */
    method SetupKvm(kmap: seq<Region>) returns (r: Outcome<int>)
      requires Valid() && KernelOnly(kmap)
      modifies this
      ensures Valid() && r.Ok? && PagesKept(old(mem), old(owner), mem, owner) && KernKept(old(owner), owner)
      ensures r.value != 0 <==> |old(free)| >= 1 + KernelTables(kmap, ENTRIES)
      ensures r.value != 0 ==>
        r.value !in old(flat) && flat == old(flat)[r.value := map[]] && RegionsMapped(mem, r.value, kmap)
      ensures r.value != 0 ==> |free| == |old(free)| - 1 - KernelTables(kmap, ENTRIES) && TablesFor(mem, r.value, kmap)
      ensures r.value != 0 ==> Grown(old(mem), old(owner), mem, owner, r.value, -1)
      ensures r.value == 0 ==> free == []
      ensures r.value == 0 ==>
        if old(free) == [] then flat == old(flat) else exists d :: d !in old(flat) && flat == old(flat)[d := map[]]
    {
      hide Consistent, KernelMapped, Grown, KernKept, KernelPte, PagesKept, KernelOnly, Tables, TablesFor, KernelTables,
           RegionsMapped;
      SameSize(mem, free, owner, flat);
      Unchanged(mem, owner);
      var d := KAlloc();
      if d == 0 {
        return Ok(0);
      }
      SameSize(mem, free, owner, flat);
      KernMemory(mem, free, owner, flat, d, Ptes(NO_ENTRIES));
      mem := mem[d := Ptes(NO_ENTRIES)];
      NewSpace(mem, free, owner, flat, d);
      owner := owner[d := Dir];
      flat := flat[d := map[]];
      FreshSpace(old(mem), old(owner), mem, owner, d);
      assert kmap[..0] == [];
      var i := 0;
      while i < |kmap|
        invariant 0 <= i <= |kmap| && Valid() && d !in old(flat) && flat == old(flat)[d := map[]]
        invariant Grown(old(mem), old(owner), mem, owner, d, -1) && KernKept(old(owner), owner)
        invariant KernelMapped(mem, d, kmap[..i]) && TablesFor(mem, d, kmap[..i])
        invariant |free| + Tables(mem, d, ENTRIES) == |old(free)| - 1
      {
        ghost var mem1, owner1 := mem, owner;
        RegionFits(kmap, i);
        assert kmap[..i] + [kmap[i]] == kmap[..i + 1];
        var ok := MapRegion(d, kmap[i], kmap[..i]);
        GrownTrans(old(mem), old(owner), mem1, owner1, mem, owner, d, -1);
        KernTrans(old(owner), owner1, owner);
        if !ok.Ok? || !ok.value {
          KernelTablesMore(kmap, i + 1, ENTRIES);
          GrownKeepsPages(old(mem), old(owner), mem, owner, d);
          return Ok(0);
        }
        i := i + 1;
      }
      assert kmap[..i] == kmap;
      AllTables(mem, d, kmap, ENTRIES);
      KernelRegions(mem, d, kmap);
      GrownKeepsPages(old(mem), old(owner), mem, owner, d);
      r := Ok(d);
    }

    /** The loop of copyuvm. */
    method CopyPages(d: int, e: int, n: nat) returns (r: Outcome<bool>)
      requires Valid() && d in flat && e in flat && d != e && flat[e] == map[] && n <= USER_PAGES
      modifies this
      ensures Valid() && PagesKept(old(mem), old(owner), mem, owner)
      ensures !r.Ok? ==> r == Panic
      ensures !r.Ok? <==> MeetsHole(old(mem), e, old(flat)[d], n, |old(free)|)
      ensures r.Ok? && r.value ==>
        e in flat && flat == old(flat)[e := flat[e]] && (forall v :: v in flat[e] <==> 0 <= v < n)
      ensures r.Ok? && r.value ==>
        && SameBytes(mem, flat[d], flat[e], n) && KernKept(old(owner), owner) && KernelSame(old(mem), mem, e)
        && |old(free)| >= Requests(old(mem), e, 0, n)
      ensures r.Ok? && !r.value ==> flat == old(flat) - {e} && |old(free)| < Requests(old(mem), e, 0, n)
      ensures r.Ok? && !r.value ==>
        if Starved(old(mem), e, 0, n, |old(free)|) then OneLost(old(owner), owner) else KernKept(old(owner), owner)
    {
      hide Consistent, Requests, Starved, NeedsTable, OneLost, PagesKept, Grown, KernKept, Copied, Returned, TablesMade,
           MeetsHole, KernelSame;
      SameSize(mem, free, owner, flat);
      NothingCopied(mem, owner, flat, d, e);
      Unchanged(mem, owner);
      var v := 0;
      while v < n
        invariant 0 <= v <= n && Valid() && d in flat && e in flat && flat == old(flat)[e := flat[e]]
        invariant Copied(old(mem), old(owner), mem, owner, flat, d, e, v) && KernKept(old(owner), owner)
        invariant |free| + Requests(old(mem), e, 0, v) == |old(free)| && forall w :: 0 <= w < v ==> w in old(flat)[d]
      {
        ghost var mem1, free1, owner1, flat1 := mem, free, owner, flat;
        CopiedFacts(old(mem), old(owner), mem, owner, flat, d, e, v);
        GrownKeepsPages(old(mem), old(owner), mem, owner, e);
        PageAt(mem, free, owner, flat, d, v);
        if PteOf(mem, d, v) == Absent {
          HoleMet(old(mem), e, old(flat)[d], n, |old(free)|, v);
          return Panic;
        }
        SourcePage(mem, free, owner, flat, d, v);
        RequestsStep(old(mem), e, 0, v, n);
        TableNeeded(old(mem), mem, e, 0, v);
        var got, mapped := GrowPage(e, v, mem[PteOf(mem, d, v).frame].page);
        if !mapped {
          StarvedAt(old(mem), e, 0, n, v, |old(free)|);
          NoHoleMet(old(mem), e, old(flat)[d], n, |old(free)|, v + 1);
          ghost var mem2, owner2 := mem, owner;
          GrownTrans(old(mem), old(owner), mem1, owner1, mem2, owner2, e, -1);
          FreeVm(e);
          PagesSurvive(old(mem), old(free), old(owner), old(flat), mem2, owner2, mem, owner, e);
          KernSurvives(mem2, owner2, mem, owner, e);
          if got {
            LostLater(old(mem), old(owner), mem1, owner1, owner2, e);
          }
          KernTrans(old(owner), owner2, owner);
          return Ok(false);
        }
        CopiedStep(old(mem), old(owner), mem1, free1, owner1, flat1, mem, owner, flat, d, e, v);
        KernTrans(old(owner), owner1, owner);
        v := v + 1;
      }
      CopiedFacts(old(mem), old(owner), mem, owner, flat, d, e, v);
      GrownKeepsPages(old(mem), old(owner), mem, owner, e);
      NoHoleMet(old(mem), e, old(flat)[d], n, |old(free)|, n);
      r := Ok(true);
    }

    /** copyuvm: a new space with the same bytes at the same pages, in frames of its own, or nothing. */
    method CopyUvm(d: int, sz: nat, kmap: seq<Region>) returns (r: Outcome<int>)
      requires Valid() && d in flat && sz <= KERNBASE && KernelOnly(kmap)
      modifies this
      ensures Valid() && PagesKept(old(mem), old(owner), mem, owner)
      ensures !r.Ok? ==> r == Panic
      ensures !r.Ok? <==> exists v: nat ::
        FirstHole(old(flat)[d], PageUp(sz), v) && FreshRequests(v) <= |old(free)| - 1 - KernelTables(kmap, ENTRIES)
      ensures r.Ok? ==> (r.value != 0 <==> |old(free)| >= 1 + KernelTables(kmap, ENTRIES) + FreshRequests(PageUp(sz)))
      ensures r.Ok? && r.value != 0 ==>
        && r.value !in old(flat) && r.value in flat && flat == old(flat)[r.value := flat[r.value]]
        && (forall v :: v in flat[r.value] <==> 0 <= v < PageUp(sz))
        && SameBytes(mem, old(flat)[d], flat[r.value], PageUp(sz)) && KernKept(old(owner), owner)
        && BytesCopied(mem, old(flat)[d], flat[r.value], sz) && RegionsMapped(mem, r.value, kmap)
      ensures r.Ok? && r.value == 0 && |old(free)| >= 1 + KernelTables(kmap, ENTRIES) ==>
        && flat == old(flat)
        && (OneLost(old(owner), owner) <==> ShortOfTable(PageUp(sz), |old(free)| - 1 - KernelTables(kmap, ENTRIES)))
        && (KernKept(old(owner), owner) <==> !OneLost(old(owner), owner))
      ensures |old(free)| < 1 + KernelTables(kmap, ENTRIES) ==>
        && r == Ok(0) && free == [] && KernKept(old(owner), owner)
        && (if old(free) == [] then flat == old(flat) else exists e :: e !in old(flat) && flat == old(flat)[e := map[]])
    {
      hide FirstHole, MeetsHole, ShortOfTable, Consistent, RegionsMapped, KernKept, PagesKept, KernelOnly, SameBytes,
           Starved, Requests, OneLost, Grown, KernelTables, TablesFor, FreshRequests, BytesCopied, KernelSame;
      var space := SetupKvm(kmap);
      var e := space.value;
      if e == 0 {
        return Ok(0);
      }
      ghost var mem1, owner1 := mem, owner;
      NothingBelow(mem, e, kmap);
      FreshCount(mem, e, PageUp(sz));
      FreshStarved(mem, e, PageUp(sz), |free|);
      FreshHole(mem, e, flat[d], PageUp(sz), |free|);
      var copied := CopyPages(d, e, PageUp(sz));
      PagesTrans(old(mem), old(owner), mem1, owner1, mem, owner);
      if !copied.Ok? {
        return Panic;
      }
      if !copied.value {
        if OneLost(owner1, owner) {
          LostLater(old(mem), old(owner), mem1, owner1, owner, e);
          LostIsNotKept(owner1, owner);
          LostIsNotKept(old(owner), owner);
        } else {
          KernTrans(old(owner), owner1, owner);
          KeptIsNotLost(old(owner), owner);
        }
        assert flat == old(flat);
        return Ok(0);
      }
      KernTrans(old(owner), owner1, owner);
      CopiedBytes(mem, free, owner, flat, d, e, sz);
      RegionsStay(mem1, mem, e, kmap);
      r := Ok(e);
    }
  }

  // ----- runs in which the answer is not what one would expect -----

  lemma {:induction false} FirstTable(mem: seq<Frame>, d: int, vs: nat, ve: nat)
    requires vs < ve && Entry(mem, d, vs / ENTRIES) == Absent
    ensures NeedsTable(mem, d, vs, vs) && Requests(mem, d, vs, vs) == 0 && Requests(mem, d, vs, vs + 1) == 2
    ensures Starved(mem, d, vs, ve, 1)
    ensures LastStarved(mem, d, vs, ve, 1) <==> ve == vs + 1
  {
    StarvedAt(mem, d, vs, ve, vs, 1);
    LastStarvedAt(mem, d, vs, ve, vs, 1);
  }

  /** One free frame beside a new address space, and pages wanted: the frame is lost. If it is one page, allocuvm
      answers that it is there. */
  method LosesLastFrame(kmap: seq<Region>, newsz: nat) returns (vm: Vm, d: int, r: nat, ghost owner0: seq<Owner>)
    requires KernelOnly(kmap) && 0 < newsz < KERNBASE
    ensures vm.Valid() && d in vm.flat && vm.flat[d] == map[] && OneLost(owner0, vm.owner)
    ensures r == if newsz <= PGSIZE then newsz else 0
  {
    hide Consistent, RegionsMapped, KernKept, PagesKept, KernelOnly, Starved, LastStarved, Requests, NeedsTable,
         OneLost, Grown, KernelTables, TablesFor;
    vm := new Vm(2 + KernelTables(kmap, ENTRIES));
    var space := vm.SetupKvm(kmap);
    d := space.value;
    owner0 := vm.owner;
    NothingBelow(vm.mem, d, kmap);
    FirstTable(vm.mem, d, 0, PageUp(newsz));
    RequestsGrow(vm.mem, d, 0, 1, PageUp(newsz));
    r := vm.AllocUvm(d, 0, newsz);
    if PageUp(newsz) == 1 {
      assert forall w :: w !in vm.flat[d];
    }
    assert vm.flat[d] == map[];
  }

  lemma {:induction false} OneTable(mem: seq<Frame>, d: int)
    requires Entry(mem, d, 0) == Absent
    ensures NoTables(mem, d, 0, 1)
  {
  }

  /** A space with one page, the first of its second table: deallocuvm from page 1 on passes it over. */
  method PassesOver(kmap: seq<Region>) returns (vm: Vm, d: int, r: nat)
    requires KernelOnly(kmap)
    ensures vm.Valid() && d in vm.flat && ENTRIES in vm.flat[d] && r == PGSIZE < ENTRIES * PGSIZE
  {
    hide Consistent, RegionsMapped, KernKept, PagesKept, KernelOnly, Starved, LastStarved, NeedsTable, OneLost, Grown,
         KernelTables, TablesFor, NoTables;
    vm := new Vm(3 + KernelTables(kmap, ENTRIES));
    var space := vm.SetupKvm(kmap);
    d := space.value;
    NothingBelow(vm.mem, d, kmap);
    FirstTable(vm.mem, d, ENTRIES, ENTRIES + 1);
    r := vm.AllocUvm(d, ENTRIES * PGSIZE, (ENTRIES + 1) * PGSIZE);
    assert Entry(vm.mem, d, 0) == Absent && ENTRIES in vm.flat[d];
    assert Skipped(vm.mem, d, 1, ENTRIES) by {
      OneTable(vm.mem, d);
    }
    r := vm.DeallocUvm(d, (ENTRIES + 1) * PGSIZE, PGSIZE);
  }
}
