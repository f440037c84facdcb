/** Physical pages and two-level page tables (kalloc.c, vm.c), as values. Frames are numbered from the
    end of the kernel image, which is frame 0. A ghost owner says what each frame is used for. */
module PageMaps {
  /** Entries in a directory or table, and pages below KERNBASE. */
  const ENTRIES := 1024
  const USER_PAGES := 0x80000
  const PGSIZE := 4096

  type PageBytes = s: seq<int> | |s| == PGSIZE witness seq(PGSIZE, _ => 0)

  datatype Page = Page(bytes: PageBytes)

  datatype Pte = Absent | Present(frame: int)

  datatype Frame = Bytes(page: Page) | Ptes(entry: seq<Pte>)

  /** Free: on the free list at this position. Kern: in the hands of the kernel. The others belong to
      the address space whose page directory is frame dir. */
  datatype Owner = Free(pos: int) | Kern | Dir | Tab(dir: int, index: int) | Usr(dir: int, page: int)

  /** Entry x of the table in frame t. */
  function Entry(mem: seq<Frame>, t: int, x: int): Pte {
    if 0 <= t < |mem| && mem[t].Ptes? && 0 <= x < |mem[t].entry| then mem[t].entry[x] else Absent
  }

  /** walkpgdir without alloc, and the entry it leads to. */
  function PteOf(mem: seq<Frame>, d: int, v: int): Pte {
    match Entry(mem, d, v / ENTRIES)
    case Absent => Absent
    case Present(t) => Entry(mem, t, v % ENTRIES)
  }

  predicate IsTable(mem: seq<Frame>, t: int) {
    0 <= t < |mem| && mem[t].Ptes? && |mem[t].entry| == ENTRIES
  }

  // ----- the invariant -----

  ghost predicate FreeAt(free: seq<int>, owner: seq<Owner>, k: int)
    requires 0 <= k < |free|
  {
    0 < free[k] < |owner| && owner[free[k]] == Free(k)
  }

  ghost predicate FrameOk(mem: seq<Frame>, free: seq<int>, owner: seq<Owner>, flat: map<int, map<int, int>>, f: int)
    requires 0 <= f < |owner|
  {
    match owner[f]
    case Free(k) => 0 < f && 0 <= k < |free| && free[k] == f
    case Kern => true
    case Dir => 0 < f && f in flat
    case Tab(d, x) => 0 < f && 0 <= x < ENTRIES && d in flat && Entry(mem, d, x) == Present(f) && IsTable(mem, f)
    case Usr(d, v) => 0 < f < |mem| && d in flat && v in flat[d] && flat[d][v] == f && mem[f].Bytes?
  }

  ghost predicate DirOk(mem: seq<Frame>, owner: seq<Owner>, d: int, x: int) {
    && IsTable(mem, d) && d < |owner| && owner[d] == Dir
    && var e := Entry(mem, d, x); e.Present? ==> 0 < e.frame < |owner| && owner[e.frame] == Tab(d, x)
  }

  /** The two-level table of d and the flat map m agree on page v. */
  ghost predicate PageOk(mem: seq<Frame>, owner: seq<Owner>, m: map<int, int>, d: int, v: int) {
    && (v in m ==> 0 <= v < USER_PAGES && 0 < m[v] < |owner| && owner[m[v]] == Usr(d, v))
    && (0 <= v < USER_PAGES ==> PteOf(mem, d, v) == if v in m then Present(m[v]) else Absent)
  }

  /** Every frame is free, held by the kernel, or held in one role by one address space; and each address
      space d translates user pages as the map flat[d] does. */
  ghost predicate Consistent(mem: seq<Frame>, free: seq<int>, owner: seq<Owner>, flat: map<int, map<int, int>>) {
    && |mem| == |owner| && |mem| > 0
    && (forall k {:trigger FreeAt(free, owner, k)} :: 0 <= k < |free| ==> FreeAt(free, owner, k))
    && (forall f {:trigger FrameOk(mem, free, owner, flat, f)} :: 0 <= f < |owner| ==>
          FrameOk(mem, free, owner, flat, f))
    && (forall d, x {:trigger DirOk(mem, owner, d, x)} :: d in flat && 0 <= x < ENTRIES ==> DirOk(mem, owner, d, x))
    && (forall d, v {:trigger PageOk(mem, owner, flat[d], d, v)} :: d in flat ==> PageOk(mem, owner, flat[d], d, v))
  }

  // ----- what the invariant means -----

  /** f is used by address space d. */
  predicate Held(o: Owner, d: int, f: int) {
    match o
    case Free(_) => false
    case Kern => false
    case Dir => f == d
    case Tab(d', _) => d' == d
    case Usr(d', _) => d' == d
  }

  /** A frame that translates a user page translates no other page of any address space, is on no free
      list, and is neither a directory nor a table of any address space. */
  lemma {:induction false} NoSharing(mem: seq<Frame>, free: seq<int>, owner: seq<Owner>, flat: map<int, map<int, int>>,
                                     d: int, v: int, f: int)
    requires Consistent(mem, free, owner, flat) && d in flat && 0 <= v < USER_PAGES && PteOf(mem, d, v) == Present(f)
    ensures forall e, w :: e in flat && 0 <= w < USER_PAGES && PteOf(mem, e, w) == Present(f) ==> e == d && w == v
    ensures forall k :: 0 <= k < |free| ==> free[k] != f
    ensures forall e :: e in flat ==> e != f
    ensures forall e, x :: e in flat && 0 <= x < ENTRIES ==> Entry(mem, e, x) != Present(f)
  {
    assert PageOk(mem, owner, flat[d], d, v);
    forall e, w | e in flat && 0 <= w < USER_PAGES && PteOf(mem, e, w) == Present(f) ensures e == d && w == v {
      assert PageOk(mem, owner, flat[e], e, w);
    }
    forall k | 0 <= k < |free| ensures free[k] != f {
      assert FreeAt(free, owner, k);
    }
    forall e | e in flat ensures e != f {
      assert DirOk(mem, owner, e, 0);
    }
    forall e, x | e in flat && 0 <= x < ENTRIES ensures Entry(mem, e, x) != Present(f) {
      assert DirOk(mem, owner, e, x);
    }
  }

  /** The free list has no frame twice. */
  lemma {:induction false} FreeOnce(mem: seq<Frame>, free: seq<int>, owner: seq<Owner>, flat: map<int, map<int, int>>,
                                    j: nat, k: nat)
    requires Consistent(mem, free, owner, flat) && j < k < |free|
    ensures free[j] != free[k]
  {
    assert FreeAt(free, owner, j) && FreeAt(free, owner, k);
  }

  // ----- one step at a time -----

  /** kalloc. */
  lemma {:induction false} Take(mem: seq<Frame>, free: seq<int>, owner: seq<Owner>, flat: map<int, map<int, int>>)
    requires Consistent(mem, free, owner, flat) && |free| > 0
    ensures var f := free[|free| - 1];
      && 0 < f < |owner| && owner[f].Free?
      && Consistent(mem, free[..|free| - 1], owner[f := Kern], flat)
  {
    var n := |free| - 1;
    var f := free[n];
    assert FreeAt(free, owner, n);
    var owner' := owner[f := Kern];
    forall k | 0 <= k < n ensures FreeAt(free[..n], owner', k) {
      assert FreeAt(free, owner, k);
    }
    forall g | 0 <= g < |owner| ensures FrameOk(mem, free[..n], owner', flat, g) {
      assert FrameOk(mem, free, owner, flat, g);
    }
    OwnersMatter(mem, free, owner, owner', flat, f);
  }

  /** Directories and pages do not see a change of owner between free and kernel. */
  lemma {:induction false} OwnersMatter(mem: seq<Frame>, free: seq<int>, owner: seq<Owner>, owner': seq<Owner>,
                                        flat: map<int, map<int, int>>, f: int)
    requires Consistent(mem, free, owner, flat) && 0 <= f < |owner| && (owner[f].Free? || owner[f].Kern?)
    requires |owner'| == |owner|
    requires forall g {:trigger owner'[g]} :: 0 <= g < |owner| && g != f ==> owner'[g] == owner[g]
    ensures forall d, x {:trigger DirOk(mem, owner', d, x)} :: d in flat && 0 <= x < ENTRIES ==>
      DirOk(mem, owner', d, x)
    ensures forall d, v {:trigger PageOk(mem, owner', flat[d], d, v)} :: d in flat ==>
      PageOk(mem, owner', flat[d], d, v)
  {
    forall d, x | d in flat && 0 <= x < ENTRIES ensures DirOk(mem, owner', d, x) {
      assert DirOk(mem, owner, d, x);
    }
    forall d, v | d in flat ensures PageOk(mem, owner', flat[d], d, v) {
      assert PageOk(mem, owner, flat[d], d, v);
    }
  }

  /** kfree fills the page, and puts it on the list. */
  lemma {:induction false} Give(mem: seq<Frame>, free: seq<int>, owner: seq<Owner>, flat: map<int, map<int, int>>,
                                f: int, junk: Page)
    requires Consistent(mem, free, owner, flat) && 0 < f < |owner| && owner[f].Kern?
    ensures Consistent(mem[f := Bytes(junk)], free + [f], owner[f := Free(|free|)], flat)
  {
    var mem', free', owner' := mem[f := Bytes(junk)], free + [f], owner[f := Free(|free|)];
    KernMemory(mem, free, owner, flat, f, Bytes(junk));
    forall k | 0 <= k < |free'| ensures FreeAt(free', owner', k) {
      assert k < |free| ==> FreeAt(free, owner, k);
    }
    forall g | 0 <= g < |owner| ensures FrameOk(mem', free', owner', flat, g) {
      assert FrameOk(mem', free, owner, flat, g);
    }
    OwnersMatter(mem', free, owner, owner', flat, f);
  }

  /** The kernel may write its own frames. */
  lemma {:induction false} KernMemory(mem: seq<Frame>, free: seq<int>, owner: seq<Owner>, flat: map<int, map<int, int>>,
                                      f: int, c: Frame)
    requires Consistent(mem, free, owner, flat) && 0 < f < |owner| && owner[f].Kern?
    ensures Consistent(mem[f := c], free, owner, flat)
  {
    var mem' := mem[f := c];
    forall d | d in flat ensures d != f {
      assert DirOk(mem, owner, d, 0);
    }
    forall g | 0 <= g < |owner| ensures FrameOk(mem', free, owner, flat, g) {
      assert FrameOk(mem, free, owner, flat, g);
    }
    forall d, x | d in flat && 0 <= x < ENTRIES ensures DirOk(mem', owner, d, x) {
      assert DirOk(mem, owner, d, x);
    }
    forall d, v | d in flat ensures PageOk(mem', owner, flat[d], d, v) {
      assert PageOk(mem, owner, flat[d], d, v);
      if 0 <= v < USER_PAGES {
        assert DirOk(mem, owner, d, v / ENTRIES);
      }
    }
  }

  const NO_ENTRIES: seq<Pte> := seq(ENTRIES, _ => Absent)

  /** Frame t with entry x set to e. */
  function SetEntry(mem: seq<Frame>, t: int, x: int, e: Pte): (r: seq<Frame>)
    requires IsTable(mem, t) && 0 <= x < ENTRIES
    ensures |r| == |mem| && IsTable(r, t)
    ensures forall u, y {:trigger Entry(r, u, y)} :: Entry(r, u, y) == if u == t && y == x then e else Entry(mem, u, y)
  {
    mem[t := Ptes(mem[t].entry[x := e])]
  }

  /** walkpgdir with alloc: a kernel frame becomes an empty table of d. */
  lemma {:induction false} NewTable(mem: seq<Frame>, free: seq<int>, owner: seq<Owner>, flat: map<int, map<int, int>>,
                                    d: int, x: int, f: int)
    requires Consistent(mem, free, owner, flat) && d in flat && 0 <= x < ENTRIES && Entry(mem, d, x) == Absent
    requires 0 < f < |owner| && owner[f].Kern? && mem[f] == Ptes(NO_ENTRIES)
    ensures IsTable(mem, d) && Consistent(SetEntry(mem, d, x, Present(f)), free, owner[f := Tab(d, x)], flat)
  {
    hide SetEntry;
    assert DirOk(mem, owner, d, 0);
    var mem', owner' := SetEntry(mem, d, x, Present(f)), owner[f := Tab(d, x)];
    TablesKept(mem, d, x, Present(f));
    forall k | 0 <= k < |free| ensures FreeAt(free, owner', k) {
      assert FreeAt(free, owner, k);
    }
    forall g | 0 <= g < |owner| ensures FrameOk(mem', free, owner', flat, g) {
      assert FrameOk(mem, free, owner, flat, g);
    }
    forall e, y | e in flat && 0 <= y < ENTRIES ensures DirOk(mem', owner', e, y) {
      assert DirOk(mem, owner, e, y);
    }
    forall e, v | e in flat ensures PageOk(mem', owner', flat[e], e, v) {
      assert PageOk(mem, owner, flat[e], e, v);
      assert 0 <= v < USER_PAGES ==> DirOk(mem, owner, e, v / ENTRIES);
    }
  }

  lemma {:induction false} TablesKept(mem: seq<Frame>, t: int, x: int, e: Pte)
    requires IsTable(mem, t) && 0 <= x < ENTRIES
    ensures forall u {:trigger IsTable(SetEntry(mem, t, x, e), u)} ::
      IsTable(SetEntry(mem, t, x, e), u) <==> IsTable(mem, u)
    ensures forall u {:trigger SetEntry(mem, t, x, e)[u]} :: 0 <= u < |mem| && u != t ==>
      SetEntry(mem, t, x, e)[u] == mem[u]
  {
  }

  /** mappages of one user page: a kernel frame becomes page v of d. */
  lemma {:induction false} NewPage(mem: seq<Frame>, free: seq<int>, owner: seq<Owner>, flat: map<int, map<int, int>>,
                                   d: int, v: int, t: int, f: int)
    requires Consistent(mem, free, owner, flat) && d in flat && 0 <= v < USER_PAGES && v !in flat[d]
    requires Entry(mem, d, v / ENTRIES) == Present(t)
    requires 0 < f < |owner| && owner[f].Kern? && mem[f].Bytes?
    ensures IsTable(mem, t)
    ensures Consistent(SetEntry(mem, t, v % ENTRIES, Present(f)), free, owner[f := Usr(d, v)],
                       flat[d := flat[d][v := f]])
  {
    hide SetEntry;
    assert DirOk(mem, owner, d, v / ENTRIES);
    assert FrameOk(mem, free, owner, flat, t);
    var mem' := SetEntry(mem, t, v % ENTRIES, Present(f));
    var owner', flat' := owner[f := Usr(d, v)], flat[d := flat[d][v := f]];
    TablesKept(mem, t, v % ENTRIES, Present(f));
    forall k | 0 <= k < |free| ensures FreeAt(free, owner', k) {
      assert FreeAt(free, owner, k);
    }
    forall g | 0 <= g < |owner| ensures FrameOk(mem', free, owner', flat', g) {
      assert FrameOk(mem, free, owner, flat, g);
      assert owner[g].Tab? ==> DirOk(mem, owner, owner[g].dir, owner[g].index);
    }
    forall e, y | e in flat' && 0 <= y < ENTRIES ensures DirOk(mem', owner', e, y) {
      assert DirOk(mem, owner, e, y);
    }
    forall e, w | e in flat' ensures PageOk(mem', owner', flat'[e], e, w) {
      SameCell(v, w);
      assert PageOk(mem, owner, flat[e], e, w);
      assert 0 <= w < USER_PAGES ==> DirOk(mem, owner, e, w / ENTRIES);
    }
  }

  lemma {:induction false} SameCell(v: int, w: int)
    ensures v / ENTRIES == w / ENTRIES && v % ENTRIES == w % ENTRIES ==> v == w
    ensures 0 <= w < USER_PAGES ==> 0 <= w / ENTRIES < ENTRIES / 2
  {
  }

  /** deallocuvm of one page, before kfree. */
  lemma {:induction false} DropPage(mem: seq<Frame>, free: seq<int>, owner: seq<Owner>, flat: map<int, map<int, int>>,
                                    d: int, v: int, t: int)
    requires Consistent(mem, free, owner, flat) && d in flat && 0 <= v < USER_PAGES && v in flat[d]
    requires Entry(mem, d, v / ENTRIES) == Present(t)
    ensures IsTable(mem, t) && 0 < flat[d][v] < |owner|
    ensures Consistent(SetEntry(mem, t, v % ENTRIES, Absent), free, owner[flat[d][v] := Kern], flat[d := flat[d] - {v}])
  {
    hide SetEntry;
    assert DirOk(mem, owner, d, v / ENTRIES) && PageOk(mem, owner, flat[d], d, v);
    assert FrameOk(mem, free, owner, flat, t);
    var mem' := SetEntry(mem, t, v % ENTRIES, Absent);
    var owner', flat' := owner[flat[d][v] := Kern], flat[d := flat[d] - {v}];
    TablesKept(mem, t, v % ENTRIES, Absent);
    forall k | 0 <= k < |free| ensures FreeAt(free, owner', k) {
      assert FreeAt(free, owner, k);
    }
    forall g | 0 <= g < |owner| ensures FrameOk(mem', free, owner', flat', g) {
      assert FrameOk(mem, free, owner, flat, g);
      assert owner[g].Tab? ==> DirOk(mem, owner, owner[g].dir, owner[g].index);
    }
    forall e, y | e in flat' && 0 <= y < ENTRIES ensures DirOk(mem', owner', e, y) {
      assert DirOk(mem, owner, e, y);
    }
    forall e, w | e in flat' ensures PageOk(mem', owner', flat'[e], e, w) {
      SameCell(v, w);
      assert PageOk(mem, owner, flat[e], e, w);
      assert 0 <= w < USER_PAGES ==> DirOk(mem, owner, e, w / ENTRIES);
    }
  }

  /** mappages above KERNBASE: the kernel's part of a table aliases frames that it does not hold. */
  lemma {:induction false} KernelPage(mem: seq<Frame>, free: seq<int>, owner: seq<Owner>, flat: map<int, map<int, int>>,
                                      d: int, v: int, t: int, pa: int)
    requires Consistent(mem, free, owner, flat) && d in flat && USER_PAGES <= v < ENTRIES * ENTRIES
    requires Entry(mem, d, v / ENTRIES) == Present(t)
    ensures IsTable(mem, t) && Consistent(SetEntry(mem, t, v % ENTRIES, Present(pa)), free, owner, flat)
  {
    hide SetEntry;
    assert DirOk(mem, owner, d, v / ENTRIES);
    assert FrameOk(mem, free, owner, flat, t);
    var mem' := SetEntry(mem, t, v % ENTRIES, Present(pa));
    TablesKept(mem, t, v % ENTRIES, Present(pa));
    forall g | 0 <= g < |owner| ensures FrameOk(mem', free, owner, flat, g) {
      assert FrameOk(mem, free, owner, flat, g);
      assert owner[g].Tab? ==> DirOk(mem, owner, owner[g].dir, owner[g].index);
    }
    forall e, y | e in flat && 0 <= y < ENTRIES ensures DirOk(mem', owner, e, y) {
      assert DirOk(mem, owner, e, y);
    }
    forall e, w | e in flat ensures PageOk(mem', owner, flat[e], e, w) {
      SameCell(v, w);
      assert PageOk(mem, owner, flat[e], e, w);
      assert 0 <= w < USER_PAGES ==> DirOk(mem, owner, e, w / ENTRIES);
    }
  }

  /** setupkvm: a kernel frame becomes an empty page directory. */
  lemma {:induction false} NewSpace(mem: seq<Frame>, free: seq<int>, owner: seq<Owner>, flat: map<int, map<int, int>>,
                                    f: int)
    requires Consistent(mem, free, owner, flat) && 0 < f < |owner| && owner[f].Kern? && mem[f] == Ptes(NO_ENTRIES)
    ensures f !in flat && Consistent(mem, free, owner[f := Dir], flat[f := map[]])
  {
    var owner', flat' := owner[f := Dir], flat[f := map[]];
    forall e | e in flat ensures e != f {
      assert DirOk(mem, owner, e, 0);
    }
    forall k | 0 <= k < |free| ensures FreeAt(free, owner', k) {
      assert FreeAt(free, owner, k);
    }
    forall g | 0 <= g < |owner| ensures FrameOk(mem, free, owner', flat', g) {
      assert FrameOk(mem, free, owner, flat, g);
    }
    forall e, y | e in flat' && 0 <= y < ENTRIES ensures DirOk(mem, owner', e, y) {
      assert e != f ==> DirOk(mem, owner, e, y);
    }
    forall e, w | e in flat' ensures PageOk(mem, owner', flat'[e], e, w) {
      assert e != f ==> PageOk(mem, owner, flat[e], e, w);
    }
  }

  /** Once its user part is empty, an address space can be given up: its frames are the kernel's. */
  function Dismantled(owner: seq<Owner>, d: int): (r: seq<Owner>)
    ensures |r| == |owner|
    ensures forall f {:trigger r[f]} :: 0 <= f < |owner| ==> r[f] == if Held(owner[f], d, f) then Kern else owner[f]
  {
    seq(|owner|, f requires 0 <= f < |owner| => if Held(owner[f], d, f) then Kern else owner[f])
  }

  lemma {:induction false} GiveUp(mem: seq<Frame>, free: seq<int>, owner: seq<Owner>, flat: map<int, map<int, int>>,
                                  d: int)
    requires Consistent(mem, free, owner, flat) && d in flat
    ensures Consistent(mem, free, Dismantled(owner, d), flat - {d})
  {
    var owner', flat' := Dismantled(owner, d), flat - {d};
    forall k | 0 <= k < |free| ensures FreeAt(free, owner', k) {
      assert FreeAt(free, owner, k);
    }
    forall g | 0 <= g < |owner| ensures FrameOk(mem, free, owner', flat', g) {
      assert FrameOk(mem, free, owner, flat, g);
    }
    forall e, y | e in flat' && 0 <= y < ENTRIES ensures DirOk(mem, owner', e, y) {
      assert DirOk(mem, owner, e, y);
    }
    forall e, w | e in flat' ensures PageOk(mem, owner', flat'[e], e, w) {
      assert PageOk(mem, owner, flat[e], e, w);
    }
  }
}
