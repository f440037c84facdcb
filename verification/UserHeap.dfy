/** malloc and free of umalloc.c. Addresses count header-sized units; 0 is the null pointer. */
module UserHeap {
  import opened HeapList

  const HEADER := 8     // sizeof(Header)
  const NALLOC := 4096  // morecore's minimum

  /** Steps along a cycle of n nodes from position k to position t. */
  ghost function Distance(n: nat, k: nat, t: nat): nat
    requires k < n && t < n
  {
    if k <= t then t - k else n - k + t
  }

  /** The position after which an address above base belongs. */
  lemma {:induction false} PositionOf(list: seq<int>, b: int) returns (t: nat)
    requires |list| > 0 && list[0] < b && b !in list && forall i, j :: 0 <= i < j < |list| ==> list[i] < list[j]
    ensures t < |list| && list[t] < b && (t + 1 < |list| ==> b < list[t + 1])
    ensures forall j :: 0 <= j < |list| && j != t ==> (if j < t then list[j] < list[j + 1] <= list[t] else b < list[j])
  {
    t := 0;
    while t + 1 < |list| && list[t + 1] < b
      invariant t < |list| && list[t] < b
    {
      t := t + 1;
    }
  }

  class Allocator {
    const base: int
    var freep: int
    var ptr: map<int, int>
    var size: map<int, int>

    ghost var g: Layout
    ghost var at: nat      // freep's position in the list

    constructor (base: int)
      requires base > 0
      ensures Valid() && this.base == base && freep == 0 && g.live == {} && g.home == map[]
    {
      this.base, freep, ptr, size := base, 0, map[], map[];
      g, at := Layout([], {}, {}, map[]), 0;
    }

    /** Before the first malloc there is no list; afterwards it is one coalesced cycle. */
    ghost predicate Valid()
      reads this
    {
      base > 0 &&
      if freep == 0 then g == Layout([], {}, {}, map[])
      else Heap(base, ptr, size, g) && Coalesced(size, g.list) && at < |g.list| && g.list[at] == freep
    }

    /** free's search: the list node after which block b belongs. It stops within one lap. */
    method Search(b: int) returns (p: int, ghost k: nat)
      requires Valid() && freep != 0 && b in g.live
      ensures k < |g.list| && p == g.list[k] && p < b && (k + 1 < |g.list| ==> b < g.list[k + 1])
    {
      hide Partition, Lists, Coalesced;
      ListFacts(base, ptr, size, g, b);
      ghost var t := PositionOf(g.list, b);
      p, k := freep, at;
      while !(b > p && b < ptr[p])
        invariant k < |g.list| && p == g.list[k] && p in ptr && ptr[p] == g.list[Next(|g.list|, k)]
        decreases Distance(|g.list|, k, t)
      {
        if p >= ptr[p] && (b > p || b < ptr[p]) {
          break;
        }
        k := Next(|g.list|, k);
        p := ptr[p];
        assert p in ptr && ptr[p] == g.list[Next(|g.list|, k)];
      }
    }

    /** free. */
    method Free(ap: int)
      requires Valid() && ap - 1 in g.live
      modifies this
      ensures Valid() && freep != 0
      ensures g.live == old(g.live) - {ap - 1} && g.home.Keys == old(g.home).Keys
      ensures forall a :: a in g.live ==> a in size && a in old(size) && size[a] == old(size)[a]
      ensures ap - 1 in old(size) && (Big(at, old(size)[ap - 1]) || Big(Next(|g.list|, at), old(size)[ap - 1]))
    {
      hide Heap, Coalesced, FreedLayout;
      var bp := ap - 1;
      var p;
      ghost var k;
      p, k := Search(bp);
      Neighbours(base, ptr, size, g, k, bp);
      NextInside(base, ptr, size, g, k);
      FreeBlock(base, ptr, size, g, k, bp);
      FreeCoalesces(base, ptr, size, g, k, bp);
      FreeKeeps(base, ptr, size, g, k, bp);
      g, at := FreedLayout(ptr, size, g, k, bp), k;
      if bp + size[bp] == ptr[p] {
        size, ptr := size[bp := size[bp] + size[ptr[p]]], ptr[bp := ptr[ptr[p]]];
      } else {
        ptr := ptr[bp := ptr[p]];
      }
      if p + size[p] == bp {
        size, ptr := size[p := size[p] + size[bp]], ptr[p := ptr[bp]];
      } else {
        ptr := ptr[p := bp];
      }
      freep := p;
    }

    /** Memory that sbrk may hand out: none, or fresh memory above everything obtained so far. */
    ghost predicate Grantable(grant: int)
      reads this
    {
      grant == -1 || (grant > base && forall x :: x in g.home ==> x < grant)
    }

    /** morecore, with sbrk's answer: the new memory enters the heap through free. */
    method MoreCore(nunits: nat, grant: int) returns (p: int)
      requires Valid() && freep != 0 && nunits > 0 && Grantable(grant)
      modifies this
      ensures Valid() && freep != 0
      ensures p == if grant == -1 then 0 else freep
      ensures grant == -1 ==> unchanged(this)
      ensures grant != -1 ==>
        g.live == old(g.live) && g.home.Keys == old(g.home).Keys + Fresh(grant, MoreUnits(nunits)).Keys
      ensures grant != -1 ==> Big(at, nunits) || Big(Next(|g.list|, at), nunits)
      ensures forall a :: a in g.live ==> a in size && a in old(size) && size[a] == old(size)[a]
    {
      hide Heap, Coalesced, Fresh;
      LiveSized(base, ptr, size, g);
      var nu := MoreUnits(nunits);
      if grant == -1 {
        return 0;
      }
      var hp := grant;
      Grow(base, ptr, size, g, hp, nu);
      GrowCoalesced(base, ptr, size, g, hp, nu);
      size := size[hp := nu];
      g := g.(live := g.live + {hp}, home := g.home + Fresh(hp, nu));
      Free(hp + 1);
      p := freep;
    }

    /** malloc's exit: take the block p behind prevp, whole or its tail. */
    method Take(prevp: int, p: int, nunits: nat, ghost k: nat) returns (b: int)
      requires Valid() && freep != 0 && nunits > 0 && k + 1 < |g.list| && prevp == g.list[k] && p == g.list[k + 1]
      requires Big(k + 1, nunits)
      modifies this
      ensures Valid() && freep != 0
      ensures b !in old(g.live) && g.live == old(g.live) + {b} && b in size && size[b] == nunits
      ensures g.home.Keys == old(g.home).Keys
      ensures forall a :: a in old(g.live) ==> a in size && a in old(size) && size[a] == old(size)[a]
    {
      hide Heap, Coalesced, Removed, Split;
      LinkAt(base, ptr, size, g, k);
      LinkAt(base, ptr, size, g, k + 1);
      LiveSized(base, ptr, size, g);
      NextInside(base, ptr, size, g, k);
      b := p;
      if size[p] == nunits {
        TakeWhole(base, ptr, size, g, k + 1);
        TakeWholeCoalesced(base, ptr, size, g, k + 1);
        g := g.(list := Removed(g.list, k + 1), live := g.live + {p}, free := g.free - {p});
        ptr := ptr[prevp := ptr[p]];
      } else {
        TakeTail(base, ptr, size, g, k + 1, nunits);
        NotListed(base, ptr, size, g, p + size[p] - nunits);
        TakeTailCoalesced(base, ptr, size, g, k + 1, nunits);
        SplitKeys(g.home, p, p + size[p] - nunits);
        size := size[p := size[p] - nunits];
        b := p + size[p];
        g := g.(live := g.live + {b}, home := Split(g.home, p, b));
        size := size[b := nunits];
      }
      freep := prevp;
      at := k;
    }

    /** malloc, with the answer sbrk would give. The result's block is new and of the requested
        size; at most one morecore happens, and only when no free block is large enough. */
    method Malloc(nbytes: nat, grant: int) returns (r: int, ghost calls: nat)
      requires Valid() && Grantable(grant)
      modifies this
      ensures Valid() && calls <= 1
      ensures r == 0 ==> calls == 1 && grant == -1 && g.live == old(g.live)
      ensures r != 0 ==>
        && r - 1 !in old(g.live) && g.live == old(g.live) + {r - 1} && r - 1 in size
        && size[r - 1] == Units(nbytes)
      ensures forall a :: a in old(g.live) ==> a in size && a in old(size) && size[a] == old(size)[a]
      ensures g.home.Keys == old(g.home).Keys +
        if calls == 1 && grant != -1 then Fresh(grant, MoreUnits(Units(nbytes))).Keys else {}
      ensures calls == 1 ==> forall a :: a in old(g.free) ==> a in old(size) && old(size)[a] < Units(nbytes)
    {
      hide Heap, Coalesced, Fresh, Units, Distance, Allocator.Small;
      var nunits := Units(nbytes);
      calls := 0;
      if freep == 0 {
        EmptyHeap(base, ptr, size);
        ptr, freep := ptr[base := base], base;
        size := size[base := 0];
        g, at := Layout([base], {}, {}, map[]), 0;
      }
      LiveSized(base, ptr, size, g);
      ghost var start := g;
      var prevp := freep;
      ghost var k: nat := at;
      LinkAt(base, ptr, size, g, k);
      var p := ptr[prevp];
      ghost var target: nat := 0;
      LapStart(nunits);
      while true
        invariant Valid() && freep != 0 && k < |g.list| && prevp == g.list[k] && p == g.list[Next(|g.list|, k)]
        invariant p in size
        invariant calls <= 1 && g.live == old(g.live) == start.live
        invariant forall a :: a in g.live ==> a in size && a in old(size) && size[a] == old(size)[a]
        invariant |g.list| > 0 && g.list[0] in size && size[g.list[0]] == 0
        invariant calls == 0 ==>
          && g == start && g.free == old(g.free)
          && (forall a :: a in g.free ==> a in size && a in old(size) && size[a] == old(size)[a])
        invariant calls == 0 ==> g.home.Keys == old(g.home).Keys && Grantable(grant) && Small(Next(|g.list|, k), nunits)
        invariant calls == 1 ==> grant != -1 && g.home.Keys == old(g.home).Keys + Fresh(grant, MoreUnits(nunits)).Keys
        invariant calls == 1 ==> Big(target, nunits) && (target == at || (target == Next(|g.list|, at) && k == at))
        invariant calls == 1 ==> forall a :: a in old(g.free) ==> a in old(size) && old(size)[a] < nunits
        decreases 1 - calls, Distance(|g.list|, Next(|g.list|, k), if calls == 0 then at else target)
      {
        if size[p] >= nunits {
          var b := Take(prevp, p, nunits, k);
          r := b + 1;
          NotNull(base, ptr, size, g, b);
          return;
        }
        if p == freep {
          SamePosition(base, ptr, size, g, Next(|g.list|, k), at);
          if calls == 0 {
            AllSmall(nunits);
          }
          p := MoreCore(nunits, grant);
          calls := calls + 1;
          if p == 0 {
            r := 0;
            return;
          }
          target := if Big(at, nunits) then at else Next(|g.list|, at);
          k := at;
        } else {
          Onward(k, if calls == 0 then at else target, nunits, calls == 0);
          k := Next(|g.list|, k);
        }
        prevp := p;
        LiveSized(base, ptr, size, g);
        LinkAt(base, ptr, size, g, k);
        p := ptr[p];
      }
    }

    /** All nodes met since the lap began, before position j, are too small. */
    ghost predicate Small(j: nat, n: int)
      reads this
    {
      at < |g.list| && j < |g.list| &&
      forall i {:trigger g.list[i]} ::
        0 <= i < |g.list| && Distance(|g.list|, Next(|g.list|, at), i) < Distance(|g.list|, Next(|g.list|, at), j) ==>
        g.list[i] in size && size[g.list[i]] < n
    }

    lemma {:induction false} LapStart(n: int)
      requires at < |g.list|
      ensures Small(Next(|g.list|, at), n)
    {
    }

    /** One step on from a node that is not the target: nearer to it, with one more node seen. */
    lemma {:induction false} Onward(k: nat, t: nat, n: int, lap: bool)
      requires k < |g.list| && t < |g.list| && Next(|g.list|, k) != t
      requires lap ==>
        && t == at && Small(Next(|g.list|, k), n) && g.list[Next(|g.list|, k)] in size
        && size[g.list[Next(|g.list|, k)]] < n
      ensures var j := Next(|g.list|, k);
        && Distance(|g.list|, Next(|g.list|, j), t) < Distance(|g.list|, j, t)
        && (lap ==> Small(Next(|g.list|, j), n))
    {
    }

    lemma {:induction false} AllSmall(n: int)
      requires Valid() && freep != 0 && Small(at, n) && g.list[at] in size && size[g.list[at]] < n
      ensures forall a :: a in g.free ==> a in size && size[a] < n
    {
      forall a | a in g.free ensures a in size && size[a] < n {
        var i :| 0 <= i < |g.list| && g.list[i] == a;
        assert i != at ==> Distance(|g.list|, Next(|g.list|, at), i) < Distance(|g.list|, Next(|g.list|, at), at);
      }
    }

    /** The free block at position k has at least n units. */
    ghost predicate Big(k: nat, n: int)
      reads this
    {
      0 < k < |g.list| && g.list[k] in size && size[g.list[k]] >= n
    }
  }

  /** What morecore asks for: as much as is needed, and at least 4096 units. */
  function MoreUnits(nunits: nat): (n: nat)
    ensures n >= nunits && n >= 4096 && (n == nunits || n == 4096)
  {
    if nunits < NALLOC then NALLOC else nunits
  }

  /** Units for nbytes of payload and one header. */
  function Units(nbytes: nat): (n: nat)
    ensures n > 0 && (n - 1) * HEADER >= nbytes && (nbytes > 0 ==> (n - 2) * HEADER < nbytes)
  {
    (nbytes + HEADER - 1) / HEADER + 1
  }

  lemma {:induction false} LiveSized(base: int, ptr: map<int, int>, size: map<int, int>, g: Layout)
    requires Heap(base, ptr, size, g)
    ensures forall a :: a in g.live ==> a in size
    ensures forall a :: a in g.free ==> a in size
    ensures |g.list| > 0 && g.list[0] == base && base in size && size[base] == 0
    ensures g.live !! g.free && base !in g.live + g.free
  {
  }

  lemma {:induction false} GrowCoalesced(base: int, ptr: map<int, int>, size: map<int, int>, g: Layout, b: int, n: nat)
    requires Heap(base, ptr, size, g) && Coalesced(size, g.list) && b !in g.live + g.free && b > base
    ensures Coalesced(size[b := n], g.list)
    ensures forall a :: a in g.live ==> size[b := n][a] == size[a]
  {
    hide Cycle;
    forall k | 0 < k < |g.list| - 1 ensures g.list[k] in size && g.list[k] + size[b := n][g.list[k]] < g.list[k + 1] {
      assert g.list[k] in g.free && g.list[k] in size && g.list[k] + size[g.list[k]] < g.list[k + 1];
    }
  }

  lemma {:induction false} EmptyHeap(base: int, ptr: map<int, int>, size: map<int, int>)
    ensures Heap(base, ptr[base := base], size[base := 0], Layout([base], {}, {}, map[]))
    ensures Coalesced(size[base := 0], [base])
  {
  }

  lemma {:induction false} LinkAt(base: int, ptr: map<int, int>, size: map<int, int>, g: Layout, k: nat)
    requires Heap(base, ptr, size, g) && k < |g.list|
    ensures g.list[k] in ptr && ptr[g.list[k]] == g.list[Next(|g.list|, k)] && ptr[g.list[k]] in size
    ensures forall j :: 0 < j < |g.list| ==> g.list[j] in g.free && g.list[j] in size
  {
    assert g.list[Next(|g.list|, k)] in ptr;
  }

  lemma {:induction false} NotListed(base: int, ptr: map<int, int>, size: map<int, int>, g: Layout, q: int)
    requires Heap(base, ptr, size, g) && q !in g.live + g.free && q != base
    ensures q !in g.list
  {
    assert forall k {:trigger g.list[k]} :: 0 < k < |g.list| ==> g.list[k] in g.free;
  }

  lemma {:induction false} SplitKeys(home: map<int, int>, a: int, q: int)
    ensures Split(home, a, q).Keys == home.Keys
  {
  }

  lemma {:induction false} NotNull(base: int, ptr: map<int, int>, size: map<int, int>, g: Layout, b: int)
    requires Heap(base, ptr, size, g) && b in g.live
    ensures b > base
  {
  }

  lemma {:induction false} SamePosition(base: int, ptr: map<int, int>, size: map<int, int>, g: Layout, i: nat, j: nat)
    requires Heap(base, ptr, size, g) && i < |g.list| && j < |g.list| && g.list[i] == g.list[j]
    ensures i == j
  {
  }

  lemma {:induction false} NextInside(base: int, ptr: map<int, int>, size: map<int, int>, g: Layout, k: nat)
    requires Heap(base, ptr, size, g) && k < |g.list|
    ensures g.list[k] in ptr && ptr[g.list[k]] in ptr && ptr[g.list[k]] in size && g.list[k] >= base
  {
    var n := Next(|g.list|, k);
    assert g.list[k] in ptr && g.list[n] in ptr;
    assert n > 0 ==> g.list[n] in g.free;
  }

  lemma {:induction false} ListFacts(base: int, ptr: map<int, int>, size: map<int, int>, g: Layout, b: int)
    requires Heap(base, ptr, size, g) && b in g.live
    ensures b !in g.list && base < b
  {
    assert forall k {:trigger g.list[k]} :: 0 < k < |g.list| ==> g.list[k] in g.free;
  }
}
