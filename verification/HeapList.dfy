/** The free list of umalloc.c as values: headers at unit addresses, linked by ptr, sized by size. */
module HeapList {
  /** What the allocator does not store: the free list in address order starting at base, the live
      and the free blocks, and for every unit of memory the block it lies in. */
  datatype Layout = Layout(list: seq<int>, live: set<int>, free: set<int>, home: map<int, int>)

  ghost function Next(n: nat, k: nat): nat {
    if k + 1 == n then 0 else k + 1
  }

  /** One cycle through base, in address order with a single wrap. */
  ghost predicate Cycle(base: int, ptr: map<int, int>, list: seq<int>) {
    && |list| > 0 && list[0] == base
    && (forall i, j :: 0 <= i < j < |list| ==> list[i] < list[j])
    && (forall k {:trigger ptr[list[k]]} {:trigger list[k] in ptr} :: 0 <= k < |list| ==>
          list[k] in ptr && ptr[list[k]] == list[Next(|list|, k)])
  }

  /** Blocks are non-empty, lie above base, and each unit obtained from the system is in exactly one. */
  ghost predicate Partition(base: int, size: map<int, int>, g: Layout) {
    && g.live !! g.free
    && (forall a {:trigger a in g.live} {:trigger a in g.free} :: a in g.live + g.free ==>
          base < a && a in size && size[a] > 0)
    && (forall x {:trigger g.home[x]} :: x in g.home ==>
      g.home[x] in g.live + g.free && g.home[x] <= x < g.home[x] + size[g.home[x]])
    && (forall a, x {:trigger Within(size, a, x)} :: a in g.live + g.free && Within(size, a, x) ==>
          x in g.home && g.home[x] == a)
  }

  ghost predicate Within(size: map<int, int>, a: int, x: int) {
    a in size && a <= x < a + size[a]
  }

  /** The list holds base and exactly the free blocks. */
  ghost predicate Lists(base: int, size: map<int, int>, g: Layout) {
    && base in size && size[base] == 0
    && (forall k {:trigger g.list[k]} :: 0 < k < |g.list| ==> g.list[k] in g.free)
    && (forall a {:trigger a in g.free} :: a in g.free ==> a in g.list)
  }

  ghost predicate Heap(base: int, ptr: map<int, int>, size: map<int, int>, g: Layout) {
    Cycle(base, ptr, g.list) && Partition(base, size, g) && Lists(base, size, g)
  }

  /** No two free blocks touch. */
  ghost predicate Coalesced(size: map<int, int>, list: seq<int>) {
    forall k {:trigger size[list[k]]} {:trigger list[k] in size} :: 0 < k < |list| - 1 ==>
      list[k] in size && list[k] + size[list[k]] < list[k + 1]
  }

  /** Two different blocks do not overlap. */
  lemma {:induction false} Disjoint(base: int, ptr: map<int, int>, size: map<int, int>, g: Layout, a: int, b: int)
    requires Heap(base, ptr, size, g) && a in g.live + g.free && b in g.live + g.free && a < b
    ensures a + size[a] <= b
  {
    assert Within(size, b, b);
    if b < a + size[a] {
      assert Within(size, a, b);
    }
  }

  ghost function Inserted(list: seq<int>, k: nat, b: int): (l: seq<int>)
    requires k < |list|
    ensures |l| == |list| + 1
    ensures forall j {:trigger l[j]} :: 0 <= j < |l| ==>
      l[j] == if j <= k then list[j] else if j == k + 1 then b else list[j - 1]
  {
    list[..k + 1] + [b] + list[k + 1..]
  }

  lemma {:induction false} InsertedHolds(list: seq<int>, k: nat, b: int, a: int)
    requires k < |list| && (a in list || a == b)
    ensures a in Inserted(list, k, b)
  {
    if a in list {
      var j :| 0 <= j < |list| && list[j] == a;
      assert Inserted(list, k, b)[if j <= k then j else j + 1] == a;
    } else {
      assert Inserted(list, k, b)[k + 1] == a;
    }
  }

  ghost function Removed(list: seq<int>, k: nat): (l: seq<int>)
    requires k < |list|
    ensures |l| == |list| - 1
    ensures forall j {:trigger l[j]} :: 0 <= j < |l| ==> l[j] == if j < k then list[j] else list[j + 1]
  {
    list[..k] + list[k + 1..]
  }

  lemma {:induction false} RemovedHolds(list: seq<int>, k: nat, a: int)
    requires k < |list| && a in list && a != list[k]
    ensures a in Removed(list, k)
  {
    var j :| 0 <= j < |list| && list[j] == a;
    assert Removed(list, k)[if j < k then j else j - 1] == a;
  }

  lemma {:induction false} CycleInsert(base: int, ptr: map<int, int>, list: seq<int>, k: nat, b: int)
    requires Cycle(base, ptr, list) && k < |list| && list[k] < b && (k + 1 < |list| ==> b < list[k + 1])
    ensures Cycle(base, ptr[b := ptr[list[k]]][list[k] := b], Inserted(list, k, b))
  {
    hide Inserted;
    var l := Inserted(list, k, b);
    assert forall j {:trigger list[j]} :: 0 <= j < |list| ==>
      if j <= k then list[j] <= list[k] < b else list[j] >= list[k + 1] > b;
    var ptr' := ptr[b := ptr[list[k]]][list[k] := b];
    forall j | 0 <= j < |l| ensures l[j] in ptr' && ptr'[l[j]] == l[Next(|l|, j)] {
      if j <= k {
        assert ptr[list[j]] == list[Next(|list|, j)];
      } else if j == k + 1 {
        assert ptr[list[k]] == list[Next(|list|, k)];
      } else {
        assert ptr[list[j - 1]] == list[Next(|list|, j - 1)];
      }
    }
  }

  lemma {:induction false} CycleRemove(base: int, ptr: map<int, int>, list: seq<int>, k: nat)
    requires Cycle(base, ptr, list) && 0 < k < |list|
    ensures Cycle(base, ptr[list[k - 1] := ptr[list[k]]], Removed(list, k))
  {
    var l := Removed(list, k);
    var ptr' := ptr[list[k - 1] := ptr[list[k]]];
    forall j | 0 <= j < |l| ensures l[j] in ptr' && ptr'[l[j]] == l[Next(|l|, j)] {
      assert j < k - 1 ==> ptr[list[j]] == list[Next(|list|, j)];
      assert j >= k - 1 ==> ptr[list[j + 1]] == list[Next(|list|, j + 1)];
    }
  }

  /** A live block becomes the free block behind position k; touching neighbours are not merged yet. */
  lemma {:induction false} Insert(base: int, ptr: map<int, int>, size: map<int, int>, g: Layout, k: nat, b: int)
    requires Heap(base, ptr, size, g) && b in g.live && k < |g.list| && g.list[k] < b
    requires k + 1 < |g.list| ==> b < g.list[k + 1]
    ensures var p := g.list[k];
      Heap(base, ptr[b := ptr[p]][p := b], size,
           g.(list := Inserted(g.list, k, b), live := g.live - {b}, free := g.free + {b}))
  {
    hide Inserted;
    CycleInsert(base, ptr, g.list, k, b);
    var g' := g.(list := Inserted(g.list, k, b), live := g.live - {b}, free := g.free + {b});
    assert g'.live + g'.free == g.live + g.free;
    forall a | a in g'.free ensures a in g'.list {
      InsertedHolds(g.list, k, b, a);
    }
  }

  function Relabel(home: map<int, int>, from: int, to: int): map<int, int> {
    map x | x in home :: if home[x] == from then to else home[x]
  }

  /** The free blocks at positions k and k + 1 touch and become one. */
  lemma {:induction false} Merge(base: int, ptr: map<int, int>, size: map<int, int>, g: Layout, k: nat)
    requires Heap(base, ptr, size, g) && 0 < k < |g.list| - 1
    requires g.list[k] + size[g.list[k]] == g.list[k + 1]
    ensures var p, q := g.list[k], g.list[k + 1];
      Heap(base, ptr[p := ptr[q]], size[p := size[p] + size[q]],
           g.(list := Removed(g.list, k + 1), free := g.free - {q}, home := Relabel(g.home, q, p)))
  {
    hide Removed;
    var p, q := g.list[k], g.list[k + 1];
    CycleRemove(base, ptr, g.list, k + 1);
    var size' := size[p := size[p] + size[q]];
    var g' := g.(list := Removed(g.list, k + 1), free := g.free - {q}, home := Relabel(g.home, q, p));
    forall a, x | a in g'.live + g'.free && Within(size', a, x) ensures x in g'.home && g'.home[x] == a {
      if a == p {
        assert Within(size, p, x) || Within(size, q, x);
      } else {
        assert Within(size, a, x);
      }
    }
    forall a | a in g'.free ensures a in g'.list {
      RemovedHolds(g.list, k + 1, a);
    }
  }

  /** A free block of the right size leaves the list. */
  lemma {:induction false} TakeWhole(base: int, ptr: map<int, int>, size: map<int, int>, g: Layout, k: nat)
    requires Heap(base, ptr, size, g) && 0 < k < |g.list|
    ensures var a := g.list[k];
      Heap(base, ptr[g.list[k - 1] := ptr[a]], size,
           g.(list := Removed(g.list, k), live := g.live + {a}, free := g.free - {a}))
  {
    hide Removed;
    CycleRemove(base, ptr, g.list, k);
    var g' := g.(list := Removed(g.list, k), live := g.live + {g.list[k]}, free := g.free - {g.list[k]});
    assert g'.live + g'.free == g.live + g.free;
    forall a | a in g'.free ensures a in g'.list {
      RemovedHolds(g.list, k, a);
    }
  }

  /** The last n units of block a become the block q. */
  function Split(home: map<int, int>, a: int, q: int): map<int, int> {
    map x | x in home :: if home[x] == a && x >= q then q else home[x]
  }

  /** The tail of a larger free block becomes live; the rest stays where it is in the list. */
  lemma {:induction false} TakeTail(base: int, ptr: map<int, int>, size: map<int, int>, g: Layout, k: nat, n: nat)
    requires Heap(base, ptr, size, g) && 0 < k < |g.list| && 0 < n < size[g.list[k]]
    ensures var a := g.list[k];
      var q := a + size[a] - n;
      && q !in g.live + g.free && q != base
      && Heap(base, ptr, size[a := size[a] - n][q := n], g.(live := g.live + {q}, home := Split(g.home, a, q)))
  {
    var a := g.list[k];
    var q := a + size[a] - n;
    assert Within(size, a, q);
    if q in g.live + g.free {
      assert Within(size, q, q);
    }
    var size' := size[a := size[a] - n][q := n];
    var g' := g.(live := g.live + {q}, home := Split(g.home, a, q));
    forall b, x | b in g'.live + g'.free && Within(size', b, x) ensures x in g'.home && g'.home[x] == b {
      assert Within(size, if b == q then a else b, x);
    }
  }

  function Fresh(b: int, n: nat): (m: map<int, int>)
    ensures forall x :: x in m <==> b <= x < b + n
    ensures forall x :: x in m ==> m[x] == b
  {
    if n == 0 then map[] else Fresh(b, n - 1)[b + n - 1 := b]
  }

  /** Fresh memory above everything else enters as a live block. */
  lemma {:induction false} Grow(base: int, ptr: map<int, int>, size: map<int, int>, g: Layout, b: int, n: nat)
    requires Heap(base, ptr, size, g) && n > 0 && b > base
    requires forall x :: x in g.home ==> x < b
    ensures b !in g.live + g.free
    ensures Heap(base, ptr, size[b := n], g.(live := g.live + {b}, home := g.home + Fresh(b, n)))
  {
    if b in g.live + g.free {
      assert Within(size, b, b);
    }
    var size' := size[b := n];
    var g' := g.(live := g.live + {b}, home := g.home + Fresh(b, n));
    forall a, x | a in g'.live + g'.free && Within(size', a, x) ensures x in g'.home && g'.home[x] == a {
      if a != b {
        assert Within(size, a, x);
      }
    }
  }

  // ----- free as a whole -----

  /** The layout after freeing block b behind position k, merged with the neighbours it touches. */
  ghost function FreedLayout(ptr: map<int, int>, size: map<int, int>, g: Layout, k: nat, b: int): Layout
    requires k < |g.list| && b in size && g.list[k] in size
  {
    var p := g.list[k];
    var g1 := g.(list := Inserted(g.list, k, b), live := g.live - {b}, free := g.free + {b});
    var g2 := if k + 1 < |g.list| && b + size[b] == g.list[k + 1] then
        g1.(list := Removed(g1.list, k + 2), free := g1.free - {g.list[k + 1]},
            home := Relabel(g1.home, g.list[k + 1], b))
      else g1;
    if p + size[p] == b then
      g2.(list := Removed(g2.list, k + 1), free := g2.free - {b}, home := Relabel(g2.home, b, p))
    else g2
  }

  /** Positions around a block that is about to be freed. */
  lemma {:induction false} Neighbours(base: int, ptr: map<int, int>, size: map<int, int>, g: Layout, k: nat, b: int)
    requires Heap(base, ptr, size, g) && b in g.live && k < |g.list| && g.list[k] < b
    requires (k + 1 < |g.list| ==> b < g.list[k + 1])
    ensures g.list[k] in size && b in size && g.list[k] in ptr && ptr[g.list[k]] == g.list[Next(|g.list|, k)]
    ensures g.list[k] + size[g.list[k]] <= b && (g.list[k] + size[g.list[k]] == b ==> k > 0)
    ensures k + 1 < |g.list| ==> g.list[k + 1] in g.free && g.list[k + 1] in size && b + size[b] <= g.list[k + 1]
    ensures k + 1 == |g.list| ==> ptr[g.list[k]] == base < b
    ensures size[b] > 0
  {
    if k > 0 {
      assert g.list[k] in g.free;
      Disjoint(base, ptr, size, g, g.list[k], b);
    }
    if k + 1 < |g.list| {
      Disjoint(base, ptr, size, g, b, g.list[k + 1]);
    }
  }

  /** free's four assignments, whichever neighbours touch, keep the heap and coalesce it. */
  lemma {:induction false} FreeBlock(base: int, ptr: map<int, int>, size: map<int, int>, g: Layout, k: nat, b: int)
    requires Heap(base, ptr, size, g) && Coalesced(size, g.list) && b in g.live && k < |g.list| && g.list[k] < b
    requires k + 1 < |g.list| ==> b < g.list[k + 1]
    requires g.list[k] in size && b in size && g.list[k] in ptr
    requires b + size[b] == ptr[g.list[k]] ==> ptr[g.list[k]] in ptr && ptr[g.list[k]] in size
    ensures var p := g.list[k];
      var n := ptr[p];
      var ptr1 := if b + size[b] == n then ptr[b := ptr[n]] else ptr[b := n];
      var size1 := if b + size[b] == n then size[b := size[b] + size[n]] else size;
      var ptr2 := if p + size[p] == b then ptr1[p := ptr1[b]] else ptr1[p := b];
      var size2 := if p + size[p] == b then size1[p := size1[p] + size1[b]] else size1;
      Heap(base, ptr2, size2, FreedLayout(ptr, size, g, k, b))
  {
    hide Inserted, Removed, Relabel, Partition, Lists, Cycle;
    Neighbours(base, ptr, size, g, k, b);
    var p, n := g.list[k], ptr[g.list[k]];
    Insert(base, ptr, size, g, k, b);
    var pi, gi := ptr[b := n][p := b], g.(list := Inserted(g.list, k, b), live := g.live - {b}, free := g.free + {b});
    var pm, sm, gm := pi, size, gi;
    if b + size[b] == n {
      Merge(base, pi, size, gi, k + 1);
      pm, sm := pi[b := pi[n]], size[b := size[b] + size[n]];
      gm := gi.(list := Removed(gi.list, k + 2), free := gi.free - {n}, home := Relabel(gi.home, n, b));
    }
    var ptr1 := if b + size[b] == n then ptr[b := ptr[n]] else ptr[b := n];
    assert pm == ptr1[p := b];
    if p + size[p] == b {
      Merge(base, pm, sm, gm, k);
      assert pm[p := pm[b]] == ptr1[p := ptr1[b]];
    }
  }

  /** The sizes that free leaves behind. */
  ghost function FreedSize(ptr: map<int, int>, size: map<int, int>, g: Layout, k: nat, b: int): map<int, int>
    requires k < |g.list| && b in size && g.list[k] in size && g.list[k] in ptr
    requires b + size[b] == ptr[g.list[k]] ==> ptr[g.list[k]] in size
  {
    var p, n := g.list[k], ptr[g.list[k]];
    var size1 := if b + size[b] == n then size[b := size[b] + size[n]] else size;
    if p + size[p] == b then size1[p := size1[p] + size1[b]] else size1
  }

  /** The list after a free: b goes in, takes its successor's place, or adds to its predecessor. */
  lemma {:induction false} FreedList(ptr: map<int, int>, size: map<int, int>, g: Layout, k: nat, b: int)
    requires k < |g.list| && b in size && g.list[k] in size
    ensures var left, right := g.list[k] + size[g.list[k]] == b, k + 1 < |g.list| && b + size[b] == g.list[k + 1];
      FreedLayout(ptr, size, g, k, b).list ==
        if left && right then Removed(g.list, k + 1)
        else if left then g.list
        else if right then g.list[k + 1 := b]
        else Inserted(g.list, k, b)
  {
    hide Inserted, Removed, Relabel;
  }

  lemma {:induction false} FreeCoalesces(base: int, ptr: map<int, int>, size: map<int, int>, g: Layout, k: nat, b: int)
    requires Heap(base, ptr, size, g) && Coalesced(size, g.list) && b in g.live && k < |g.list| && g.list[k] < b
    requires k + 1 < |g.list| ==> b < g.list[k + 1]
    requires g.list[k] in size && b in size && g.list[k] in ptr
    requires b + size[b] == ptr[g.list[k]] ==> ptr[g.list[k]] in size
    ensures Coalesced(FreedSize(ptr, size, g, k, b), FreedLayout(ptr, size, g, k, b).list)
  {
    hide Inserted, Removed, FreedLayout, Heap, FreedSize;
    Neighbours(base, ptr, size, g, k, b);
    FreedList(ptr, size, g, k, b);
    FreedSizes(base, ptr, size, g, k, b);
    var l, size' := FreedLayout(ptr, size, g, k, b).list, FreedSize(ptr, size, g, k, b);
    var left, right := g.list[k] + size[g.list[k]] == b, k + 1 < |g.list| && b + size[b] == g.list[k + 1];
    forall j | 0 < j < |l| - 1 ensures l[j] in size' && l[j] + size'[l[j]] < l[j + 1] {
      var i := if j <= k then j else j - 1 + (if left then 1 else 0) + (if right then 1 else 0);
      if j == k + 1 && !left {
        assert right && k + 2 < |g.list| ==>
          g.list[k + 1] in size && g.list[k + 1] + size[g.list[k + 1]] < g.list[k + 2];
      } else {
        assert g.list[i] == l[j];
        assert (0 < i < |g.list| - 1 ==> g.list[i] in size && g.list[i] + size[g.list[i]] < g.list[i + 1]);
        assert i == k && left && right && k + 2 < |g.list| ==>
          g.list[k + 1] in size && g.list[k + 1] + size[g.list[k + 1]] < g.list[k + 2];
      }
    }
  }

  /** Only b and its predecessor change size. */
  lemma {:induction false} FreedSizes(base: int, ptr: map<int, int>, size: map<int, int>, g: Layout, k: nat, b: int)
    requires Heap(base, ptr, size, g) && b in g.live && k < |g.list| && g.list[k] < b
    requires k + 1 < |g.list| ==> b < g.list[k + 1]
    requires g.list[k] in size && b in size && g.list[k] in ptr
    requires b + size[b] == ptr[g.list[k]] ==> ptr[g.list[k]] in size
    ensures var left, right := g.list[k] + size[g.list[k]] == b, k + 1 < |g.list| && b + size[b] == g.list[k + 1];
      var size' := FreedSize(ptr, size, g, k, b);
      && size.Keys <= size'.Keys
      && size'[b] == size[b] + (if right then size[g.list[k + 1]] else 0)
      && size'[g.list[k]] == size[g.list[k]] + (if left then size'[b] else 0)
      && (forall j {:trigger size'[g.list[j]]} :: 0 <= j < |g.list| && j != k && g.list[j] in size ==>
            size'[g.list[j]] == size[g.list[j]])
      && (k + 1 < |g.list| ==> size[g.list[k + 1]] > 0)
  {
    Neighbours(base, ptr, size, g, k, b);
  }

  /** Blocks that stay live keep their size. */
  lemma {:induction false} FreedLive(base: int, ptr: map<int, int>, size: map<int, int>, g: Layout, k: nat, b: int,
                                     a: int)
    requires Heap(base, ptr, size, g) && b in g.live && k < |g.list| && a in g.live && a != b
    requires g.list[k] in size && b in size && g.list[k] in ptr
    requires b + size[b] == ptr[g.list[k]] ==> ptr[g.list[k]] in size
    ensures a in size && a in FreedSize(ptr, size, g, k, b) && FreedSize(ptr, size, g, k, b)[a] == size[a]
  {
    assert k > 0 ==> g.list[k] in g.free;
  }

  /** The freed units end in b, or in the block before it. */
  lemma {:induction false} FreedHome(ptr: map<int, int>, size: map<int, int>, g: Layout, k: nat, b: int)
    requires k < |g.list| && b in size && g.list[k] in size && b in g.home && g.home[b] == b
    requires k + 1 < |g.list| ==> b < g.list[k + 1]
    ensures var g' := FreedLayout(ptr, size, g, k, b);
      && g'.live == g.live - {b} && g'.home.Keys == g.home.Keys && b in g'.home
      && g'.home[b] == if g.list[k] + size[g.list[k]] == b then g.list[k] else b
  {
    hide Inserted, Removed;
  }

  /** Where the freed units end up, and what stays the same. */
  lemma {:induction false} FreeKeeps(base: int, ptr: map<int, int>, size: map<int, int>, g: Layout, k: nat, b: int)
    requires Heap(base, ptr, size, g) && b in g.live && k < |g.list| && g.list[k] < b
    requires k + 1 < |g.list| ==> b < g.list[k + 1]
    requires g.list[k] in size && b in size && g.list[k] in ptr
    requires b + size[b] == ptr[g.list[k]] ==> ptr[g.list[k]] in size
    ensures var g', size' := FreedLayout(ptr, size, g, k, b), FreedSize(ptr, size, g, k, b);
      && g'.live == g.live - {b} && g'.home.Keys == g.home.Keys
      && (forall a :: a in g'.live ==> a in size && a in size' && size'[a] == size[a])
      && k < |g'.list| && g'.list[k] == g.list[k]
      && b in g'.home && g'.home[b] in size' && size'[g'.home[b]] >= size[b]
      && (if g.list[k] + size[g.list[k]] == b then k > 0 && g'.home[b] == g.list[k]
          else k + 1 < |g'.list| && g'.home[b] == g'.list[k + 1] == b)
  {
    hide FreedLayout, FreedSize, Inserted, Removed;
    Neighbours(base, ptr, size, g, k, b);
    FreedSizes(base, ptr, size, g, k, b);
    FreedList(ptr, size, g, k, b);
    assert Within(size, b, b);
    FreedHome(ptr, size, g, k, b);
    forall a | a in g.live - {b}
      ensures a in size && a in FreedSize(ptr, size, g, k, b) && FreedSize(ptr, size, g, k, b)[a] == size[a]
    {
      FreedLive(base, ptr, size, g, k, b, a);
    }
    assert k > 0 ==> g.list[k] in g.free;
  }

  // ----- malloc's two ways to take a block -----

  lemma {:induction false} TakeWholeCoalesced(base: int, ptr: map<int, int>, size: map<int, int>, g: Layout, k: nat)
    requires Heap(base, ptr, size, g) && Coalesced(size, g.list) && 0 < k < |g.list|
    ensures Coalesced(size, Removed(g.list, k))
  {
    hide Removed, Partition;
    var l := Removed(g.list, k);
    forall j | 0 < j < |l| - 1 ensures l[j] in size && l[j] + size[l[j]] < l[j + 1] {
      var i := if j < k then j else j + 1;
      assert g.list[i] in size && g.list[i] + size[g.list[i]] < g.list[i + 1];
    }
  }

  lemma {:induction false} TakeTailCoalesced(base: int, ptr: map<int, int>, size: map<int, int>, g: Layout, k: nat,
                                             n: nat)
    requires Heap(base, ptr, size, g) && Coalesced(size, g.list) && 0 < k < |g.list| && g.list[k] in size
    requires 0 < n < size[g.list[k]]
    requires g.list[k] + size[g.list[k]] - n !in g.list
    ensures var q := g.list[k] + size[g.list[k]] - n;
      Coalesced(size[g.list[k] := size[g.list[k]] - n][q := n], g.list)
  {
    hide Partition;
    var size' := size[g.list[k] := size[g.list[k]] - n][g.list[k] + size[g.list[k]] - n := n];
    forall j | 0 < j < |g.list| - 1 ensures g.list[j] in size' && g.list[j] + size'[g.list[j]] < g.list[j + 1] {
      assert g.list[j] in size && g.list[j] + size[g.list[j]] < g.list[j + 1];
    }
  }

  // ----- conservation -----

  ghost function Pick(s: set<int>): (a: int)
    requires exists a :: a in s
    ensures a in s
  {
    var a :| a in s;
    a
  }

  /** The units of a set of blocks, added up. */
  ghost function Sum(size: map<int, int>, s: set<int>): int
    requires s <= size.Keys
  {
    if exists a :: a in s then size[Pick(s)] + Sum(size, s - {Pick(s)}) else 0
  }

  ghost function UnitsIn(g: Layout, s: set<int>): set<int> {
    set x | x in g.home && g.home[x] in s
  }

  ghost function Interval(a: int, n: nat): (s: set<int>)
    ensures |s| == n && forall x :: x in s <==> a <= x < a + n
  {
    if n == 0 then {} else Interval(a, n - 1) + {a + n - 1}
  }

  lemma {:induction false} SumIsUnits(base: int, ptr: map<int, int>, size: map<int, int>, g: Layout, s: set<int>)
    requires Heap(base, ptr, size, g) && s <= g.live + g.free && s <= size.Keys
    ensures Sum(size, s) == |UnitsIn(g, s)|
  {
    hide Cycle, Lists;
    if !exists a :: a in s {
      assert UnitsIn(g, s) == {};
    } else {
      var a := Pick(s);
      SumIsUnits(base, ptr, size, g, s - {a});
      assert UnitsIn(g, s) == UnitsIn(g, s - {a}) + UnitsIn(g, {a});
      assert UnitsIn(g, s - {a}) !! UnitsIn(g, {a});
      forall x ensures x in UnitsIn(g, {a}) <==> a <= x < a + size[a] {
        assert Within(size, a, x) <==> a <= x < a + size[a];
      }
      assert UnitsIn(g, {a}) == Interval(a, size[a]);
    }
  }

  /** Free units plus live units are the units obtained from the system. */
  lemma {:induction false} Conservation(base: int, ptr: map<int, int>, size: map<int, int>, g: Layout)
    requires Heap(base, ptr, size, g)
    ensures g.live <= size.Keys && g.free <= size.Keys && Sum(size, g.live) + Sum(size, g.free) == |g.home.Keys|
  {
    hide Cycle, Lists;
    forall a | a in g.live + g.free ensures a in size {
    }
    SumIsUnits(base, ptr, size, g, g.live);
    SumIsUnits(base, ptr, size, g, g.free);
    forall x | x in g.home ensures g.home[x] in g.live + g.free {
    }
    assert UnitsIn(g, g.live) + UnitsIn(g, g.free) == g.home.Keys;
    assert UnitsIn(g, g.live) !! UnitsIn(g, g.free);
  }
}
