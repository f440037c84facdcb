/** The priority scheduler of the user-level threads (uthread.c). A slot of the table is live when its
    thread id is not 0; class 0 is the best of the PRIORITIES classes. */
module PriorityRoundRobin {
  const MAX_UTHREADS := 64
  const PRIORITIES := 10

  datatype Thread = Thread(tid: int, priority: int)

  predicate Live(t: Thread, c: int) {
    t.tid != 0 && t.priority == c
  }

  /** The live slots of class c among the first n, in ascending order. */
  function Slots(table: seq<Thread>, c: int, n: nat): (r: seq<int>)
    requires n <= |table|
  {
    if n == 0 then [] else Slots(table, c, n - 1) + if Live(table[n - 1], c) then [n - 1] else []
  }

  ghost predicate Sorted(l: seq<int>) {
    forall j, k {:trigger l[j], l[k]} :: 0 <= j < k < |l| ==> l[j] < l[k]
  }

  /** l lists slots below n that are live in class c. */
  ghost predicate AllLive(table: seq<Thread>, c: int, n: int, l: seq<int>) {
    forall j {:trigger l[j]} :: 0 <= j < |l| ==> 0 <= l[j] < n <= |table| && Live(table[l[j]], c)
  }

  /** Slots lists each live slot of the class once, in order. */
  lemma {:induction false} SlotsSorted(table: seq<Thread>, c: int, n: nat)
    requires n <= |table|
    ensures Sorted(Slots(table, c, n)) && AllLive(table, c, n, Slots(table, c, n))
    ensures forall i {:trigger table[i]} :: 0 <= i < n && Live(table[i], c) ==> i in Slots(table, c, n)
  {
    if n > 0 {
      SlotsSorted(table, c, n - 1);
      var l := Slots(table, c, n - 1);
      if Live(table[n - 1], c) {
        OneMoreSlot(table, c, n - 1, l);
        assert Slots(table, c, n) == l + [n - 1];
      } else {
        assert Slots(table, c, n) == l;
      }
    }
  }

  lemma {:induction false} OneMoreSlot(table: seq<Thread>, c: int, n: nat, l: seq<int>)
    requires n < |table| && Sorted(l) && AllLive(table, c, n, l) && Live(table[n], c)
    ensures Sorted(l + [n]) && AllLive(table, c, n + 1, l + [n])
  {
    var l' := l + [n];
    forall j {:trigger l'[j]} | 0 <= j < |l'| ensures 0 <= l'[j] < n + 1 && Live(table[l'[j]], c) {
      assert j < |l| ==> l'[j] == l[j];
    }
    forall j, k {:trigger l'[j], l'[k]} | 0 <= j < k < |l'| ensures l'[j] < l'[k] {
      assert l'[j] == l[j] && (k < |l| ==> l'[k] == l[k]);
    }
  }

  /** How many elements of a list are at most x: where a sorted list goes on after x. */
  function UpTo(l: seq<int>, x: int): nat {
    if l == [] then 0 else UpTo(l[..|l| - 1], x) + if l[|l| - 1] <= x then 1 else 0
  }

  lemma {:induction false} UpToIs(l: seq<int>, x: int)
    requires Sorted(l)
    ensures UpTo(l, x) <= |l| && forall j {:trigger l[j]} :: 0 <= j < |l| ==> (j < UpTo(l, x) <==> l[j] <= x)
  {
    if l != [] {
      var n := |l| - 1;
      UpToIs(l[..n], x);
      forall j {:trigger l[j]} | 0 <= j < |l| ensures j < UpTo(l, x) <==> l[j] <= x {
        if j < n {
          assert l[..n][j] == l[j];
        } else if l[n] <= x {
          assert n > 0 ==> l[..n][n - 1] < l[n];
        }
      }
    }
  }

  /** Where the turn goes from index x: the next element of l, from the end back to the first. */
  function TurnAfter(l: seq<int>, x: int): nat
    requires l != []
  {
    if UpTo(l, x) < |l| then UpTo(l, x) else 0
  }

  /** From an element of the list the turn goes to the next. */
  lemma {:induction false} TurnMoves(l: seq<int>, k: nat)
    requires Sorted(l) && k < |l|
    ensures TurnAfter(l, l[k]) == if k + 1 < |l| then k + 1 else 0
  {
    UpToIs(l, l[k]);
    assert k < UpTo(l, l[k]);
    assert k + 1 < |l| ==> l[k] < l[k + 1] && (k + 1 < UpTo(l, l[k]) <==> l[k + 1] <= l[k]);
  }

  /** Slot k is met before any other live slot of the class by a walk that starts behind x. */
  ghost predicate NextAfter(table: seq<Thread>, c: int, x: int, k: int) {
    && 0 <= k < |table| && Live(table[k], c)
    && (if x < k then forall i {:trigger table[i]} :: x < i < k && 0 <= i ==> !Live(table[i], c)
        else forall i {:trigger table[i]} :: 0 <= i < |table| && (x < i || i < k) ==> !Live(table[i], c))
  }

  lemma {:induction false} NextIsTurn(table: seq<Thread>, c: int, x: int, k: int)
    requires NextAfter(table, c, x, k) && x >= -1
    ensures var l := Slots(table, c, |table|); l != [] && Sorted(l) && l[TurnAfter(l, x)] == k
  {
    var l := Slots(table, c, |table|);
    SlotsSorted(table, c, |table|);
    UpToIs(l, x);
    assert k in l;
    var t := TurnAfter(l, x);
    var j :| 0 <= j < |l| && l[j] == k;
    assert Live(table[l[t]], c);
    Before(l, t, j);
    Before(l, 0, j);
    if x < k {
      assert UpTo(l, x) <= j;
    } else {
      AllUpTo(l, x);
    }
  }

  lemma {:induction false} Before(l: seq<int>, i: nat, j: nat)
    requires Sorted(l) && i < |l| && j < |l|
    ensures i < j ==> l[i] < l[j]
  {
  }

  lemma {:induction false} AllUpTo(l: seq<int>, x: int)
    requires forall j {:trigger l[j]} :: 0 <= j < |l| ==> l[j] <= x
    ensures UpTo(l, x) == |l|
  {
    if l != [] {
      AllUpTo(l[..|l| - 1], x);
    }
  }

  class Scheduler {
    var threads: seq<Thread>
    var index: seq<int>

    predicate Valid()
      reads this
    {
      && |threads| == MAX_UTHREADS && |index| == PRIORITIES
      && forall c {:trigger index[c]} :: 0 <= c < PRIORITIES ==> -1 <= index[c] < MAX_UTHREADS
    }

    /** The static initial state: the first index is -1, the others 0, and no slot is live. */
    constructor ()
      ensures Valid() && index[0] == -1 && forall c :: 0 < c < PRIORITIES ==> index[c] == 0
      ensures forall i :: 0 <= i < MAX_UTHREADS ==> threads[i] == Thread(0, 0)
    {
      threads := seq(MAX_UTHREADS, _ => Thread(0, 0));
      index := [-1] + seq(PRIORITIES - 1, _ => 0);
    }

    /** getNumberOfThreadInPrioirity. */
    method CountInPriority(c: int) returns (n: nat)
      requires Valid()
      ensures n == |Slots(threads, c, MAX_UTHREADS)|
    {
      n := 0;
      var i := 0;
      while i < MAX_UTHREADS
        invariant 0 <= i <= MAX_UTHREADS && n == |Slots(threads, c, i)|
      {
        if Live(threads[i], c) {
          n := n + 1;
        }
        i := i + 1;
      }
    }

    /** The walk of getNextPB, which goes at most once around the table. */
    method Walk(c: int, last: int) returns (k: int)
      requires Valid() && -1 <= last < MAX_UTHREADS && Slots(threads, c, MAX_UTHREADS) != []
      ensures NextAfter(threads, c, last, k)
    {
      SlotsSorted(threads, c, MAX_UTHREADS);
      ghost var found := Slots(threads, c, MAX_UTHREADS)[0];
      assert Live(threads[found], c);
      k := (last + 1) % MAX_UTHREADS;
      while k != last && !Live(threads[k], c)
        invariant 0 <= k < MAX_UTHREADS
        invariant if last < k then forall i {:trigger threads[i]} :: last < i < k && 0 <= i ==> !Live(threads[i], c)
          else forall i {:trigger threads[i]} :: 0 <= i < MAX_UTHREADS && (last < i || i < k) ==> !Live(threads[i], c)
        decreases if last < k then MAX_UTHREADS - k + last + 1 else last - k
      {
        k := (k + 1) % MAX_UTHREADS;
      }
      assert k == last ==> found == last;
    }

    /** getNextPB: the best class that has a live slot, and in it the next slot in turn; -1 if there is none. */
    method GetNextPB() returns (k: int)
      requires Valid()
      modifies this`index
      ensures Valid()
      ensures k == -1 ==>
        index == old(index) && forall c :: 0 <= c < PRIORITIES ==> Slots(threads, c, MAX_UTHREADS) == []
      ensures k != -1 ==> 0 <= k < MAX_UTHREADS && threads[k].tid != 0 && 0 <= threads[k].priority < PRIORITIES
      ensures k != -1 ==> forall c :: 0 <= c < threads[k].priority ==> Slots(threads, c, MAX_UTHREADS) == []
      ensures k != -1 ==> index == old(index)[threads[k].priority := k]
      ensures k != -1 ==>
        var l, x := Slots(threads, threads[k].priority, MAX_UTHREADS), old(index)[threads[k].priority];
        l != [] && Sorted(l) && k == l[TurnAfter(l, x)]
    {
      var c := 0;
      while c < PRIORITIES
        invariant 0 <= c <= PRIORITIES && index == old(index)
        invariant forall b :: 0 <= b < c ==> Slots(threads, b, MAX_UTHREADS) == []
      {
        var n := CountInPriority(c);
        if n != 0 {
          k := Walk(c, index[c]);
          NextIsTurn(threads, c, index[c], k);
          index := index[c := k];
          return;
        }
        c := c + 1;
      }
      k := -1;
    }

    /** As many picks in a row as there are live slots in the best class: each of them exactly once. */
    method Picks(c: int) returns (picks: seq<int>, ghost first: nat)
      requires Valid() && 0 <= c < PRIORITIES && Slots(threads, c, MAX_UTHREADS) != []
      requires forall b :: 0 <= b < c ==> Slots(threads, b, MAX_UTHREADS) == []
      modifies this`index
      ensures Valid()
      ensures var l := Slots(threads, c, MAX_UTHREADS);
        first < |l| && picks == l[first..] + l[..first] && multiset(picks) == multiset(l)
    {
      hide Slots, UpTo, TurnAfter;
      ghost var l := Slots(threads, c, MAX_UTHREADS);
      var n := CountInPriority(c);
      InOrder(threads, c);
      first := TurnAfter(l, index[c]);
      TurnInRange(l, index[c]);
      picks := [];
      while |picks| < n
        invariant Valid() && |picks| <= n == |l|
        invariant forall i {:trigger picks[i]} :: 0 <= i < |picks| ==> picks[i] == l[Turn(first, i, n)]
        invariant TurnAfter(l, index[c]) == Turn(first, |picks|, n)
      {
        var k := GetNextPB();
        SameClass(threads, c, k);
        TurnMoves(l, Turn(first, |picks|, n));
        picks := picks + [k];
      }
      Rotation(l, first, picks);
    }
  }

  lemma {:induction false} InOrder(table: seq<Thread>, c: int)
    ensures Sorted(Slots(table, c, |table|))
  {
    SlotsSorted(table, c, |table|);
  }

  lemma {:induction false} TurnInRange(l: seq<int>, x: int)
    requires l != []
    ensures TurnAfter(l, x) < |l|
  {
  }

  /** A full round is a rotation of the list. */
  lemma {:induction false} Rotation(l: seq<int>, first: nat, picks: seq<int>)
    requires first < |l| == |picks|
    requires forall i {:trigger picks[i]} :: 0 <= i < |l| ==> picks[i] == l[Turn(first, i, |l|)]
    ensures picks == l[first..] + l[..first] && multiset(picks) == multiset(l)
  {
    assert l == l[..first] + l[first..];
  }

  /** i turns after first, around a list of n. */
  function Turn(first: nat, i: nat, n: nat): (r: nat)
    requires first < n && i <= n
    ensures r < n
  {
    if first + i < n then first + i else first + i - n
  }

  lemma {:induction false} SameClass(table: seq<Thread>, c: int, k: int)
    requires |table| == MAX_UTHREADS && 0 <= k < MAX_UTHREADS && table[k].tid != 0
    requires Slots(table, c, MAX_UTHREADS) != [] && forall b :: 0 <= b < c ==> Slots(table, b, MAX_UTHREADS) == []
    requires table[k].priority >= 0 && forall b :: 0 <= b < table[k].priority ==> Slots(table, b, MAX_UTHREADS) == []
    ensures table[k].priority == c || c < 0
  {
    SlotsSorted(table, table[k].priority, MAX_UTHREADS);
    assert Live(table[k], table[k].priority);
  }
}
