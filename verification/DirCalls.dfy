/** The directory calls of sysfile.c (create, link, unlink) and the directory routines of fs.c they use,
    as methods on the table of inodes. */
module DirCalls {
  import opened Outcomes
  import opened DirTree

  /** MAXFILE blocks of BSIZE bytes hold this many entries of sizeof(struct dirent) bytes. */
  const MAX_ENTRIES := 140 * 512 / 16

  ghost predicate Absent(es: seq<Dirent>, name: string) {
    forall k :: 0 <= k < |es| ==> !Matches(es[k], name)
  }

  predicate Matches(e: Dirent, name: string) {
    e.inum != 0 && e.name == name
  }

  ghost predicate FirstMatch(es: seq<Dirent>, name: string, k: int) {
    0 <= k < |es| && Matches(es[k], name) && forall j :: 0 <= j < k ==> !Matches(es[j], name)
  }

  ghost predicate FirstFree(es: seq<Dirent>, s: int) {
    0 <= s <= |es| && (s < |es| ==> es[s].inum == 0) && forall j :: 0 <= j < s ==> es[j].inum != 0
  }

  ghost predicate FirstUnused(node: seq<Node>, i: int) {
    0 < i < |node| && node[i].kind.Unused? && forall j :: 0 < j < i ==> !node[j].kind.Unused?
  }

  predicate IsDir(node: seq<Node>, d: int) {
    0 < d < |node| && node[d].kind.Dir?
  }

  /** The state that mkfs leaves: a root that names itself, and free inodes. */
  lemma {:induction false} FreshTree(n: nat)
    ensures Tree([Node(Unused, 0, []), NewDir(ROOT, ROOT)] + seq(n, _ => Node(Unused, 0, [])), map[], map[ROOT := 0])
  {
    var node := [Node(Unused, 0, []), NewDir(ROOT, ROOT)] + seq(n, _ => Node(Unused, 0, []));
    forall c | Linked(node, c) ensures c == ROOT {
    }
    assert Dots(node, ROOT) && Deeper(node, map[ROOT := 0], ROOT);
    var bare := node[ROOT := Node(Unused, 0, [])];
    RefsNone(bare, ROOT);
    RefsUpdate(bare, ROOT, node[ROOT], ROOT);
    HollowShare(node[ROOT], ROOT);
    assert bare[ROOT := node[ROOT]] == node;
  }

  lemma {:induction false} OneFirstFree(es: seq<Dirent>, s: nat)
    requires FirstFree(es, s)
    ensures forall t :: FirstFree(es, t) ==> t == s
  {
  }

  /** create panics: no free inode, or no room for another entry. */
  ghost predicate NoRoom(node: seq<Node>, d: int)
    requires IsDir(node, d)
  {
    || (forall j :: 0 < j < |node| ==> !node[j].kind.Unused?)
    || (forall s :: FirstFree(node[d].entries, s) ==> s >= MAX_ENTRIES)
  }

  /** The inodes after create made inode i of the given kind, named in slot s of d. */
  function Entered(node: seq<Node>, d: int, s: nat, name: string, i: int, kind: Kind): seq<Node>
    requires IsDir(node, d) && 0 < i < |node| && s <= |node[d].entries|
  {
    if kind.Dir? then WithName(node, d, s, name, i, NewDir(i, d), node[d].nlink + 1)
    else WithName(node, d, s, name, i, Node(kind, 1, []), node[d].nlink)
  }

  /** Slot s of directory d, and no other, came to hold the name and the number of inode i; no inode but these two
      changed. */
  ghost predicate Named(node: seq<Node>, node': seq<Node>, d: int, s: nat, name: string, i: int) {
    && |node'| == |node| && 0 < d < |node| && 0 < i < |node| && i != d && node[d].kind.Dir? && node'[d].kind.Dir?
    && var es, es' := node[d].entries, node'[d].entries;
    && s <= |es| && |es'| == (if s < |es| then |es| else s + 1) && es'[s] == Dirent(i, name)
    && (forall k :: 0 <= k < |es| && k != s ==> es'[k] == es[k])
    && (forall j :: 0 <= j < |node| && j != i && j != d ==> node'[j] == node[j])
  }

  /** Names other than this one lead where they led. */
  ghost predicate OthersFound(es: seq<Dirent>, es': seq<Dirent>, name: string) {
    forall other: string, k {:trigger FirstMatch(es', other, k)} :: other != name ==>
      (FirstMatch(es', other, k) <==> FirstMatch(es, other, k))
  }

  lemma {:induction false} FoundElsewhere(es: seq<Dirent>, es': seq<Dirent>, s: nat, name: string)
    requires s <= |es| <= |es'| && |es'| == (if s < |es| then |es| else s + 1)
    requires forall k :: 0 <= k < |es| && k != s ==> es'[k] == es[k]
    requires s < |es| ==> es[s].inum == 0 || es[s].name == name
    requires es'[s].inum == 0 || es'[s].name == name
    ensures OthersFound(es, es', name)
  {
    forall other: string, k {:trigger FirstMatch(es', other, k)} | other != name
      ensures FirstMatch(es', other, k) <==> FirstMatch(es, other, k)
    {
      if FirstMatch(es, other, k) {
        forall j | 0 <= j < k ensures !Matches(es'[j], other) {
          assert !Matches(es[j], other);
        }
      }
      if FirstMatch(es', other, k) {
        forall j | 0 <= j < k ensures !Matches(es[j], other) {
          assert !Matches(es'[j], other);
        }
      }
    }
  }

  /** After create and link a lookup of the new name finds the inode, and every other name leads where it led. */
  lemma {:induction false} NameIsFound(node: seq<Node>, node': seq<Node>, d: int, s: nat, name: string, i: int)
    requires Named(node, node', d, s, name, i) && FirstFree(node[d].entries, s) && Absent(node[d].entries, name)
    ensures FirstMatch(node'[d].entries, name, s) && node'[d].entries[s].inum == i
    ensures OthersFound(node[d].entries, node'[d].entries, name)
  {
    var es, es' := node[d].entries, node'[d].entries;
    forall j | 0 <= j < s ensures !Matches(es'[j], name) {
      assert es'[j] == es[j] && !Matches(es[j], name);
    }
    FoundElsewhere(es, es', s, name);
  }

  /** After unlink a lookup of the name finds nothing. */
  lemma {:induction false} NameIsGone(es: seq<Dirent>, es': seq<Dirent>, s: nat, name: string)
    requires DistinctNames(es) && FirstMatch(es, name, s) && es' == es[s := NO_ENTRY]
    ensures Absent(es', name) && OthersFound(es, es', name)
  {
    forall k | 0 <= k < |es'| ensures !Matches(es'[k], name) {
    }
    FoundElsewhere(es, es', s, name);
  }

  lemma {:induction false} FreeSlotUsable(es: seq<Dirent>, s: nat, name: string)
    requires FirstFree(es, s) && Absent(es, name)
    ensures Usable(es, s, name)
  {
    forall k | 0 <= k < |es| && es[k].inum != 0 ensures es[k].name != name {
      assert !Matches(es[k], name);
    }
  }

  /** A new name keeps the tree exactly when its directory is still linked: for create ... */
  lemma {:induction false} EnteredKeepsTree(node: seq<Node>, place: map<int, Place>, depth: map<int, nat>, d: int,
                                            s: nat, name: string, i: int, kind: Kind)
    requires Tree(node, place, depth) && IsDir(node, d) && FirstFree(node[d].entries, s)
    requires Absent(node[d].entries, name)
    requires 0 < i < |node| && node[i].kind.Unused? && !kind.Unused?
    ensures IsTree(Entered(node, d, s, name, i, kind)) <==> Linked(node, d)
    ensures Linked(node, d) && kind.Dir? ==>
      d in depth && Tree(Entered(node, d, s, name, i, kind), place[i := Place(d, s)], depth[i := depth[d] + 1])
    ensures Linked(node, d) && !kind.Dir? ==> Tree(Entered(node, d, s, name, i, kind), place, depth)
  {
    hide Tree, WithName, Absent, FirstFree;
    FreeSlotUsable(node[d].entries, s, name);
    UnusedUnnamed(node, place, depth, i);
    if kind.Dir? {
      if Linked(node, d) {
        AddDir(node, place, depth, d, s, name, i);
      } else {
        DirInOrphan(node, place, depth, d, s, name, i);
      }
    } else if Linked(node, d) {
      AddFile(node, place, depth, d, s, name, i, Node(kind, 1, []));
    } else {
      FileInOrphan(node, place, depth, d, s, name, i, Node(kind, 1, []));
    }
  }

  /** ... and for link. */
  lemma {:induction false} LinkedKeepsTree(node: seq<Node>, place: map<int, Place>, depth: map<int, nat>, d: int,
                                           s: nat, name: string, i: int, nd: Node)
    requires Tree(node, place, depth) && IsDir(node, d) && FirstFree(node[d].entries, s)
    requires Absent(node[d].entries, name)
    requires 0 < i < |node| && !node[i].kind.Unused? && !node[i].kind.Dir? && nd == node[i].(nlink := node[i].nlink + 1)
    ensures IsTree(WithName(node, d, s, name, i, nd, node[d].nlink)) <==> Linked(node, d)
    ensures Linked(node, d) ==> Tree(WithName(node, d, s, name, i, nd, node[d].nlink), place, depth)
  {
    hide WithName, Absent, FirstFree;
    FreeSlotUsable(node[d].entries, s, name);
    if Linked(node, d) {
      AddFile(node, place, depth, d, s, name, i, nd);
    } else {
      FileInOrphan(node, place, depth, d, s, name, i, nd);
    }
  }

  /** The inodes after mkdir a, with a held open, and unlink of a. */
  function RemovedButOpen(): (r: seq<Node>)
    ensures |r| == 4 && IsDir(r, 2)
  {
    var free := Node(Unused, 0, []);
    [free, Node(Dir, 1, [Dirent(1, "."), Dirent(1, ".."), NO_ENTRY]),
     Node(Dir, 0, [Dirent(2, "."), Dirent(1, "..")]), free]
  }

  /** A file created there has a link that no directory holds. */
  lemma {:induction false} LostName()
    ensures IsTree(RemovedButOpen()) && !IsTree(Entered(RemovedButOpen(), 2, 2, "x", 3, File))
  {
    hide Tree;
    var free := Node(Unused, 0, []);
    var node0 := [free, NewDir(1, 1), free, free];
    assert node0 == [free, NewDir(ROOT, ROOT)] + seq(2, _ => free);
    FreshTree(2);
    AddDir(node0, map[], map[ROOT := 0], 1, 2, "a", 2);
    var node1 := [free, Node(Dir, 2, [Dirent(1, "."), Dirent(1, ".."), Dirent(2, "a")]), NewDir(2, 1), free];
    assert node1[1].entries == Put(node0[1].entries, 2, Dirent(2, "a"));
    assert node1 == WithName(node0, 1, 2, "a", 2, NewDir(2, 1), 2);
    RemoveDir(node1, map[2 := Place(1, 2)], map[ROOT := 0, 2 := 1], 1, 2);
    assert RemovedButOpen()[1].entries == node1[1].entries[2 := NO_ENTRY];
    assert RemovedButOpen() == WithoutName(node1, 1, 2, 2, node1[2].(nlink := 0), 1);
    EnteredKeepsTree(RemovedButOpen(), map[2 := Place(1, 2)], map[ROOT := 0, 2 := 1], 2, 2, "x", 3, File);
  }

  /** Slot s of d names a directory that is not empty. */
  predicate Occupied(node: seq<Node>, d: int, s: nat)
    requires IsDir(node, d)
  {
    s < |node[d].entries| && IsDir(node, node[d].entries[s].inum) &&
    var es := node[node[d].entries[s].inum].entries;
    exists k :: 2 <= k < |es| && es[k].inum != 0
  }

  /** The inodes after unlink cleared slot s of d. */
  function Removed(node: seq<Node>, d: int, s: nat): seq<Node>
    requires IsDir(node, d) && s < |node[d].entries| && 0 < node[d].entries[s].inum < |node|
  {
    var i := node[d].entries[s].inum;
    WithoutName(node, d, s, i, node[i].(nlink := node[i].nlink - 1),
                if node[i].kind.Dir? then node[d].nlink - 1 else node[d].nlink)
  }

  /** What a proper name in a directory leads to: a used inode with a link, in a linked directory. */
  lemma {:induction false} NamedIsUsed(node: seq<Node>, place: map<int, Place>, depth: map<int, nat>, d: int, k: int)
    requires Tree(node, place, depth) && IsDir(node, d) && 0 <= k < |node[d].entries| && node[d].entries[k].inum != 0
    requires node[d].entries[k].name != "." && node[d].entries[k].name != ".."
    ensures Linked(node, d) && k >= 2 && DistinctNames(node[d].entries)
    ensures var i := node[d].entries[k].inum;
      && 0 < i < |node| && i != d && !node[i].kind.Unused? && node[i].nlink >= 1
      && (node[i].kind.Dir? ==> Linked(node, i) && |node[i].entries| >= 2)
  {
    assert node[d].nlink >= 1 || Hollow(node[d].entries);
    assert Dots(node, d);
    SomeRef(node, d, k);
    var i := node[d].entries[k].inum;
    if node[i].kind.Dir? {
      assert IsPlace(node, place, d, k) && InPlace(node, place, i) && Deeper(node, depth, i);
    }
  }

  lemma {:induction false} RemovedKeepsTree(node: seq<Node>, place: map<int, Place>, depth: map<int, nat>, d: int,
                                            s: nat)
    requires Tree(node, place, depth) && Linked(node, d) && 2 <= s < |node[d].entries|
    requires var i := node[d].entries[s].inum;
      0 < i < |node| && !node[i].kind.Unused? && (node[i].kind.Dir? ==> Linked(node, i) && !Occupied(node, d, s))
    ensures Tree(Removed(node, d, s), place, depth)
  {
    hide WithoutName;
    var i := node[d].entries[s].inum;
    if node[i].kind.Dir? {
      assert Dots(node, i) && Hollow(node[i].entries);
      RemoveDir(node, place, depth, d, s);
    } else {
      RemoveFile(node, place, depth, d, s);
    }
  }

  /** The inodes on disk. place and depth witness that the linked directories form a tree. */
  class Inodes {
    var node: seq<Node>
    ghost var place: map<int, Place>
    ghost var depth: map<int, nat>

    ghost predicate Valid()
      reads this
    {
      Tree(node, place, depth)
    }

    constructor (n: nat)
      ensures Valid() && |node| == n + 2
    {
      node := [Node(Unused, 0, []), NewDir(ROOT, ROOT)] + seq(n, _ => Node(Unused, 0, []));
      place := map[];
      depth := map[ROOT := 0];
      FreshTree(n);
    }

    method DirLookup(d: int, name: string) returns (k: int)
      requires IsDir(node, d)
      ensures if k >= 0 then FirstMatch(node[d].entries, name, k) else Absent(node[d].entries, name)
    {
      var es := node[d].entries;
      k := 0;
      while k < |es|
        invariant 0 <= k <= |es| && forall j :: 0 <= j < k ==> !Matches(es[j], name)
      {
        if Matches(es[k], name) {
          return;
        }
        k := k + 1;
      }
      k := -1;
    }

    method FindSlot(d: int) returns (s: nat)
      requires IsDir(node, d)
      ensures FirstFree(node[d].entries, s)
    {
      var es := node[d].entries;
      s := 0;
      while s < |es| && es[s].inum != 0
        invariant 0 <= s <= |es| && forall j :: 0 <= j < s ==> es[j].inum != 0
      {
        s := s + 1;
      }
    }

    method IsDirEmpty(d: int) returns (b: bool)
      requires IsDir(node, d)
      ensures b <==> forall k :: 2 <= k < |node[d].entries| ==> node[d].entries[k].inum == 0
    {
      var es := node[d].entries;
      var k := 2;
      while k < |es|
        invariant 2 <= k && forall j :: 2 <= j < k && j < |es| ==> es[j].inum == 0
      {
        if es[k].inum != 0 {
          return false;
        }
        k := k + 1;
      }
      b := true;
    }

    /** dirlink: refused when the name is there, panic when the directory cannot grow. */
    method DirLink(d: int, name: string, inum: int) returns (r: Outcome<bool>, ghost s: nat)
      requires IsDir(node, d) && inum != 0
      modifies this`node
      ensures !Absent(old(node)[d].entries, name) ==> r == Ok(false)
      ensures Absent(old(node)[d].entries, name) ==>
        FirstFree(old(node)[d].entries, s) && r == if s < MAX_ENTRIES then Ok(true) else Panic
      ensures r != Ok(true) ==> node == old(node)
      ensures r == Ok(true) ==>
        node == old(node)[d := old(node)[d].(entries := Put(old(node)[d].entries, s, Dirent(inum, name)))]
    {
      s := 0;
      var k := DirLookup(d, name);
      if k >= 0 {
        return Ok(false), 0;
      }
      var off := FindSlot(d);
      s := off;
      if off >= MAX_ENTRIES {
        return Panic, s;
      }
      node := node[d := node[d].(entries := Put(node[d].entries, off, Dirent(inum, name)))];
      r := Ok(true);
    }

    /** ialloc: the lowest free inode, emptied and given its type. */
    method IAlloc(kind: Kind) returns (r: Outcome<int>)
      requires |node| > 0
      modifies this`node
      ensures !r.Ok? ==> r == Panic && node == old(node) && forall j :: 0 < j < |node| ==> !node[j].kind.Unused?
      ensures r.Ok? ==> FirstUnused(old(node), r.value) && node == old(node)[r.value := Node(kind, 0, [])]
    {
      var i := 1;
      while i < |node|
        invariant 1 <= i <= |node| && node == old(node) && forall j :: 0 < j < i ==> !node[j].kind.Unused?
      {
        if node[i].kind.Unused? {
          node := node[i := Node(kind, 0, [])];
          return Ok(i);
        }
        i := i + 1;
      }
      r := Panic;
    }

    /** The part of create after the name was not found. */
    method Enter(d: int, name: string, kind: Kind) returns (r: Outcome<int>, ghost s: nat)
      requires |node| > 0 && IsDir(node, d) && !kind.Unused? && Absent(node[d].entries, name)
      modifies this`node
      ensures !r.Ok? ==> r == Panic && NoRoom(old(node), d)
      ensures r.Ok? ==> FirstUnused(old(node), r.value) && FirstFree(old(node)[d].entries, s) && s < MAX_ENTRIES
      ensures r.Ok? ==> node == Entered(old(node), d, s, name, r.value, kind) && 0 < r.value < |node| == |old(node)|
      ensures r.Ok? ==>
        node[r.value] == Node(kind, 1, if kind.Dir? then [Dirent(r.value, "."), Dirent(d, "..")] else [])
      ensures r.Ok? ==> Named(old(node), node, d, s, name, r.value)
      ensures r.Ok? ==> node[d].nlink == old(node)[d].nlink + if kind.Dir? then 1 else 0
    {
      ghost var was := node;
      s := 0;
      var i :- IAlloc(kind);
      node := node[i := node[i].(nlink := 1)];
      if kind.Dir? {
        node := node[d := node[d].(nlink := node[d].nlink + 1)];
        assert node[i].entries == [];
        var dot, dotAt := DirLink(i, ".", i);
        assert dot == Ok(true) && node[i].entries == [Dirent(i, ".")];
        var dots, dotsAt := DirLink(i, "..", d);
        assert dots == Ok(true) && node[i].entries == [Dirent(i, "."), Dirent(d, "..")];
      }
      assert node[d].entries == was[d].entries;
      var linked;
      linked, s := DirLink(d, name, i);
      OneFirstFree(was[d].entries, s);
      if linked != Ok(true) {
        return Panic, s;
      }
      r := Ok(i);
    }

    /** create: opens an existing file, refuses any other existing name, and otherwise makes an inode.
        The tree survives exactly when the parent is still linked. */
    method Create(d: int, name: string, kind: Kind) returns (r: Outcome<int>, ghost s: nat)
      requires Valid() && IsDir(node, d) && !kind.Unused?
      modifies this
      ensures !Absent(old(node)[d].entries, name) ==>
        && Valid() && node == old(node) && FirstMatch(node[d].entries, name, s)
        && (Linked(node, d) ==> r.Ok?)
        && var i := node[d].entries[s].inum;
        && (r.Ok? <==> 0 < i < |node| && !node[i].kind.Unused?) && (!r.Ok? ==> r == Panic)
        && (r.Ok? ==> r.value == if kind.File? && node[i].kind.File? then i else 0)
      ensures Absent(old(node)[d].entries, name) && !r.Ok? ==> r == Panic && NoRoom(old(node), d)
      ensures Absent(old(node)[d].entries, name) && r.Ok? ==>
        && FirstUnused(old(node), r.value) && FirstFree(old(node)[d].entries, s) && s < MAX_ENTRIES
        && 0 < r.value < |node| && Named(old(node), node, d, s, name, r.value)
        && node[r.value] == Node(kind, 1, if kind.Dir? then [Dirent(r.value, "."), Dirent(d, "..")] else [])
        && node[d].nlink == old(node)[d].nlink + (if kind.Dir? then 1 else 0)
        && FirstMatch(node[d].entries, name, s) && OthersFound(old(node)[d].entries, node[d].entries, name)
        && (IsTree(node) <==> Linked(old(node), d)) && (Linked(old(node), d) ==> Valid())
    {
      ghost var was := node;
      var k := DirLookup(d, name);
      if k >= 0 {
        var i := node[d].entries[k].inum;
        assert Linked(node, d) ==> Dots(node, d);
        if !(0 < i < |node|) || node[i].kind.Unused? {
          return Panic, k;
        }
        return Ok(if kind.File? && node[i].kind.File? then i else 0), k;
      }
      r, s := Enter(d, name, kind);
      if r.Ok? {
        ghost var i := r.value;
        EnteredKeepsTree(was, place, depth, d, s, name, i, kind);
        NameIsFound(was, node, d, s, name, i);
        if Linked(was, d) && kind.Dir? {
          place, depth := place[i := Place(d, s)], depth[i := depth[d] + 1];
        }
      }
    }

    /** link: one more name for a file. */
    method Link(i: int, d: int, name: string) returns (r: Outcome<bool>, ghost s: nat)
      requires Valid() && 0 < i < |node| && !node[i].kind.Unused? && (d == 0 || IsDir(node, d))
      modifies this
      ensures r == Ok(false) <==> old(node)[i].kind.Dir? || d == 0 || !Absent(old(node)[d].entries, name)
      ensures r == Ok(false) ==> Valid() && node == old(node)
      ensures !r.Ok? ==> r == Panic && FirstFree(old(node)[d].entries, s) && s >= MAX_ENTRIES
      ensures r == Ok(true) ==>
        && FirstFree(old(node)[d].entries, s) && s < MAX_ENTRIES
        && Named(old(node), node, d, s, name, i)
        && node[i] == old(node)[i].(nlink := old(node)[i].nlink + 1) && node[d].nlink == old(node)[d].nlink
        && FirstMatch(node[d].entries, name, s) && OthersFound(old(node)[d].entries, node[d].entries, name)
        && (IsTree(node) <==> Linked(old(node), d)) && (Linked(old(node), d) ==> Valid())
    {
      ghost var was := node;
      s := 0;
      if node[i].kind.Dir? {
        return Ok(false), 0;
      }
      node := node[i := node[i].(nlink := node[i].nlink + 1)];
      if d != 0 {
        r, s := DirLink(d, name, i);
      } else {
        r := Ok(false);
      }
      if r == Ok(false) {
        node := node[i := node[i].(nlink := node[i].nlink - 1)];
        assert node == was;
      } else if r.Ok? {
        LinkedKeepsTree(was, place, depth, d, s, name, i, was[i].(nlink := was[i].nlink + 1));
        NameIsFound(was, node, d, s, name, i);
      }
    }

    /** unlink: never panics, and takes away exactly one name of a file or of an empty directory. */
    method Unlink(d: int, name: string) returns (r: Outcome<bool>, ghost s: nat)
      requires Valid() && IsDir(node, d)
      modifies this
      ensures Valid() && r.Ok?
      ensures !r.value ==> node == old(node)
      ensures !r.value <==>
        name == "." || name == ".." || Absent(old(node)[d].entries, name) || Occupied(old(node), d, s)
      ensures name != "." && name != ".." && !Absent(old(node)[d].entries, name) ==>
        FirstMatch(old(node)[d].entries, name, s)
      ensures r.value ==>
        var i := old(node)[d].entries[s].inum;
        && Linked(old(node), d) && 0 < i < |node| == |old(node)| && i != d
        && node[i] == old(node)[i].(nlink := old(node)[i].nlink - 1)
        && node[d].kind.Dir? && node[d].nlink == old(node)[d].nlink - (if old(node)[i].kind.Dir? then 1 else 0)
        && Absent(node[d].entries, name) && OthersFound(old(node)[d].entries, node[d].entries, name)
        && |node[d].entries| == |old(node)[d].entries| && node[d].entries[s] == Dirent(0, "")
        && (forall k :: 0 <= k < |node[d].entries| && k != s ==> node[d].entries[k] == old(node)[d].entries[k])
        && (forall j :: 0 <= j < |node| && j != i && j != d ==> node[j] == old(node)[j])
    {
      hide Tree, OthersFound, DistinctNames;
      s := 0;
      if name == "." || name == ".." {
        return Ok(false), 0;
      }
      var k := DirLookup(d, name);
      if k < 0 {
        return Ok(false), 0;
      }
      s := k;
      NamedIsUsed(node, place, depth, d, k);
      var i := node[d].entries[k].inum;
      if node[i].nlink < 1 {
        return Panic, s;
      }
      if node[i].kind.Dir? {
        var empty := IsDirEmpty(i);
        if !empty {
          return Ok(false), s;
        }
      }
      RemovedKeepsTree(node, place, depth, d, k);
      NameIsGone(node[d].entries, node[d].entries[k := NO_ENTRY], k, name);
      var dir := node[i].kind.Dir?;
      node := node[d := node[d].(entries := node[d].entries[k := NO_ENTRY])];
      if dir {
        node := node[d := node[d].(nlink := node[d].nlink - 1)];
      }
      node := node[i := node[i].(nlink := node[i].nlink - 1)];
      assert node == Removed(old(node), d, k);
      r := Ok(true);
    }

    /** The end of iput on the last reference: an inode without links is freed. */
    method Reclaim(i: int)
      requires Valid() && 0 < i < |node| && !node[i].kind.Unused?
      modifies this`node
      ensures Valid() && |node| == |old(node)|
      ensures node[i].kind.Unused? <==> old(node)[i].nlink == 0
      ensures forall j :: 0 <= j < |node| && (j != i || old(node)[i].nlink != 0) ==> node[j] == old(node)[j]
    {
      if node[i].nlink == 0 {
        Reclaimed(node, place, depth, i);
        node := node[i := Node(Unused, 0, [])];
      }
    }
  }
}
