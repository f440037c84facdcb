/** Directories, link counts and the shape of the tree (sysfile.c, and dirlookup, dirlink and ialloc
    of fs.c), as values. A directory is the sequence of its entries; entry number 0 is free. */
module DirTree {
  const ROOT := 1

  datatype Dirent = Dirent(inum: int, name: string)

  datatype Kind = Unused | Dir | File | Dev

  datatype Node = Node(kind: Kind, nlink: int, entries: seq<Dirent>)

  /** A directory that is still part of the tree. */
  predicate Linked(node: seq<Node>, d: int) {
    0 < d < |node| && node[d].kind.Dir? && node[d].nlink >= 1
  }

  // ----- counting references -----

  function One(e: Dirent, i: int): nat {
    if e.inum == i && e.name != "." then 1 else 0
  }

  /** Entries other than "." that name inode i. */
  function CountIn(es: seq<Dirent>, i: int): nat {
    if es == [] then 0 else CountIn(es[..|es| - 1], i) + One(es[|es| - 1], i)
  }

  function Share(nd: Node, i: int): nat {
    if nd.kind.Dir? && nd.nlink >= 1 then CountIn(nd.entries, i) else 0
  }

  /** Entries other than "." in linked directories that name inode i. */
  function Refs(node: seq<Node>, i: int): nat {
    if node == [] then 0 else Refs(node[..|node| - 1], i) + Share(node[|node| - 1], i)
  }

  lemma {:induction false} CountUpdate(es: seq<Dirent>, k: nat, e: Dirent, i: int)
    requires k < |es|
    ensures CountIn(es[k := e], i) == CountIn(es, i) - One(es[k], i) + One(e, i)
  {
    var n := |es| - 1;
    if k < n {
      CountUpdate(es[..n], k, e, i);
      assert es[k := e][..n] == es[..n][k := e];
    } else {
      assert es[k := e][..n] == es[..n];
    }
  }

  lemma {:induction false} CountAppend(es: seq<Dirent>, e: Dirent, i: int)
    ensures CountIn(es + [e], i) == CountIn(es, i) + One(e, i)
  {
    assert (es + [e])[..|es|] == es;
  }

  lemma {:induction false} CountAtLeast(es: seq<Dirent>, k: nat, i: int)
    requires k < |es|
    ensures CountIn(es, i) >= One(es[k], i)
  {
    if k < |es| - 1 {
      CountAtLeast(es[..|es| - 1], k, i);
    }
  }

  lemma {:induction false} CountNone(es: seq<Dirent>, i: int)
    requires forall k :: 0 <= k < |es| ==> One(es[k], i) == 0
    ensures CountIn(es, i) == 0
  {
    if es != [] {
      CountNone(es[..|es| - 1], i);
    }
  }

  lemma {:induction false} RefsUpdate(node: seq<Node>, d: nat, nd: Node, i: int)
    requires d < |node|
    ensures Refs(node[d := nd], i) == Refs(node, i) - Share(node[d], i) + Share(nd, i)
    ensures Refs(node, i) >= Share(node[d], i)
  {
    var n := |node| - 1;
    if d < n {
      RefsUpdate(node[..n], d, nd, i);
      assert node[d := nd][..n] == node[..n][d := nd];
    } else {
      assert node[d := nd][..n] == node[..n];
    }
  }

  lemma {:induction false} RefsNone(node: seq<Node>, i: int)
    requires forall d :: 0 <= d < |node| ==> Share(node[d], i) == 0
    ensures Refs(node, i) == 0
  {
    if node != [] {
      RefsNone(node[..|node| - 1], i);
    }
  }

  // ----- the invariant -----

  /** The place of a directory's entry in its parent. */
  datatype Place = Place(dir: int, slot: int)

  /** "." and ".." come first; every other used entry has a proper name and names a used inode. */
  ghost predicate Dots(node: seq<Node>, d: int)
    requires 0 <= d < |node|
  {
    var es := node[d].entries;
    && |es| >= 2 && es[0] == Dirent(d, ".") && es[1].name == ".." && Linked(node, es[1].inum)
    && forall k {:trigger es[k]} :: 2 <= k < |es| && es[k].inum != 0 ==>
      es[k].name != "." && es[k].name != ".." && 0 < es[k].inum < |node| && !node[es[k].inum].kind.Unused?
  }

  /** Directory c sits at its place, and its ".." names the directory it sits in. */
  ghost predicate InPlace(node: seq<Node>, place: map<int, Place>, c: int)
    requires 0 <= c < |node|
  {
    && c in place && Linked(node, place[c].dir)
    && 2 <= place[c].slot < |node[place[c].dir].entries| && node[place[c].dir].entries[place[c].slot].inum == c
    && |node[c].entries| >= 2 && node[c].entries[1].inum == place[c].dir
  }

  /** If entry k of d names a directory, that is the directory's place. */
  ghost predicate IsPlace(node: seq<Node>, place: map<int, Place>, d: int, k: int)
    requires 0 <= d < |node| && 0 <= k < |node[d].entries|
  {
    var c := node[d].entries[k].inum;
    0 < c < |node| && node[c].kind.Dir? ==> Linked(node, c) && c != ROOT && c in place && place[c] == Place(d, k)
  }

  /** A directory other than the root sits in exactly one place. */
  ghost predicate Placed(node: seq<Node>, place: map<int, Place>) {
    && (forall c {:trigger InPlace(node, place, c)} :: Linked(node, c) && c != ROOT ==> InPlace(node, place, c))
    && (forall d, k {:trigger IsPlace(node, place, d, k)} ::
      Linked(node, d) && 2 <= k < |node[d].entries| ==> IsPlace(node, place, d, k))
  }

  /** The step along ".." from c gets one closer to the root. */
  ghost predicate Deeper(node: seq<Node>, depth: map<int, nat>, c: int)
    requires 0 <= c < |node|
  {
    && c in depth && |node[c].entries| >= 2 && node[c].entries[1].inum in depth
    && (c != ROOT ==> depth[c] == depth[node[c].entries[1].inum] + 1)
  }

  ghost predicate Rooted(node: seq<Node>, depth: map<int, nat>) {
    && Linked(node, ROOT) && |node[ROOT].entries| >= 2 && node[ROOT].entries[1].inum == ROOT
    && (forall c {:trigger Deeper(node, depth, c)} :: Linked(node, c) ==> Deeper(node, depth, c))
  }

  /** Used entries of a directory have different names. */
  ghost predicate DistinctNames(es: seq<Dirent>) {
    forall k, l :: 0 <= k < l < |es| && es[k].inum != 0 && es[l].inum != 0 ==> es[k].name != es[l].name
  }

  /** Nothing but "." and "..". */
  ghost predicate Hollow(es: seq<Dirent>) {
    && |es| >= 2 && es[0].name == "." && es[1].name == ".."
    && forall k :: 2 <= k < |es| ==> es[k].inum == 0
  }

  /** A directory that was removed while still open is hollow. */
  ghost predicate Orphans(node: seq<Node>) {
    forall d {:trigger Hollow(node[d].entries)} :: 0 < d < |node| && node[d].kind.Dir? && node[d].nlink < 1 ==>
      Hollow(node[d].entries)
  }

  ghost predicate Tree(node: seq<Node>, place: map<int, Place>, depth: map<int, nat>) {
    && |node| > 0 && node[0].kind.Unused? && Orphans(node)
    && (forall d {:trigger Dots(node, d)} :: Linked(node, d) ==> Dots(node, d))
    && (forall d {:trigger DistinctNames(node[d].entries)} :: Linked(node, d) ==> DistinctNames(node[d].entries))
    && Placed(node, place) && Rooted(node, depth)
    && (forall i {:trigger node[i]} :: 0 < i < |node| && !node[i].kind.Unused? ==> node[i].nlink == Refs(node, i))
  }

  /** The directory k steps along ".." from d. */
  ghost function Up(node: seq<Node>, d: int, k: nat): int
    decreases k
  {
    if k == 0 || !(0 <= d < |node|) || |node[d].entries| < 2 then d else Up(node, node[d].entries[1].inum, k - 1)
  }

  /** Following ".." from any linked directory reaches the root. */
  lemma {:induction false} UpReachesRoot(node: seq<Node>, place: map<int, Place>, depth: map<int, nat>, d: int)
    requires Tree(node, place, depth) && Linked(node, d)
    ensures d in depth && Up(node, d, depth[d]) == ROOT
    decreases if d in depth then depth[d] else 0
  {
    assert Dots(node, d) && Deeper(node, depth, d);
    if d != ROOT {
      assert depth[d] == depth[node[d].entries[1].inum] + 1;
      UpReachesRoot(node, place, depth, node[d].entries[1].inum);
    } else {
      UpFromRoot(node, depth[ROOT]);
    }
  }

  lemma {:induction false} UpFromRoot(node: seq<Node>, k: nat)
    requires Linked(node, ROOT) && |node[ROOT].entries| >= 2 && node[ROOT].entries[1].inum == ROOT
    ensures Up(node, ROOT, k) == ROOT
  {
    if k > 0 {
      UpFromRoot(node, k - 1);
    }
  }

  /** A linked directory other than the root has exactly one entry naming it outside "." and "..". */
  lemma {:induction false} OneParentEntry(node: seq<Node>, place: map<int, Place>, depth: map<int, nat>, c: int)
    requires Tree(node, place, depth) && Linked(node, c) && c != ROOT
    ensures c in place && Linked(node, place[c].dir) && place[c].slot in Slots(node, place[c].dir, c)
    ensures forall d :: Linked(node, d) ==> Slots(node, d, c) == if d == place[c].dir then {place[c].slot} else {}
  {
    assert InPlace(node, place, c);
    forall d | Linked(node, d) ensures Slots(node, d, c) == if d == place[c].dir then {place[c].slot} else {} {
      forall k | k in Slots(node, d, c) ensures place[c] == Place(d, k) {
        assert IsPlace(node, place, d, k);
      }
    }
  }

  ghost function Slots(node: seq<Node>, d: int, c: int): set<int>
    requires Linked(node, d)
  {
    set k | 2 <= k < |node[d].entries| && node[d].entries[k].inum == c
  }

  // ----- what each system call does to the tree -----

  /** dirlink's write: into a free slot, or at the end. */
  function Put(es: seq<Dirent>, s: nat, e: Dirent): (r: seq<Dirent>)
    requires s <= |es|
    ensures |r| == if s < |es| then |es| else |es| + 1
    ensures forall k {:trigger r[k]} :: 0 <= k < |r| ==> r[k] == if k == s then e else es[k]
  {
    if s < |es| then es[s := e] else es + [e]
  }

  /** A slot that dirlink may use for a new name. */
  ghost predicate Usable(es: seq<Dirent>, s: nat, name: string) {
    && s <= |es| && (s < |es| ==> es[s].inum == 0)
    && forall k :: 0 <= k < |es| && es[k].inum != 0 ==> es[k].name != name
  }

  lemma {:induction false} CountPut(es: seq<Dirent>, s: nat, e: Dirent, i: int)
    requires s <= |es| && (s < |es| ==> es[s].inum == 0) && i != 0
    ensures CountIn(Put(es, s, e), i) == CountIn(es, i) + One(e, i)
  {
    if s < |es| {
      CountUpdate(es, s, e, i);
    } else {
      CountAppend(es, e, i);
    }
  }

  /** An unused inode is named nowhere. */
  lemma {:induction false} UnusedUnnamed(node: seq<Node>, place: map<int, Place>, depth: map<int, nat>, i: int)
    requires Tree(node, place, depth) && 0 < i < |node| && node[i].kind.Unused?
    ensures Refs(node, i) == 0
  {
    forall d | 0 <= d < |node| ensures Share(node[d], i) == 0 {
      if Linked(node, d) {
        assert Dots(node, d);
        CountNone(node[d].entries, i);
      }
    }
    RefsNone(node, i);
  }

  ghost predicate SameBut(es: seq<Dirent>, es': seq<Dirent>, s: int) {
    |es'| >= |es| && forall k {:trigger es'[k]} :: 0 <= k < |es'| && k != s ==> k < |es| && es'[k] == es[k]
  }

  /** node' is node with slot s of directory d rewritten, and with inode i replaced. */
  ghost predicate Edited(node: seq<Node>, node': seq<Node>, d: int, s: nat, i: int) {
    && |node'| == |node| && Linked(node, d) && Linked(node', d) && s >= 2 && 0 < i < |node| && i != d
    && (forall c {:trigger node'[c]} :: 0 <= c < |node| && c != i && c != d ==> node'[c] == node[c])
    && SameBut(node[d].entries, node'[d].entries, s)
  }

  /** A used entry e of node' that clashes with no other name in es. */
  ghost predicate Sound(node': seq<Node>, es: seq<Dirent>, e: Dirent) {
    e.inum != 0 ==>
      && e.name != "." && e.name != ".." && 0 < e.inum < |node'| && !node'[e.inum].kind.Unused?
      && forall k :: 0 <= k < |es| && es[k].inum != 0 ==> es[k].name != e.name
  }

  /** No directory hangs below i. */
  ghost predicate Childless(node: seq<Node>, i: int) {
    forall c {:trigger node[c].entries} :: Linked(node, c) && c != i && |node[c].entries| >= 2 ==>
      node[c].entries[1].inum != i
  }

  /** Only slot s of d may name i. */
  ghost predicate OnlyAt(node: seq<Node>, d: int, s: nat, i: int) {
    forall c, k {:trigger node[c].entries[k]} ::
      Linked(node, c) && 2 <= k < |node[c].entries| && !(c == d && k == s) ==> node[c].entries[k].inum != i
  }

  /** What an edit keeps of a directory c other than i. */
  lemma {:induction false} KeepsDirectory(node: seq<Node>, node': seq<Node>, place: map<int, Place>,
                                          place': map<int, Place>, depth: map<int, nat>, depth': map<int, nat>, d: int,
                                          s: nat, i: int, c: int)
    requires Edited(node, node', d, s, i) && Linked(node, c) && c != i
    requires Dots(node, c) && DistinctNames(node[c].entries) && Deeper(node, depth, c)
    requires (c != ROOT ==> InPlace(node, place, c))
    requires node[c].entries[1].inum != i && (node'[i].kind.Unused? ==> OnlyAt(node, d, s, i))
    requires c == d && s < |node'[d].entries| ==> Sound(node', node[d].entries, node'[d].entries[s])
    requires forall b :: b != i ==> (b in depth' <==> b in depth) && (b in depth ==> depth'[b] == depth[b])
    requires c != ROOT ==> c in place' && place'[c] == place[c] && place[c] != Place(d, s)
    ensures Dots(node', c) && DistinctNames(node'[c].entries) && Deeper(node', depth', c)
    ensures c != ROOT ==> InPlace(node', place', c)
  {
    var es, es' := node[c].entries, node'[c].entries;
    assert Linked(node', es[1].inum) && es'[1] == es[1] && es'[0] == es[0];
    assert SameBut(es, es', if c == d then s else -1);
  }

  lemma {:induction false} KeepsEntry(node: seq<Node>, node': seq<Node>, place: map<int, Place>,
                                      place': map<int, Place>, d: int, s: nat, i: int, c: int, k: int)
    requires Edited(node, node', d, s, i) && Linked(node, c) && c != i && 2 <= k < |node'[c].entries|
    requires !(c == d && k == s)
    requires k < |node[c].entries| ==> IsPlace(node, place, c, k)
    requires k < |node[c].entries| && node[c].entries[k].inum == i ==> !node'[i].kind.Dir?
    requires forall b :: b != i && b in place ==> b in place' && place'[b] == place[b]
    ensures IsPlace(node', place', c, k)
  {
    var es, es' := node[c].entries, node'[c].entries;
    assert SameBut(es, es', if c == d then s else -1);
    var e := es'[k];
    assert k < |es| && e == es[k];
  }

  /** The state of the edited inode itself. */
  ghost predicate Settled(node': seq<Node>, place': map<int, Place>, depth': map<int, nat>, i: int) {
    && 0 < i < |node'|
    && (node'[i].kind.Dir? && node'[i].nlink < 1 ==> Hollow(node'[i].entries))
    && (Linked(node', i) ==>
      && i != ROOT && |node'[i].entries| == 2 && Dots(node', i) && DistinctNames(node'[i].entries)
      && Deeper(node', depth', i) && InPlace(node', place', i))
  }

  ghost predicate SameElsewhere(place: map<int, Place>, place': map<int, Place>, depth: map<int, nat>,
                                depth': map<int, nat>, i: int) {
    && (forall b :: b != i ==> (b in depth' <==> b in depth) && (b in depth ==> depth'[b] == depth[b]))
    && (forall b :: b != i && b in place ==> b in place' && place'[b] == place[b])
  }

  ghost predicate Counted(node: seq<Node>) {
    forall i {:trigger node[i]} :: 0 < i < |node| && !node[i].kind.Unused? ==> node[i].nlink == Refs(node, i)
  }

  /** Any edit that settles i and leaves the link counts right leaves a tree. */
  lemma {:induction false} EditKeepsTree(node: seq<Node>, node': seq<Node>, place: map<int, Place>,
                                         place': map<int, Place>, depth: map<int, nat>, depth': map<int, nat>, d: int,
                                         s: nat, i: int)
    requires Tree(node, place, depth) && Edited(node, node', d, s, i) && Settled(node', place', depth', i)
    requires Childless(node, i) && (node'[i].kind.Dir? || node'[i].kind.Unused? ==> OnlyAt(node, d, s, i))
    requires SameElsewhere(place, place', depth, depth', i)
    requires i != ROOT
    requires (s < |node[d].entries| ==> !Linked(node, node[d].entries[s].inum) || node[d].entries[s].inum == i)
    requires s < |node'[d].entries| ==>
      Sound(node', node[d].entries, node'[d].entries[s]) && IsPlace(node', place', d, s)
    requires Counted(node')
    ensures Tree(node', place', depth')
  {
    hide Refs, Dots, DistinctNames, Deeper, Sound, Hollow, InPlace, IsPlace;
    forall c | Linked(node', c) && c != i
      ensures Dots(node', c) && DistinctNames(node'[c].entries) && Deeper(node', depth', c)
      ensures c != ROOT ==> InPlace(node', place', c)
    {
      assert Linked(node, c) && Dots(node, c) && DistinctNames(node[c].entries) && Deeper(node, depth, c);
      ParentIs(node, c);
      if c != ROOT {
        assert InPlace(node, place, c);
        PlaceIs(node, place, c);
      }
      KeepsDirectory(node, node', place, place', depth, depth', d, s, i, c);
    }
    forall c, k | Linked(node', c) && 2 <= k < |node'[c].entries| ensures IsPlace(node', place', c, k) {
      if !(c == d && k == s) && c != i {
        if k < |node[c].entries| {
          assert IsPlace(node, place, c, k);
        }
        KeepsEntry(node, node', place, place', d, s, i, c, k);
      }
    }
  }

  lemma {:induction false} ParentIs(node: seq<Node>, c: int)
    requires 0 <= c < |node| && Dots(node, c)
    ensures |node[c].entries| >= 2 && Linked(node, node[c].entries[1].inum)
  {
  }

  lemma {:induction false} PlaceIs(node: seq<Node>, place: map<int, Place>, c: int)
    requires 0 <= c < |node| && InPlace(node, place, c)
    ensures c in place && Linked(node, place[c].dir) && 2 <= place[c].slot < |node[place[c].dir].entries|
    ensures node[place[c].dir].entries[place[c].slot].inum == c
    ensures |node[c].entries| >= 2 && node[c].entries[1].inum == place[c].dir
  {
  }

  // ----- how edits move the reference counts -----

  lemma {:induction false} NoShare(nd: Node, j: int)
    requires !(nd.kind.Dir? && nd.nlink >= 1)
    ensures Share(nd, j) == 0
  {
  }

  lemma {:induction false} RefsAfterPut(node: seq<Node>, d: int, s: nat, e: Dirent, i: int, nd: Node, nlink: int,
                                        j: int)
    requires Linked(node, d) && s <= |node[d].entries| && (s < |node[d].entries| ==> node[d].entries[s].inum == 0)
    requires nlink >= 1
    requires 0 < i < |node| && i != d && j != 0
    ensures Refs(node[i := nd][d := Node(Dir, nlink, Put(node[d].entries, s, e))], j) ==
            Refs(node, j) - Share(node[i], j) + Share(nd, j) + One(e, j)
  {
    RefsUpdate(node, i, nd, j);
    RefsUpdate(node[i := nd], d, Node(Dir, nlink, Put(node[d].entries, s, e)), j);
    CountPut(node[d].entries, s, e, j);
  }

  const NO_ENTRY := Dirent(0, "")

  lemma {:induction false} RefsAfterClear(node: seq<Node>, d: int, s: nat, i: int, nd: Node, nlink: int, j: int)
    requires Linked(node, d) && s < |node[d].entries| && nlink >= 1
    requires 0 < i < |node| && i != d && j != 0
    ensures Refs(node[i := nd][d := Node(Dir, nlink, node[d].entries[s := NO_ENTRY])], j) ==
            Refs(node, j) - Share(node[i], j) + Share(nd, j) - One(node[d].entries[s], j)
  {
    RefsUpdate(node, i, nd, j);
    RefsUpdate(node[i := nd], d, Node(Dir, nlink, node[d].entries[s := NO_ENTRY]), j);
    CountUpdate(node[d].entries, s, NO_ENTRY, j);
  }

  /** A hollow directory refers to its parent only. */
  lemma {:induction false} HollowCount(es: seq<Dirent>, j: int)
    requires Hollow(es) && j != 0
    ensures CountIn(es, j) == if es[1].inum == j then 1 else 0
  {
    var n := |es| - 1;
    if n > 1 {
      HollowCount(es[..n], j);
    } else {
      assert es[..1] == [es[0]] && es[..1][..0] == [];
      assert CountIn(es[..1], j) == CountIn(es[..1][..0], j) + One(es[0], j);
    }
  }

  /** An entry under a proper name is a reference. */
  lemma {:induction false} SomeRef(node: seq<Node>, d: int, s: nat)
    requires Linked(node, d) && s < |node[d].entries| && node[d].entries[s].name != "."
    ensures Refs(node, node[d].entries[s].inum) >= 1
  {
    var i := node[d].entries[s].inum;
    CountAtLeast(node[d].entries, s, i);
    RefsUpdate(node, d, node[d], i);
  }

  // ----- names for files come and go -----

  lemma {:induction false} NotAParent(node: seq<Node>, place: map<int, Place>, depth: map<int, nat>, i: int)
    requires Tree(node, place, depth) && !Linked(node, i)
    ensures Childless(node, i)
  {
    forall c {:trigger node[c].entries} | Linked(node, c) && c != i && |node[c].entries| >= 2
      ensures node[c].entries[1].inum != i
    {
      assert Dots(node, c);
    }
  }

  /** dirlink's write is an edit. */
  lemma {:induction false} PutEdits(node: seq<Node>, d: int, s: nat, name: string, i: int, nd: Node, nlink: int)
    requires Linked(node, d) && Dots(node, d) && Usable(node[d].entries, s, name) && 0 < i < |node| && i != d
    requires nlink >= 1
    requires !nd.kind.Unused?
    ensures s >= 2 && name != "." && Edited(node, WithName(node, d, s, name, i, nd, nlink), d, s, i)
    ensures Sound(WithName(node, d, s, name, i, nd, nlink), node[d].entries, Dirent(i, name))
    ensures s < |WithName(node, d, s, name, i, nd, nlink)[d].entries|
    ensures WithName(node, d, s, name, i, nd, nlink)[d].entries[s] == Dirent(i, name)
    ensures s < |node[d].entries| ==> node[d].entries[s].inum == 0
  {
  }

  /** The inodes after i became nd, and d gained the entry (i, name) in slot s. */
  function WithName(node: seq<Node>, d: int, s: nat, name: string, i: int, nd: Node, nlink: int): (r: seq<Node>)
    requires 0 <= d < |node| && 0 <= i < |node| && s <= |node[d].entries|
  {
    node[i := nd][d := Node(Dir, nlink, Put(node[d].entries, s, Dirent(i, name)))]
  }

  /** link, or create of a file: a non-directory gains one name and one link. */
  lemma {:induction false} AddFile(node: seq<Node>, place: map<int, Place>, depth: map<int, nat>, d: int, s: nat,
                                   name: string, i: int, nd: Node)
    requires Tree(node, place, depth) && Linked(node, d) && s <= |node[d].entries| && Usable(node[d].entries, s, name)
    requires 0 < i < |node| && !node[i].kind.Dir? && !nd.kind.Dir? && !nd.kind.Unused? && nd.nlink == Refs(node, i) + 1
    ensures Tree(WithName(node, d, s, name, i, nd, node[d].nlink), place, depth)
  {
    hide Refs, Dots, DistinctNames, Placed, Sound, Hollow, Usable, Childless, Edited, Put, Share, Orphans;
    var node' := WithName(node, d, s, name, i, nd, node[d].nlink);
    assert Dots(node, d);
    PutEdits(node, d, s, name, i, nd, node[d].nlink);
    NotAParent(node, place, depth, i);
    forall j {:trigger node'[j]} | 0 < j < |node'| && !node'[j].kind.Unused? ensures node'[j].nlink == Refs(node', j) {
      RefsAfterPut(node, d, s, Dirent(i, name), i, nd, node[d].nlink, j);
      NoShare(node[i], j);
      NoShare(nd, j);
      assert node[j].kind.Unused? || node[j].nlink == Refs(node, j);
    }
    EditKeepsTree(node, node', place, place, depth, depth, d, s, i);
  }

  /** The inodes after i became nd, and slot s of d was cleared. */
  function WithoutName(node: seq<Node>, d: int, s: nat, i: int, nd: Node, nlink: int): (r: seq<Node>)
    requires 0 <= d < |node| && 0 <= i < |node| && s < |node[d].entries|
  {
    node[i := nd][d := Node(Dir, nlink, node[d].entries[s := NO_ENTRY])]
  }

  /** unlink of a non-directory: it loses one name and one link. */
  lemma {:induction false} RemoveFile(node: seq<Node>, place: map<int, Place>, depth: map<int, nat>, d: int, s: nat)
    requires Tree(node, place, depth) && Linked(node, d) && 2 <= s < |node[d].entries|
    requires var i := node[d].entries[s].inum; 0 < i < |node| && !node[i].kind.Dir? && !node[i].kind.Unused?
    ensures var i := node[d].entries[s].inum;
      && node[i].nlink >= 1
      && Tree(WithoutName(node, d, s, i, node[i].(nlink := node[i].nlink - 1), node[d].nlink), place, depth)
  {
    hide Refs, DistinctNames, Placed, Hollow, Childless, Share, Orphans;
    var i := node[d].entries[s].inum;
    var nd := node[i].(nlink := node[i].nlink - 1);
    var node' := WithoutName(node, d, s, i, nd, node[d].nlink);
    assert Dots(node, d);
    SomeRef(node, d, s);
    NotAParent(node, place, depth, i);
    forall j {:trigger node'[j]} | 0 < j < |node'| && !node'[j].kind.Unused? ensures node'[j].nlink == Refs(node', j) {
      RefsAfterClear(node, d, s, i, nd, node[d].nlink, j);
      NoShare(node[i], j);
      NoShare(nd, j);
      assert node[j].nlink == Refs(node, j);
    }
    EditKeepsTree(node, node', place, place, depth, depth, d, s, i);
  }

  // ----- directories come and go -----

  /** The new directory that create builds. */
  function NewDir(i: int, d: int): Node {
    Node(Dir, 1, [Dirent(i, "."), Dirent(d, "..")])
  }

  /** create of a directory: the parent gains a name and, for "..", a link. */
  lemma {:induction false} AddDir(node: seq<Node>, place: map<int, Place>, depth: map<int, nat>, d: int, s: nat,
                                  name: string, i: int)
    requires Tree(node, place, depth) && Linked(node, d) && s <= |node[d].entries| && Usable(node[d].entries, s, name)
    requires 0 < i < |node| && node[i].kind.Unused?
    ensures d in depth
    ensures Tree(WithName(node, d, s, name, i, NewDir(i, d), node[d].nlink + 1),
                 place[i := Place(d, s)], depth[i := depth[d] + 1])
  {
    hide Refs, DistinctNames, Placed, Hollow, Usable, Childless, Put, Share, Orphans;
    var node' := WithName(node, d, s, name, i, NewDir(i, d), node[d].nlink + 1);
    assert Dots(node, d) && Deeper(node, depth, d);
    PutEdits(node, d, s, name, i, NewDir(i, d), node[d].nlink + 1);
    NotAParent(node, place, depth, i);
    UnusedUnnamed(node, place, depth, i);
    UnusedNowhere(node, place, depth, d, s, i);
    HollowCounts(i, d);
    forall j {:trigger node'[j]} | 0 < j < |node'| && !node'[j].kind.Unused? ensures node'[j].nlink == Refs(node', j) {
      RefsAfterPut(node, d, s, Dirent(i, name), i, NewDir(i, d), node[d].nlink + 1, j);
      NoShare(node[i], j);
      assert node[j].kind.Unused? || node[j].nlink == Refs(node, j);
    }
    EditKeepsTree(node, node', place, place[i := Place(d, s)], depth, depth[i := depth[d] + 1], d, s, i);
  }

  lemma {:induction false} HollowCounts(i: int, d: int)
    ensures forall j :: j != 0 ==> Share(NewDir(i, d), j) == if j == d then 1 else 0
    ensures DistinctNames(NewDir(i, d).entries)
  {
    forall j | j != 0 ensures Share(NewDir(i, d), j) == if j == d then 1 else 0 {
      HollowCount(NewDir(i, d).entries, j);
    }
  }

  lemma {:induction false} UnusedNowhere(node: seq<Node>, place: map<int, Place>, depth: map<int, nat>, d: int, s: nat,
                                         i: int)
    requires Tree(node, place, depth) && 0 < i < |node| && node[i].kind.Unused?
    ensures OnlyAt(node, d, s, i)
  {
    forall c, k {:trigger node[c].entries[k]} | Linked(node, c) && 2 <= k < |node[c].entries|
      ensures node[c].entries[k].inum != i
    {
      assert Dots(node, c);
    }
  }

  /** rmdir's target: a directory that holds nothing has no child directory, and one name only. */
  lemma {:induction false} EmptyDirectory(node: seq<Node>, place: map<int, Place>, depth: map<int, nat>, d: int, s: nat,
                                          i: int)
    requires Tree(node, place, depth) && Linked(node, d) && 2 <= s < |node[d].entries| && node[d].entries[s].inum == i
    requires Linked(node, i) && Hollow(node[i].entries)
    ensures i != ROOT && i != d && node[i].entries[1].inum == d && Childless(node, i) && OnlyAt(node, d, s, i)
  {
    hide Refs, Hollow, Deeper;
    assert Dots(node, d) && Dots(node, i) && IsPlace(node, place, d, s) && InPlace(node, place, i);
    DepthOf(node, depth, i);
    forall c {:trigger node[c].entries} | Linked(node, c) && c != i && |node[c].entries| >= 2
      ensures node[c].entries[1].inum != i
    {
      if c != ROOT {
        assert InPlace(node, place, c);
        HollowAt(node[i].entries);
      }
    }
    forall c, k {:trigger node[c].entries[k]} |
      Linked(node, c) && 2 <= k < |node[c].entries| && node[c].entries[k].inum == i
      ensures c == d && k == s
    {
      assert IsPlace(node, place, c, k);
    }
  }

  lemma {:induction false} HollowAt(es: seq<Dirent>)
    requires Hollow(es)
    ensures forall k :: 2 <= k < |es| ==> es[k].inum == 0
  {
  }

  lemma {:induction false} DepthOf(node: seq<Node>, depth: map<int, nat>, i: int)
    requires Rooted(node, depth) && Linked(node, i) && i != ROOT
    ensures |node[i].entries| >= 2 && node[i].entries[1].inum != i
  {
    assert Deeper(node, depth, i);
  }

  /** The one reference to an empty directory is its entry in its parent. */
  lemma {:induction false} OneLink(node: seq<Node>, d: int, s: nat, i: int)
    requires Linked(node, d) && 2 <= s < |node[d].entries| && node[d].entries[s].inum == i
    requires node[d].entries[s].name != "."
    requires Linked(node, i) && Childless(node, i) && OnlyAt(node, d, s, i) && Hollow(node[i].entries)
    requires node[i].entries[1].inum != i
    requires node[0].kind.Unused?
    requires forall c {:trigger Dots(node, c)} :: Linked(node, c) ==> Dots(node, c)
    ensures Refs(node, i) == 1
  {
    hide Refs;
    var es := node[d].entries[s := NO_ENTRY];
    var node' := node[d := node[d].(entries := es)];
    forall c | 0 <= c < |node'| ensures Share(node'[c], i) == 0 {
      if Linked(node', c) {
        assert Dots(node, c) && Linked(node, c);
        assert c != i ==> node[c].entries[1].inum != i;
        CountNone(node'[c].entries, i);
      }
    }
    RefsNone(node', i);
    RefsUpdate(node, d, node'[d], i);
    CountUpdate(node[d].entries, s, NO_ENTRY, i);
  }

  /** Besides the ".." of a child, a directory is named by its parent (the root, by itself). */
  lemma {:induction false} TwoLinks(node: seq<Node>, place: map<int, Place>, depth: map<int, nat>, d: int, i: int)
    requires Tree(node, place, depth) && Linked(node, d) && Linked(node, i) && i != d && Hollow(node[i].entries)
    requires node[i].entries[1].inum == d
    ensures node[d].nlink >= 2
  {
    assert Dots(node, d) && (d != ROOT ==> InPlace(node, place, d));
    var p, k := if d == ROOT then d else place[d].dir, if d == ROOT then 1 else place[d].slot;
    assert Linked(node, p) && Dots(node, p) && node[p].entries[k].inum == d && p != i;
    CountAtLeast(node[p].entries, k, d);
    CountAtLeast(node[i].entries, 1, d);
    var none := Node(Unused, 0, []);
    RefsUpdate(node, i, none, d);
    RefsUpdate(node[i := none], p, none, d);
  }

  /** unlink of an empty directory: it loses its one link, and its parent the one of "..". */
  lemma {:induction false} RemoveDir(node: seq<Node>, place: map<int, Place>, depth: map<int, nat>, d: int, s: nat)
    requires Tree(node, place, depth) && Linked(node, d) && 2 <= s < |node[d].entries|
    requires var i := node[d].entries[s].inum; Linked(node, i) && Hollow(node[i].entries)
    ensures var i := node[d].entries[s].inum;
      && i != d && node[i].nlink == 1 && node[d].nlink >= 2
      && Tree(WithoutName(node, d, s, i, node[i].(nlink := 0), node[d].nlink - 1), place, depth)
  {
    hide Refs, DistinctNames, Placed, Hollow, Childless, OnlyAt, Share, Orphans, Rooted;
    var i := node[d].entries[s].inum;
    var nd := node[i].(nlink := 0);
    var node' := WithoutName(node, d, s, i, nd, node[d].nlink - 1);
    assert Dots(node, d);
    EmptyDirectory(node, place, depth, d, s, i);
    OneLink(node, d, s, i);
    TwoLinks(node, place, depth, d, i);
    forall j {:trigger node'[j]} | 0 < j < |node'| && !node'[j].kind.Unused? ensures node'[j].nlink == Refs(node', j) {
      RefsAfterClear(node, d, s, i, nd, node[d].nlink - 1, j);
      HollowShare(node[i], j);
      NoShare(nd, j);
      assert node[j].nlink == Refs(node, j);
    }
    EditKeepsTree(node, node', place, place, depth, depth, d, s, i);
  }

  lemma {:induction false} HollowShare(nd: Node, j: int)
    requires nd.kind.Dir? && nd.nlink >= 1 && Hollow(nd.entries) && j != 0
    ensures Share(nd, j) == if nd.entries[1].inum == j then 1 else 0
  {
    HollowCount(nd.entries, j);
  }

  /** iput of an inode without links: it becomes free for ialloc. */
  lemma {:induction false} Reclaimed(node: seq<Node>, place: map<int, Place>, depth: map<int, nat>, i: int)
    requires Tree(node, place, depth) && 0 < i < |node| && !node[i].kind.Unused? && node[i].nlink == 0
    ensures Tree(node[i := Node(Unused, 0, [])], place, depth)
  {
    hide Refs, DistinctNames, Placed, Hollow, Childless, Share, Orphans;
    var node' := node[i := Node(Unused, 0, [])];
    var s := |node[ROOT].entries|;
    NotAParent(node, place, depth, i);
    assert Dots(node, ROOT);
    forall c, k {:trigger node[c].entries[k]} | Linked(node, c) && 2 <= k < |node[c].entries|
      ensures node[c].entries[k].inum != i
    {
      if node[c].entries[k].inum == i {
        assert Dots(node, c);
        SomeRef(node, c, k);
      }
    }
    forall j {:trigger node'[j]} | 0 < j < |node'| && !node'[j].kind.Unused? ensures node'[j].nlink == Refs(node', j) {
      RefsUpdate(node, i, node'[i], j);
      NoShare(node[i], j);
      NoShare(node'[i], j);
      assert node[j].nlink == Refs(node, j);
    }
    EditKeepsTree(node, node', place, place, depth, depth, ROOT, s, i);
  }

  // ----- names in a directory that was removed -----

  ghost predicate IsTree(node: seq<Node>) {
    exists place, depth :: Tree(node, place, depth)
  }

  /** A name for a file in a removed directory is lost: the file counts a link that no directory holds. */
  lemma {:induction false} FileInOrphan(node: seq<Node>, place: map<int, Place>, depth: map<int, nat>, d: int, s: nat,
                                        name: string, i: int, nd: Node)
    requires Tree(node, place, depth) && 0 < d < |node| && node[d].kind.Dir? && !Linked(node, d)
    requires s <= |node[d].entries|
    requires 0 < i < |node| && !node[i].kind.Dir? && !nd.kind.Dir? && !nd.kind.Unused? && nd.nlink == Refs(node, i) + 1
    ensures !IsTree(WithName(node, d, s, name, i, nd, node[d].nlink))
  {
    hide Refs, Share, Placed, Orphans, Dots;
    var node' := WithName(node, d, s, name, i, nd, node[d].nlink);
    RefsUpdate(node, i, nd, i);
    RefsUpdate(node[i := nd], d, node'[d], i);
    NoShare(node[i], i);
    NoShare(nd, i);
    NoShare(node[d], i);
    NoShare(node'[d], i);
    assert Refs(node', i) == Refs(node, i) && node'[i].nlink != Refs(node', i);
  }

  /** A directory made in a removed directory revives its parent, which then sits nowhere. */
  lemma {:induction false} DirInOrphan(node: seq<Node>, place: map<int, Place>, depth: map<int, nat>, d: int, s: nat,
                                       name: string, i: int)
    requires Tree(node, place, depth) && 0 < d < |node| && node[d].kind.Dir? && !Linked(node, d)
    requires s <= |node[d].entries|
    requires 0 < i < |node| && node[i].kind.Unused?
    ensures !IsTree(WithName(node, d, s, name, i, NewDir(i, d), node[d].nlink + 1))
  {
    hide Refs, Share, Orphans, Put;
    var node' := WithName(node, d, s, name, i, NewDir(i, d), node[d].nlink + 1);
    if IsTree(node') {
      var place': map<int, Place>, depth': map<int, nat> :| Tree(node', place', depth');
      assert node[d].nlink == Refs(node, d);
      assert Linked(node', d) && d != ROOT && InPlace(node', place', d) && Deeper(node', depth', d);
      var p, k := place'[d].dir, place'[d].slot;
      assert p != d && p != i && Linked(node, p) && Dots(node, p) && node[p] == node'[p];
      SomeRef(node, p, k);
      assert false;
    }
  }
}
