/** remove_all_mirages_and_reduce_dirs: drops every hard link and every directory left
    without entries, in place. */
module Pruning {
  import opened Entries
  import opened ValueTrees
  import opened Snapshots
  import opened Catalogues
  import opened Directories

  // ----- what it means

  function PruneNode(n: Node): (r: seq<Node>)
    ensures |r| <= 1
  {
    match n
    case NLink(_, _, _) => []
    case NDir(name, ino, kids) =>
      var k := Prune(kids);
      if k == [] then [] else [NDir(name, ino, k)]
    case NLeaf(_) => [n]
  }

  function Prune(f: seq<Node>): seq<Node> {
    if f == [] then [] else PruneNode(f[0]) + Prune(f[1..])
  }

  /** No hard link and no directory without entries, at any level. */
  ghost predicate Clean(f: seq<Node>) {
    forall i :: 0 <= i < |f| ==> !f[i].NLink? && (f[i].NDir? ==> f[i].kids != [] && Clean(f[i].kids))
  }

  /** A leaf with the directories that lead to it. */
  datatype Located = Located(above: seq<(string, Inode)>, leaf: Leaf)

  /** The leaves in order, each with the directories that lead to it. */
  function Leaves(f: seq<Node>, above: seq<(string, Inode)>): seq<Located> {
    if f == [] then []
    else LeavesOf(f[0], above) + Leaves(f[1..], above)
  }

  function LeavesOf(n: Node, above: seq<(string, Inode)>): seq<Located> {
    match n
    case NDir(name, ino, kids) => Leaves(kids, above + [(name, ino)])
    case NLeaf(l) => [Located(above, l)]
    case NLink(_, _, _) => []
  }

  lemma {:induction false} LeavesAppend(a: seq<Node>, b: seq<Node>, above: seq<(string, Inode)>)
    ensures Leaves(a + b, above) == Leaves(a, above) + Leaves(b, above)
  {
    if a == [] {
      assert a + b == b;
    } else {
      assert (a + b)[1..] == a[1..] + b;
      LeavesAppend(a[1..], b, above);
    }
  }

  lemma {:induction false} PruneAppend(a: seq<Node>, b: seq<Node>)
    ensures Prune(a + b) == Prune(a) + Prune(b)
  {
    if a == [] {
      assert a + b == b;
    } else {
      assert (a + b)[1..] == a[1..] + b;
      PruneAppend(a[1..], b);
    }
  }

  /** Pruning leaves no link and no empty directory, and exactly the leaves there were, in
      the same order and inside the same directories. */
  lemma {:induction false} PruneIsExact(f: seq<Node>, above: seq<(string, Inode)>)
    ensures Clean(Prune(f)) && Leaves(Prune(f), above) == Leaves(f, above)
  {
    if f != [] {
      var r := PruneNode(f[0]);
      PruneIsExact(f[1..], above);
      if f[0].NDir? {
        PruneIsExact(f[0].kids, above + [(f[0].name, f[0].ino)]);
      }
      assert Leaves(r, above) == LeavesOf(f[0], above) by {
        if r != [] {
          assert r == [r[0]] && r[1..] == [];
        }
      }
      LeavesAppend(r, Prune(f[1..]), above);
    }
  }

  lemma {:induction false} CleanIsKept(f: seq<Node>)
    requires Clean(f)
    ensures Prune(f) == f
  {
    if f != [] {
      if f[0].NDir? {
        CleanIsKept(f[0].kids);
      }
      var rest := f[1..];
      forall i | 0 <= i < |rest|
        ensures !rest[i].NLink? && (rest[i].NDir? ==> rest[i].kids != [] && Clean(rest[i].kids))
      {
        assert rest[i] == f[i + 1];
      }
      CleanIsKept(rest);
    }
  }

  // ----- in the tree of directories

  /** From t to t2 only entries of d or of directories below d have changed. */
  ghost predicate SameElsewhere(t: Tree, t2: Tree, d: DirRef) {
    && t.Ok() && t2.Ok() && t.NamesOk() && t2.NamesOk() && d in t.kids
    && t2.kids.Keys == t.kids.Keys && t2.up == t.up && t2.root == t.root && t2.next == t.next
    && forall x {:trigger t2.kids[x]} :: x in t.kids && !Above(t, d, x) ==> t2.kids[x] == t.kids[x]
  }

  lemma {:induction false} AboveSameUp(t: Tree, t2: Tree, x: DirRef, c: DirRef)
    requires t.Ok() && t2.Ok() && t.kids.Keys == t2.kids.Keys && t.up == t2.up && c in t.kids
    ensures Above(t, x, c) == Above(t2, x, c)
    decreases c.id
  {
    if x != c && c in t.up {
      AboveSameUp(t, t2, x, t.up[c]);
    }
  }

  lemma {:induction false} AboveTrans(t: Tree, x: DirRef, y: DirRef, c: DirRef)
    requires t.Ok() && c in t.kids && y in t.kids && Above(t, x, y) && Above(t, y, c)
    ensures Above(t, x, c)
    decreases c.id
  {
    if y != c {
      AboveTrans(t, x, y, t.up[c]);
    }
  }

  lemma SameElsewhereTrans(t: Tree, t1: Tree, t2: Tree, d: DirRef, s: DirRef)
    requires SameElsewhere(t, t1, d) && SameElsewhere(t1, t2, s) && Above(t, d, s)
    ensures SameElsewhere(t, t2, d)
  {
    forall x {:trigger t2.kids[x]} | x in t.kids && !Above(t, d, x) ensures t2.kids[x] == t.kids[x] {
      if Above(t1, s, x) {
        AboveSameUp(t, t1, s, x);
        AboveTrans(t, d, s, x);
      }
      assert t1.kids[x] == t.kids[x];
    }
  }

  lemma ChildApart(t: Tree, x: DirRef, y: DirRef, s: DirRef)
    requires t.Ok() && y in t.up && t.up[y] == x && s in t.kids && !Above(t, s, x) && !Above(t, x, s)
    ensures !Above(t, s, y) && !Above(t, y, s)
  {
    if Above(t, y, s) {
      AboveParent(t, y, s);
    }
  }

  /** A directory neither above nor below s keeps its meaning. */
  lemma {:induction false} MeansTheSame(t: Tree, t2: Tree, x: DirRef, s: DirRef)
    requires SameElsewhere(t, t2, s) && x in t.kids && !Above(t, s, x) && !Above(t, x, s)
    ensures AbsKids(t2, x) == AbsKids(t, x)
    decreases t.next - x.id
  {
    assert t2.kids[x] == t.kids[x];
    forall i | 0 <= i < |t.kids[x]| ensures AbsEntry(t2, x, i) == AbsEntry(t, x, i) {
      if t.kids[x][i].EDir? {
        var y := t.kids[x][i].dir;
        ChildApart(t, x, y, s);
        MeansTheSame(t, t2, y, s);
      }
    }
  }

  /** Two different children of one directory are not above each other. */
  lemma {:induction false} Siblings(t: Tree, d: DirRef, y: DirRef, s: DirRef)
    requires t.Ok() && y in t.up && s in t.up && t.up[y] == d && t.up[s] == d && y != s
    ensures !Above(t, y, s) && !Above(t, s, y)
  {
    if Above(t, y, s) {
      AboveRank(t, y, d);
    }
    if Above(t, s, y) {
      AboveRank(t, s, d);
    }
  }

  /** The children of d once only the sub-directory at slot i has changed. */
  lemma KidsAfterSub(t: Tree, t2: Tree, d: DirRef, i: nat, s: DirRef)
    requires t.Ok() && d in t.kids && i < |t.kids[d]| && t.kids[d][i] == EDir(s)
    requires SameElsewhere(t, t2, s)
    ensures t2.kids[d] == t.kids[d] && Above(t, d, s)
    ensures AbsKids(t2, d) == AbsKids(t, d)[i := NDir(s.name, s.ino, AbsKids(t2, s))]
  {
    assert UniqueNames(t.kids[d]);
    assert Above(t, d, d) && Above(t, d, s);
    if Above(t, s, d) {
      AboveRank(t, s, d);
    }
    var k, k2 := AbsKids(t, d), AbsKids(t2, d);
    forall j | 0 <= j < |k| && j != i ensures k2[j] == k[j] {
      assert t.kids[d][j].Name() != t.kids[d][i].Name();
      if t.kids[d][j].EDir? {
        Siblings(t, d, t.kids[d][j].dir, s);
        MeansTheSame(t, t2, t.kids[d][j].dir, s);
      }
      assert AbsEntry(t2, d, j) == AbsEntry(t, d, j);
    }
    assert k2[i] == AbsEntry(t2, d, i);
  }

  /** list::erase. */
  function EraseFrom<T>(s: seq<T>, i: nat): (r: seq<T>)
    requires i < |s|
    ensures |r| == |s| - 1
    ensures forall j {:trigger r[j]} :: 0 <= j < |r| ==> r[j] == s[if j >= i then j + 1 else j]
  {
    s[..i] + s[i + 1..]
  }

  /** The same in the directory d. */
  function Erase(t: Tree, d: DirRef, i: nat): Tree
    requires d in t.kids && i < |t.kids[d]|
  {
    t.(kids := t.kids[d := EraseFrom(t.kids[d], i)])
  }

  lemma EraseIndexed(t: Tree, fils: Indexes, d: DirRef, i: nat)
    requires AllIndexed(t, fils) && d in t.kids && i < |t.kids[d]|
    ensures d in fils && AllIndexed(Erase(t, d, i), fils[d := fils[d] - {t.kids[d][i].Name()}])
  {
    assert IndexedAt(t, fils, d);
    IndexedRemove(t.kids[d], fils[d], i);
    OneIndexed(t, fils, d, EraseFrom(t.kids[d], i), fils[d] - {t.kids[d][i].Name()});
  }

  lemma EraseTreeOk(t: Tree, d: DirRef, i: nat)
    requires t.Ok() && d in t.kids && i < |t.kids[d]|
    ensures Erase(t, d, i).Ok()
  {
    var t2 := Erase(t, d, i);
    forall x, j | x in t2.kids && 0 <= j < |t2.kids[x]| && t2.kids[x][j].EDir?
      ensures var c := t2.kids[x][j].dir; c in t2.up && t2.up[c] == x && x.id < c.id
    {
      assert t2.kids[x][j] == t.kids[x][if x == d && j >= i then j + 1 else j];
    }
  }

  lemma EraseNames(t: Tree, d: DirRef, i: nat)
    requires t.NamesOk() && d in t.kids && i < |t.kids[d]|
    ensures Erase(t, d, i).NamesOk()
  {
    var t2 := Erase(t, d, i);
    assert UniqueNames(t.kids[d]);
    forall x | x in t2.kids ensures UniqueNames(t2.kids[x]) {
      if x != d {
        assert UniqueNames(t.kids[x]);
      }
    }
  }

  lemma EraseSlot(t: Tree, d: DirRef, i: nat, j: nat)
    requires t.Ok() && d in t.kids && i < |t.kids[d]| && Erase(t, d, i).Ok() && j < |t.kids[d]| - 1
    ensures AbsKids(Erase(t, d, i), d)[j] == EraseFrom(AbsKids(t, d), i)[j]
  {
    var t2 := Erase(t, d, i);
    var j0 := if j >= i then j + 1 else j;
    assert t2.kids[d][j] == t.kids[d][j0];
    if t.kids[d][j0].EDir? {
      NotAboveParent(t, d, j0);
      AbsOutside(t, t2, t.kids[d][j0].dir, d);
    }
    assert AbsKids(t2, d)[j] == AbsEntry(t2, d, j) == AbsEntry(t, d, j0);
  }

  lemma EraseKids(t: Tree, d: DirRef, i: nat)
    requires t.Ok() && d in t.kids && i < |t.kids[d]| && Erase(t, d, i).Ok()
    ensures AbsKids(Erase(t, d, i), d) == EraseFrom(AbsKids(t, d), i)
  {
    forall j | 0 <= j < |t.kids[d]| - 1 ensures AbsKids(Erase(t, d, i), d)[j] == EraseFrom(AbsKids(t, d), i)[j] {
      EraseSlot(t, d, i, j);
    }
  }

  lemma EraseOk(t: Tree, d: DirRef, i: nat)
    requires t.Ok() && t.NamesOk() && d in t.kids && i < |t.kids[d]|
    ensures SameElsewhere(t, Erase(t, d, i), d)
  {
    EraseTreeOk(t, d, i);
    EraseNames(t, d, i);
    assert Above(t, d, d);
  }

  lemma NotAboveParent(t: Tree, d: DirRef, j: nat)
    requires t.Ok() && d in t.kids && j < |t.kids[d]| && t.kids[d][j].EDir?
    ensures !Above(t, t.kids[d][j].dir, d)
  {
    if Above(t, t.kids[d][j].dir, d) {
      AboveRank(t, t.kids[d][j].dir, d);
    }
  }

  lemma SplitAt<T>(p: seq<T>, k: seq<T>, j: nat)
    requires j < |k|
    ensures var now := p + k[j..];
            now[|p|] == k[j] && now[..|p|] == p && now[|p| + 1..] == k[j + 1..]
  {
  }

  /** Forgets the entry at slot i of d, a link or an empty directory. */
  method EraseEntry(c: Catalogue, d: DirRef, i: nat)
    requires c.tree.Ok() && c.tree.NamesOk() && AllIndexed(c.tree, c.fils) && d in c.tree.kids && i < |c.tree.kids[d]|
    modifies c`tree, c`fils
    ensures AllIndexed(c.tree, c.fils) && SameElsewhere(old(c.tree), c.tree, d)
    ensures AbsKids(c.tree, d) == old(EraseFrom(AbsKids(c.tree, d), i))
  {
    EraseOk(c.tree, d, i);
    EraseKids(c.tree, d, i);
    EraseIndexed(c.tree, c.fils, d, i);
    c.fils := c.fils[d := c.fils[d] - {c.tree.kids[d][i].Name()}];
    c.tree := Erase(c.tree, d, i);
  }

  /** The sub-directory at slot i of d, reduced in turn. */
  method PruneSub(c: Catalogue, d: DirRef, i: nat)
    requires c.tree.Ok() && c.tree.NamesOk() && AllIndexed(c.tree, c.fils) && d in c.tree.kids && i < |c.tree.kids[d]|
               && c.tree.kids[d][i].EDir?
    modifies c`tree, c`fils
    ensures AllIndexed(c.tree, c.fils) && SameElsewhere(old(c.tree), c.tree, d) && c.tree.kids[d] == old(c.tree.kids[d])
    ensures var k := old(AbsKids(c.tree, d));
            k[i].NDir? && AbsKids(c.tree, d) == k[i := NDir(k[i].name, k[i].ino, Prune(k[i].kids))]
    ensures (c.tree.kids[c.tree.kids[d][i].dir] == []) == (Prune(old(AbsKids(c.tree, d)[i]).kids) == [])
    decreases c.tree.next - d.id, 0
  {
    ghost var t, k := c.tree, AbsKids(c.tree, d);
    var sub := c.tree.kids[d][i].dir;
    assert k[i] == AbsEntry(t, d, i) == NDir(sub.name, sub.ino, AbsKids(t, sub));
    RemoveAllMiragesAndReduceDirs(c, sub);
    KidsAfterSub(t, c.tree, d, i, sub);
    SameElsewhereTrans(t, t, c.tree, d, sub);
  }

  /** The entry under the cursor goes when it is a link or has become an empty directory. */
  method PruneEntry(c: Catalogue, d: DirRef, curs: nat) returns (next: nat)
    requires c.tree.Ok() && c.tree.NamesOk() && AllIndexed(c.tree, c.fils) && d in c.tree.kids
               && curs < |c.tree.kids[d]|
    modifies c`tree, c`fils
    ensures AllIndexed(c.tree, c.fils) && SameElsewhere(old(c.tree), c.tree, d)
    ensures var k, r := old(AbsKids(c.tree, d)), PruneNode(old(AbsKids(c.tree, d)[curs]));
            AbsKids(c.tree, d) == k[..curs] + r + k[curs + 1..] && next == curs + |r|
    decreases c.tree.next - d.id, 1, 1
  {
    ghost var t, k := c.tree, AbsKids(c.tree, d);
    assert Above(t, d, d) && k[curs] == AbsEntry(t, d, curs);
    next := curs + 1;
    match c.tree.kids[d][curs]
    case EDir(sub) =>
      next := PruneDirectory(c, d, curs);
    case EMirage(_, _) =>
      EraseEntry(c, d, curs);
      next := curs;
    case ELeaf(_) =>
  }

  /** The same for a directory. */
  method PruneDirectory(c: Catalogue, d: DirRef, curs: nat) returns (next: nat)
    requires c.tree.Ok() && c.tree.NamesOk() && AllIndexed(c.tree, c.fils) && d in c.tree.kids
    requires curs < |c.tree.kids[d]| && c.tree.kids[d][curs].EDir?
    modifies c`tree, c`fils
    ensures AllIndexed(c.tree, c.fils) && SameElsewhere(old(c.tree), c.tree, d)
    ensures var k, r := old(AbsKids(c.tree, d)), PruneNode(old(AbsKids(c.tree, d)[curs]));
            AbsKids(c.tree, d) == k[..curs] + r + k[curs + 1..] && next == curs + |r|
    decreases c.tree.next - d.id, 1, 0
  {
    ghost var t, k := c.tree, AbsKids(c.tree, d);
    assert Above(t, d, d);
    var sub := c.tree.kids[d][curs].dir;
    PruneSub(c, d, curs);
    PrunedSlot(k, curs, AbsKids(c.tree, d));
    next := curs + 1;
    if c.tree.kids[sub] == [] {
      ghost var t1 := c.tree;
      EraseEntry(c, d, curs);
      SameElsewhereTrans(t, t1, c.tree, d, d);
      next := curs;
    }
  }

  /** The list with a directory pruned, and without it when nothing is left in it. */
  lemma PrunedSlot(k: seq<Node>, i: nat, now: seq<Node>)
    requires i < |k| && k[i].NDir? && now == k[i := NDir(k[i].name, k[i].ino, Prune(k[i].kids))]
    ensures var r := PruneNode(k[i]);
            if Prune(k[i].kids) == [] then |r| == 0 && EraseFrom(now, i) == k[..i] + r + k[i + 1..]
            else |r| == 1 && now == k[..i] + r + k[i + 1..]
  {
  }

  /** The entries once those before j have been treated; curs is the cursor. */
  ghost predicate Pruned(k: seq<Node>, j: nat, now: seq<Node>, curs: nat) {
    j <= |k| && now == Prune(k[..j]) + k[j..] && curs == |Prune(k[..j])|
  }

  lemma PrunedStart(k: seq<Node>)
    ensures Pruned(k, 0, k, 0)
  {
    assert k[..0] == [] && k[0..] == k;
  }

  lemma PrunedStep(k: seq<Node>, j: nat, now: seq<Node>, curs: nat)
    requires Pruned(k, j, now, curs) && curs < |now|
    ensures j < |k|
    ensures var r := PruneNode(now[curs]); Pruned(k, j + 1, now[..curs] + r + now[curs + 1..], curs + |r|)
  {
    SplitAt(Prune(k[..j]), k, j);
    PrunePush(k, j);
  }

  lemma PrunedEnd(k: seq<Node>, j: nat, now: seq<Node>, curs: nat)
    requires Pruned(k, j, now, curs) && curs >= |now|
    ensures now == Prune(k)
  {
    assert k[..j] == k;
  }

  method RemoveAllMiragesAndReduceDirs(c: Catalogue, d: DirRef)
    requires c.tree.Ok() && c.tree.NamesOk() && AllIndexed(c.tree, c.fils) && d in c.tree.kids
    modifies c`tree, c`fils
    ensures AllIndexed(c.tree, c.fils) && SameElsewhere(old(c.tree), c.tree, d)
    ensures AbsKids(c.tree, d) == Prune(old(AbsKids(c.tree, d)))
    decreases c.tree.next - d.id, 2
  {
    ghost var t, k, j := c.tree, AbsKids(c.tree, d), 0;
    assert Above(t, d, d);
    var curs: nat := 0;
    PrunedStart(k);
    while curs < |c.tree.kids[d]|
      invariant AllIndexed(c.tree, c.fils)
      invariant SameElsewhere(t, c.tree, d) && Pruned(k, j, AbsKids(c.tree, d), curs)
      decreases |k| - j
    {
      ghost var t1 := c.tree;
      PrunedStep(k, j, AbsKids(t1, d), curs);
      curs := PruneEntry(c, d, curs);
      SameElsewhereTrans(t, t1, c.tree, d, d);
      j := j + 1;
    }
    PrunedEnd(k, j, AbsKids(c.tree, d), curs);
  }

  lemma PrunePush(k: seq<Node>, j: nat)
    requires j < |k|
    ensures Prune(k[..j + 1]) == Prune(k[..j]) + PruneNode(k[j])
  {
    assert k[..j + 1] == k[..j] + [k[j]];
    PruneAppend(k[..j], [k[j]]);
    assert Prune([k[j]]) == PruneNode(k[j]) + Prune([]);
  }
}
