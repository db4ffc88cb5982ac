/** The catalogue object made of what has been read: the entries are added to their directories
    one after the other, each link on the etoile of its etiquette. */
module Rebuilding {
  import opened Entries
  import opened ValueTrees
  import opened Forests
  import opened Snapshots
  import opened Grafting
  import opened Catalogues
  import opened CatalogueDump
  import R = CatalogueRead

  /** From t to t2 the entries k have been added at the end of d, where the adding cursor is,
      with all that is below them. */
  ghost predicate Added(t: Tree, t2: Tree, d: DirRef, k: seq<Node>) {
    KeptBut(t, t2, d) && NamesAdded(t.kids[d], t2.kids[d], k) && Streamed(t, t2, d, k)
  }

  /** The other directories are as they were, and d is where it was. */
  ghost predicate KeptBut(t: Tree, t2: Tree, d: DirRef) {
    && t.Ok() && t2.Ok() && d in t.kids && d in t2.kids && t2.root == t.root
    && (forall x {:trigger x in t2.up} {:trigger x in t.up} :: x in t.up ==> x in t2.up && t2.up[x] == t.up[x])
    && (forall x {:trigger x in t2.kids} {:trigger x in t.kids} ::
          x in t.kids && x != d ==> x in t2.kids && t2.kids[x] == t.kids[x])
  }

  ghost predicate Streamed(t: Tree, t2: Tree, d: DirRef, k: seq<Node>)
    requires t.Ok() && t2.Ok() && d in t.kids && d in t2.kids
  {
    && Coherent(t, Full(t), d) && Coherent(t2, Full(t2), d)
    && Emitted(t2, Full(t2), d) == Emitted(t, Full(t), d) + Bracket(k)
  }

  ghost predicate NamesAdded(s: seq<Entry>, s2: seq<Entry>, k: seq<Node>) {
    && |s2| == |s| + |k|
    && forall i {:trigger s2[i]} :: 0 <= i < |s2| ==> s2[i].Name() == if i < |s| then s[i].Name() else k[i - |s|].Name()
  }

  lemma NothingAdded(t: Tree, d: DirRef)
    requires t.Ok() && d in t.kids && Coherent(t, Full(t), d)
    ensures Added(t, t, d, [])
  {
    assert Emitted(t, Full(t), d) + [] == Emitted(t, Full(t), d);
  }

  lemma AddedTwice(t: Tree, t1: Tree, t2: Tree, d: DirRef, a: seq<Node>, b: seq<Node>)
    requires Added(t, t1, d, a) && Added(t1, t2, d, b)
    ensures Added(t, t2, d, a + b)
  {
    BracketAppend(a, b);
    Assoc(Emitted(t, Full(t), d), Bracket(a), Bracket(b));
    NamesTwice(t.kids[d], t1.kids[d], t2.kids[d], a, b);
  }

  lemma NamesTwice(s: seq<Entry>, s1: seq<Entry>, s2: seq<Entry>, a: seq<Node>, b: seq<Node>)
    requires NamesAdded(s, s1, a) && NamesAdded(s1, s2, b)
    ensures NamesAdded(s, s2, a + b)
  {
    forall i {:trigger s2[i]} | 0 <= i < |s2|
      ensures s2[i].Name() == if i < |s| then s[i].Name() else (a + b)[i - |s|].Name()
    {
      if i < |s1| {
        assert s2[i].Name() == s1[i].Name();
      }
    }
  }

  /** The names to be added are new. */
  ghost predicate NewNames(s: seq<Entry>, k: seq<Node>) {
    forall j {:trigger k[j]} :: 0 <= j < |k| ==> Find(s, k[j].Name()).None?
  }

  lemma NextIsNew(s: seq<Entry>, s2: seq<Entry>, k: seq<Node>, i: nat)
    requires NewNames(s, k) && Unique(k) && i < |k| && NamesAdded(s, s2, k[..i])
    ensures Find(s2, k[i].Name()).None?
  {
    forall x | 0 <= x < |s2| ensures s2[x].Name() != k[i].Name() {
      if x < |s| {
        assert Find(s, k[i].Name()).None?;
      } else {
        assert k[..i][x - |s|] == k[x - |s|];
      }
    }
  }

  lemma GraftStarry(t: Tree, d: DirRef, e: Entry, sky: Sky)
    requires CanGraft(t, d, e) && Find(t.kids[d], e.Name()).None? && Starry(t, sky)
    requires e.EMirage? ==> e.star.etiquette in sky && sky[e.star.etiquette] == e.star
    ensures Starry(Graft(t, d, e), sky)
  {
    WithoutAbsent(t.kids[d], e.Name());
  }

  /** An entry that is not a directory. */
  lemma OneAdded(t: Tree, d: DirRef, e: Entry, n: Node)
    requires CanGraft(t, d, e) && t.NamesOk() && Find(t.kids[d], e.Name()).None? && Coherent(t, Full(t), d)
    requires !e.EDir? && !n.NDir? && MarkOf(Item(e)) == One(n) && e.Name() == n.Name()
    ensures Added(t, Graft(t, d, e), d, [n])
  {
    AddAppends(t, d, e);
    GraftKept(t, d, e);
    assert Bracket([n]) == [One(n)];
  }

  /** One more entry, whatever it is. */
  lemma GraftKept(t: Tree, d: DirRef, e: Entry)
    requires CanGraft(t, d, e) && Find(t.kids[d], e.Name()).None?
    ensures KeptBut(t, Graft(t, d, e), d) && Graft(t, d, e).kids[d] == t.kids[d] + [e]
    ensures e.EDir? ==> var t2 := Graft(t, d, e); e.dir in t2.up && t2.up[e.dir] == d && t2.kids[e.dir] == []
  {
    GraftOk(t, d, e);
    WithoutAbsent(t.kids[d], e.Name());
  }

  /** A directory: entered, filled and left. */
  lemma DirAdded(t: Tree, t1: Tree, t2: Tree, d: DirRef, z: DirRef, n: Node)
    requires n.NDir? && z.name == n.name && z.ino == n.ino
    requires CanGraft(t, d, EDir(z)) && t.NamesOk() && Find(t.kids[d], n.name).None? && Coherent(t, Full(t), d)
    requires t1 == Graft(t, d, EDir(z)) && Added(t1, t2, z, n.kids)
    ensures z in t2.up && t2.up[z] == d && Added(t, t2, d, [n])
  {
    var s := DirEntered(t, d, z);
    DirKept(t, t1, t2, d, z);
    DirStreamed(t1, t2, d, z, n, s);
    DirNamed(t.kids[d], z, n);
  }

  lemma DirNamed(s: seq<Entry>, z: DirRef, n: Node)
    requires z.name == n.Name()
    ensures NamesAdded(s, s + [EDir(z)], [n])
  {
  }

  lemma DirEntered(t: Tree, d: DirRef, z: DirRef) returns (s: seq<Mark>)
    requires CanGraft(t, d, EDir(z)) && t.NamesOk() && Find(t.kids[d], z.name).None? && Coherent(t, Full(t), d)
    ensures var t1 := Graft(t, d, EDir(z));
            && KeptBut(t, t1, d) && t1.kids[d] == t.kids[d] + [EDir(z)] && z !in t.kids && z in t1.up && t1.up[z] == d
            && Coherent(t1, Full(t1), z) && s == Emitted(t, Full(t), d)
            && Emitted(t1, Full(t1), z) == s + [Open(z.name, z.ino)]
  {
    GraftKept(t, d, EDir(z));
    AddAppends(t, d, EDir(z));
    s := Emitted(t, Full(t), d);
  }

  lemma DirKept(t: Tree, t1: Tree, t2: Tree, d: DirRef, z: DirRef)
    requires KeptBut(t, t1, d) && t1.kids[d] == t.kids[d] + [EDir(z)] && z in t1.up && t1.up[z] == d && z !in t.kids
    requires KeptBut(t1, t2, z)
    ensures KeptBut(t, t2, d) && t2.kids[d] == t.kids[d] + [EDir(z)] && z in t2.up && t2.up[z] == d
  {
    assert z != d;
  }

  lemma DirStreamed(t1: Tree, t2: Tree, d: DirRef, z: DirRef, n: Node, s: seq<Mark>)
    requires n.NDir? && t1.Ok() && t2.Ok() && z in t1.kids && z in t2.kids && Streamed(t1, t2, z, n.kids)
    requires z in t2.up && t2.up[z] == d
    requires Emitted(t1, Full(t1), z) == s + [Open(n.name, n.ino)]
    ensures Coherent(t2, Full(t2), d) && Emitted(t2, Full(t2), d) == s + Bracket([n])
  {
    StepOut(t2, Full(t2), z);
    assert Bracket([n]) == BracketNode(n) + [];
    Enclose(s, [Open(n.name, n.ino)], Bracket(n.kids), [Close]);
  }

  lemma Enclose<T>(s: seq<T>, o: seq<T>, k: seq<T>, c: seq<T>)
    ensures ((s + o) + k) + c == s + ((o + k + c) + [])
  {
  }

  /** Adds an entry that was read, with all that is below it. */
  method BuildNode(c: Catalogue, n: Node, stars: R.Stars)
    requires c.Valid() && Coherent(c.tree, Full(c.tree), c.currentAdd) && Starry(c.tree, stars)
    requires Find(c.tree.kids[c.currentAdd], n.Name()).None? && R.OnStar(n, stars) && (n.NDir? ==> AllUnique(n.kids))
    modifies c`tree, c`fils, c`it, c`currentAdd
    ensures c.Valid() && c.currentAdd == old(c.currentAdd) && Starry(c.tree, stars)
    ensures Added(old(c.tree), c.tree, c.currentAdd, [n])
    decreases n, 0
  {
    ghost var t, d := c.tree, c.currentAdd;
    match n
    case NDir(name, ino, kids) =>
      var z := DirRef(c.tree.next, name, ino);
      GraftStarry(t, d, EDir(z), stars);
      AddAppends(t, d, EDir(z));
      var ok := c.Add(Item(EDir(z)));
      ghost var t1 := c.tree;
      BuildKids(c, kids, stars);
      DirAdded(t, t1, c.tree, d, z, n);
      ok := c.Add(Eod);
    case NLink(name, e, ino) =>
      var link := EMirage(name, stars[e]);
      GraftStarry(t, d, link, stars);
      OneAdded(t, d, link, n);
      var ok := c.Add(Item(link));
    case NLeaf(l) =>
      GraftStarry(t, d, ELeaf(l), stars);
      OneAdded(t, d, ELeaf(l), n);
      var ok := c.Add(Item(ELeaf(l)));
  }

  /** Adds the entries of a directory. */
  method BuildKids(c: Catalogue, kids: seq<Node>, stars: R.Stars)
    requires c.Valid() && Coherent(c.tree, Full(c.tree), c.currentAdd) && Starry(c.tree, stars)
    requires NewNames(c.tree.kids[c.currentAdd], kids) && AllUnique(kids) && R.AllOnStars(kids, stars)
    modifies c`tree, c`fils, c`it, c`currentAdd
    ensures c.Valid() && c.currentAdd == old(c.currentAdd) && Starry(c.tree, stars)
    ensures Added(old(c.tree), c.tree, c.currentAdd, kids)
    decreases kids, 1
  {
    ghost var t, d := c.tree, c.currentAdd;
    var i := 0;
    NothingAdded(t, d);
    assert kids[..0] == [];
    while i < |kids|
      invariant i <= |kids| && c.Valid() && c.currentAdd == d && Starry(c.tree, stars)
      invariant Added(t, c.tree, d, kids[..i])
    {
      BuildNext(c, kids, i, stars, t);
      i := i + 1;
    }
    assert kids[..i] == kids;
  }

  method BuildNext(c: Catalogue, kids: seq<Node>, i: nat, stars: R.Stars, ghost t: Tree)
    requires c.Valid() && Starry(c.tree, stars) && i < |kids| && Added(t, c.tree, c.currentAdd, kids[..i])
    requires NewNames(t.kids[c.currentAdd], kids) && AllUnique(kids) && R.AllOnStars(kids, stars)
    modifies c`tree, c`fils, c`it, c`currentAdd
    ensures c.Valid() && c.currentAdd == old(c.currentAdd) && Starry(c.tree, stars)
    ensures Added(t, c.tree, c.currentAdd, kids[..i + 1])
    decreases kids, 0
  {
    ghost var t1, d := c.tree, c.currentAdd;
    AddedSoFar(t, t1, d, kids, i);
    assert kids[i] in kids;
    BuildNode(c, kids[i], stars);
    AddedNext(t, t1, c.tree, d, kids, i);
  }

  lemma AddedSoFar(t: Tree, t1: Tree, d: DirRef, kids: seq<Node>, i: nat)
    requires i < |kids| && Added(t, t1, d, kids[..i]) && NewNames(t.kids[d], kids) && AllUnique(kids)
    ensures Coherent(t1, Full(t1), d) && Find(t1.kids[d], kids[i].Name()).None?
    ensures kids[i].NDir? ==> AllUnique(kids[i].kids)
  {
    NextIsNew(t.kids[d], t1.kids[d], kids, i);
  }

  lemma AddedNext(t: Tree, t1: Tree, t2: Tree, d: DirRef, kids: seq<Node>, i: nat)
    requires i < |kids| && Added(t, t1, d, kids[..i]) && Added(t1, t2, d, [kids[i]])
    ensures Added(t, t2, d, kids[..i + 1])
  {
    AddedTwice(t, t1, t2, d, kids[..i], [kids[i]]);
    assert kids[..i] + [kids[i]] == kids[..i + 1];
  }

  /** The catalogue of that root and those entries. */
  method Rebuild(root: Inode, kids: seq<Node>, stars: R.Stars) returns (c: Catalogue)
    requires AllUnique(kids) && R.AllOnStars(kids, stars) && R.Etiquetted(stars)
    ensures fresh(c) && c.Valid() && Meaning(c.tree) == kids && c.tree.root.ino == root && Starry(c.tree, stars)
  {
    c := new Catalogue(root);
    ghost var t := c.tree;
    assert AbsKids(t, t.root) == [];
    BuildKids(c, kids, stars);
    RootMeans(t, c.tree, kids);
  }

  lemma RootMeans(t: Tree, t2: Tree, kids: seq<Node>)
    requires Added(t, t2, t.root, kids) && t.kids[t.root] == []
    ensures Meaning(t2) == kids
  {
    assert AbsKids(t, t.root)[..0] == [];
    assert Emitted(t, Full(t), t.root) == [];
    var k := AbsKids(t2, t2.root);
    assert k[..|k|] == k;
    assert [] + Bracket(k) == Bracket(k) && [] + Bracket(kids) == Bracket(kids);
    BracketInjective(k, kids);
  }
}
