/** Dropping what has not been read leaves exactly what has been read. */
module Truncation {
  import opened Entries
  import opened ValueTrees
  import opened Directories
  import opened Snapshots
  import opened Grafting
  import opened Catalogues

  /** tail_to_read_children on one directory. */
  function Cut(t: Tree, it: Positions, d: DirRef): Tree
    requires d in t.kids && d in it && it[d] <= |t.kids[d]|
  {
    t.(kids := t.kids[d := t.kids[d][..it[d]]])
  }

  /** The indexes, once the entries cut have been taken out. */
  function CutIndex(t: Tree, fils: Indexes, it: Positions, d: DirRef): Indexes
    requires d in t.kids && d in fils && d in it && it[d] <= |t.kids[d]|
  {
    fils[d := fils[d] - Names(t.kids[d][it[d]..])]
  }

  lemma CutIndexed(t: Tree, fils: Indexes, it: Positions, d: DirRef)
    requires AllIndexed(t, fils) && d in t.kids && d in it && it[d] <= |t.kids[d]|
    ensures d in fils && AllIndexed(Cut(t, it, d), CutIndex(t, fils, it, d))
  {
    assert IndexedAt(t, fils, d);
    IndexedTake(t.kids[d], fils[d], it[d]);
    OneIndexed(t, fils, d, t.kids[d][..it[d]], fils[d] - Names(t.kids[d][it[d]..]));
  }

  lemma CutOk(t: Tree, it: Positions, d: DirRef)
    requires t.Ok() && PosOk(t, it) && d in t.kids
    ensures Cut(t, it, d).Ok() && PosOk(Cut(t, it, d), it) && SameBut(t, Cut(t, it, d), d)
    ensures t.NamesOk() ==> Cut(t, it, d).NamesOk()
    ensures AbsKids(Cut(t, it, d), d) == AbsKids(t, d)[..it[d]]
  {
    var t2 := Cut(t, it, d);
    assert t2.KidsOk() by {
      forall x, i | x in t2.kids && 0 <= i < |t2.kids[x]| && t2.kids[x][i].EDir?
        ensures var c := t2.kids[x][i].dir; c in t2.up && t2.up[c] == x && x.id < c.id
      {
        assert t2.kids[x][i] == t.kids[x][i];
      }
    }
    if t.NamesOk() {
      forall x | x in t2.kids ensures UniqueNames(t2.kids[x]) {
        assert UniqueNames(t.kids[x]);
      }
    }
    forall i | 0 <= i < |t2.kids[d]| ensures AbsEntry(t2, d, i) == AbsEntry(t, d, i) {
      if t.kids[d][i].EDir? && Above(t, t.kids[d][i].dir, d) {
        AboveRank(t, t.kids[d][i].dir, d);
      }
      SameSlot(t, t2, d, i, d);
    }
  }

  /** Cutting d does not change what has been read on the way to d and in d. */
  lemma CutKeepsEmitted(t: Tree, it: Positions, d: DirRef)
    requires t.Ok() && t.NamesOk() && PosOk(t, it) && d in t.kids && Coherent(t, it, d)
    ensures var t2 := Cut(t, it, d);
            && t2.Ok() && PosOk(t2, it) && Coherent(t2, it, d)
            && Emitted(t2, it, d) == Emitted(t, it, d) && it[d] == |t2.kids[d]|
  {
    CutOk(t, it, d);
    PrefixStable(t, it, Cut(t, it, d), it, d, d);
    var k := AbsKids(Cut(t, it, d), d);
    assert k[..it[d]] == k;
  }

  /** Cutting d and all its ancestors. */
  ghost function CutChain(t: Tree, it: Positions, d: DirRef): Tree
    requires t.Ok() && PosOk(t, it) && d in t.kids
    decreases d.id
  {
    CutOk(t, it, d);
    if d in t.up then CutChain(Cut(t, it, d), it, t.up[d]) else Cut(t, it, d)
  }

  lemma {:induction false} CutChainOk(t: Tree, it: Positions, d: DirRef)
    requires t.Ok() && t.NamesOk() && PosOk(t, it) && d in t.kids
    ensures var t2 := CutChain(t, it, d);
            t2.Ok() && t2.NamesOk() && PosOk(t2, it) && t2.kids.Keys == t.kids.Keys && t2.root == t.root
    decreases d.id
  {
    CutOk(t, it, d);
    if d in t.up {
      CutChainOk(Cut(t, it, d), it, t.up[d]);
    }
  }

  /** The truncated tree is what was read, each opened directory being closed. */
  lemma {:induction false} TailIsExact(t: Tree, it: Positions, d: DirRef)
    requires t.Ok() && t.NamesOk() && PosOk(t, it) && d in t.kids && Coherent(t, it, d)
    ensures CutChain(t, it, d).Ok()
    ensures Bracket(Meaning(CutChain(t, it, d))) == Emitted(t, it, d) + Closes(DepthOf(t, d))
    decreases d.id
  {
    var t2 := Cut(t, it, d);
    CutOk(t, it, d);
    CutKeepsEmitted(t, it, d);
    if d == t.root {
      assert AbsKids(t2, d)[..it[d]] == Meaning(t2);
      assert Emitted(t2, it, d) + Closes(0) == Bracket(Meaning(t2));
    } else {
      var p := t.up[d];
      StepOut(t2, it, d);
      TailIsExact(t2, it, p);
      DepthSame(t, t2, p, d);
      var n := DepthOf(t, p);
      assert [Close] + Closes(n) == Closes(n + 1);
      Assoc(Emitted(t, it, d), [Close], Closes(n));
    }
  }

  lemma {:induction false} DepthSame(t: Tree, t2: Tree, x: DirRef, d: DirRef)
    requires SameBut(t, t2, d) && x in t.kids
    ensures DepthOf(t2, x) == DepthOf(t, x)
    decreases x.id
  {
    if x != t.root {
      DepthSame(t, t2, t.up[x], d);
    }
  }

  /** Cuts one directory. */
  method CutOne(c: Catalogue)
    requires c.tree.Ok() && PosOk(c.tree, c.it) && c.currentRead in c.tree.kids && AllIndexed(c.tree, c.fils)
    modifies c`tree, c`fils
    ensures c.tree == Cut(old(c.tree), c.it, c.currentRead) && c.tree.Ok() && PosOk(c.tree, c.it)
    ensures AllIndexed(c.tree, c.fils)
  {
    CutOk(c.tree, c.it, c.currentRead);
    CutIndexed(c.tree, c.fils, c.it, c.currentRead);
    c.fils := CutIndex(c.tree, c.fils, c.it, c.currentRead);
    c.tree := Cut(c.tree, c.it, c.currentRead);
  }

  /** Cuts the directory being read, then its parent, up to the root. */
  method CutAncestors(c: Catalogue)
    requires c.tree.Ok() && PosOk(c.tree, c.it) && c.currentRead in c.tree.kids && AllIndexed(c.tree, c.fils)
    modifies c`tree, c`fils, c`currentRead
    ensures AllIndexed(c.tree, c.fils)
    ensures c.tree == CutChain(old(c.tree), c.it, old(c.currentRead))
  {
    ghost var goal := CutChain(c.tree, c.it, c.currentRead);
    var more := true;
    while more
      invariant c.tree.Ok() && PosOk(c.tree, c.it) && c.currentRead in c.tree.kids && AllIndexed(c.tree, c.fils)
      invariant goal == if more then CutChain(c.tree, c.it, c.currentRead) else c.tree
      decreases more, c.currentRead.id
    {
      CutOne(c);
      more := c.currentRead in c.tree.up;
      if more {
        c.currentRead := c.tree.up[c.currentRead];
      }
    }
  }

  /** tail_catalogue_to_current_read: the catalogue keeps exactly what was read. */
  method TailCatalogueToCurrentRead(c: Catalogue)
    requires c.Valid() && InStep(c.tree, c.Reader())
    modifies c`tree, c`fils, c`currentRead
    ensures c.Valid() && c.currentRead == c.tree.root
    ensures Bracket(Meaning(c.tree)) == old(ReadSoFar(c.tree, c.Reader())) + Closes(old(DepthOf(c.tree, c.currentRead)))
  {
    TailIsExact(c.tree, c.it, c.currentRead);
    CutChainOk(c.tree, c.it, c.currentRead);
    CutAncestors(c);
    c.currentRead := c.tree.root;
  }

  /** As many directories are open as the stream read so far says. */
  lemma {:induction false} DepthOfEmitted(t: Tree, pos: Positions, d: DirRef)
    requires t.Ok() && PosOk(t, pos) && d in t.kids && Coherent(t, pos, d)
    ensures Depth(Prefix(t, pos, d)) == DepthOf(t, d) && Depth(Emitted(t, pos, d)) == DepthOf(t, d)
    decreases d.id
  {
    var k := AbsKids(t, d)[..pos[d]];
    BracketBalanced(k);
    DepthAppend(Prefix(t, pos, d), Bracket(k));
    if d != t.root {
      var p := t.up[d];
      var x, b := Prefix(t, pos, p), Bracket(AbsKids(t, p)[..pos[p] - 1]);
      DepthOfEmitted(t, pos, p);
      BracketBalanced(AbsKids(t, p)[..pos[p] - 1]);
      DepthAppend(x, b);
      DepthAppend(x + b, [Open(d.name, d.ino)]);
      assert Depth([Open(d.name, d.ino)]) == 1;
    }
  }

  lemma StartIsInStep(t: Tree, r: Reading)
    requires r.Ok(t) && r.dir == t.root && r.pos[t.root] == 0
    ensures InStep(t, r) && ReadSoFar(t, r) == []
  {
    assert AbsKids(t, t.root)[..0] == [];
  }

  /** The first n marks of the sequential reading, all of them if there are less. */
  method ReadMarks(c: Catalogue, n: nat) returns (log: seq<Mark>)
    requires c.Valid()
    modifies c`currentRead, c`it
    ensures c.Valid() && InStep(c.tree, c.Reader()) && log == ReadSoFar(c.tree, c.Reader())
    ensures log <= Bracket(Meaning(c.tree)) && |log| <= n && (|log| < n ==> log == Bracket(Meaning(c.tree)))
  {
    c.ResetRead();
    StartIsInStep(c.tree, c.Reader());
    log := [];
    var more := true;
    while |log| < n && more
      invariant c.Valid() && InStep(c.tree, c.Reader()) && log == ReadSoFar(c.tree, c.Reader()) && |log| <= n
      invariant !more ==> RestOf(c.tree, c.Reader()) == []
      decreases more, n - |log|
    {
      ReadAppends(c.tree, c.Reader());
      ReadIsStream(c.tree, c.Reader());
      var ev;
      more, ev := c.Read();
      if more {
        log := log + [MarkOf(ev)];
      }
    }
    EmittedAndRest(c.tree, c.it, c.currentRead);
    WholeOrPrefix(log, RestOf(c.tree, c.Reader()), Bracket(Meaning(c.tree)));
  }

  lemma WholeOrPrefix<T>(a: seq<T>, b: seq<T>, all: seq<T>)
    requires a + b == all
    ensures a <= all && a == all[..|a|] && (b == [] ==> a == all)
  {
  }

  /** Reading n times from the beginning, then truncating: exactly what was read is left, the
      directories still open being closed. */
  method TruncateAfter(c: Catalogue, n: nat)
    requires c.Valid()
    modifies c`tree, c`fils, c`currentRead, c`it
    ensures c.Valid()
    ensures var all := old(Bracket(Meaning(c.tree)));
            var kept := if n <= |all| then all[..n] else all;
            Depth(kept) >= 0 && Bracket(Meaning(c.tree)) == kept + Closes(Depth(kept))
  {
    var log := ReadMarks(c, n);
    DepthOfEmitted(c.tree, c.it, c.currentRead);
    ghost var all := Bracket(Meaning(c.tree));
    assert log == if n <= |all| then all[..n] else all;
    TailCatalogueToCurrentRead(c);
  }
}
