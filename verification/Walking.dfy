/** Walking two trees in step: one is read, the other is followed directory by directory. */
module Walking {
  import opened Entries
  import opened ValueTrees
  import opened Snapshots
  import opened Grafting
  import opened Forests
  import opened Comparing
  import opened Catalogues

  /** search_children on the objects and on the values agree. */
  lemma FindIsIndexOf(t: Tree, d: DirRef, n: string)
    requires t.Ok() && d in t.kids
    ensures match IndexOf(AbsKids(t, d), n)
            case None => Find(t.kids[d], n).None?
            case Some(i) =>
              && i < |t.kids[d]| && Find(t.kids[d], n) == Some(t.kids[d][i])
              && AbsKids(t, d)[i] == AbsEntry(t, d, i)
  {
    var k := AbsKids(t, d);
    assert forall j :: 0 <= j < |k| ==> k[j] == AbsEntry(t, d, j) && k[j].Name() == t.kids[d][j].Name();
    match IndexOf(k, n)
    case Some(i) => FindAt(t.kids[d], n, i);
    case None =>
  }

  lemma {:induction false} AbsUnique(t: Tree, d: DirRef)
    requires t.Ok() && t.NamesOk() && d in t.kids
    ensures AllUnique(AbsKids(t, d))
    decreases t.next - d.id
  {
    var k := AbsKids(t, d);
    assert UniqueNames(t.kids[d]);
    forall i | 0 <= i < |k| ensures k[i] == AbsEntry(t, d, i) && (k[i].NDir? ==> AllUnique(k[i].kids)) {
      if t.kids[d][i].EDir? {
        AbsUnique(t, t.kids[d][i].dir);
      }
    }
  }

  /** x in t and d in ts are at the same path, and x is found by that path. */
  ghost predicate Lock(t: Tree, x: DirRef, ts: Tree, d: DirRef)
    requires t.Ok() && ts.Ok() && x in t.kids && d in ts.kids
    decreases x.id
  {
    if x == t.root then d == ts.root
    else
      && d != ts.root && x.name == d.name
      && Find(t.kids[t.up[x]], x.name) == Some(EDir(x))
      && Lock(t, t.up[x], ts, ts.up[d])
  }

  /** The slot of x in its parent. */
  lemma SlotOf(t: Tree, x: DirRef) returns (j: nat)
    requires t.Ok() && x in t.up && Find(t.kids[t.up[x]], x.name) == Some(EDir(x))
    ensures var k := AbsKids(t, t.up[x]);
            && j < |k| && t.kids[t.up[x]][j] == EDir(x) && IndexOf(k, x.name) == Some(j)
            && k[j] == NDir(x.name, x.ino, AbsKids(t, x))
  {
    FindIsIndexOf(t, t.up[x], x.name);
    j := IndexOf(AbsKids(t, t.up[x]), x.name).value;
  }

  /** Replacing the children of x in its parent gives the same, whatever x held. */
  lemma SetKidsStable(t: Tree, t2: Tree, x: DirRef, d: DirRef, k: seq<Node>)
    requires SameBut(t, t2, d) && t.NamesOk() && d in t.kids && x in t.up && Above(t, x, d)
    requires Find(t.kids[t.up[x]], x.name) == Some(EDir(x))
    ensures t.up[x] != d && t2.kids[t.up[x]] == t.kids[t.up[x]]
    ensures SetKids(AbsKids(t2, t.up[x]), x.name, k) == SetKids(AbsKids(t, t.up[x]), x.name, k)
  {
    var y := t.up[x];
    AboveRank(t, x, d);
    var j := SlotOf(t, x);
    SlotsBut(t, t2, y, x, j, d);
    SetKidsAgain(AbsKids(t, y), x.name, j, AbsKids(t2, x), k);
  }

  lemma SetKidsSame(t: Tree, x: DirRef)
    requires t.Ok() && x in t.up && Find(t.kids[t.up[x]], x.name) == Some(EDir(x))
    ensures SetKids(AbsKids(t, t.up[x]), x.name, AbsKids(t, x)) == AbsKids(t, t.up[x])
  {
    var j := SlotOf(t, x);
  }

  /** Adding one entry to x makes the whole tree one entry larger. */
  lemma {:induction false} SizeGrows(t: Tree, t2: Tree, x: DirRef, d: DirRef, n: nat)
    requires SameBut(t, t2, d) && t.NamesOk() && d in t.kids && x in t.kids && Above(t, x, d)
    requires Attached(t, x) && Size(AbsKids(t2, x)) == Size(AbsKids(t, x)) + n
    ensures Size(Meaning(t2)) == Size(Meaning(t)) + n
    decreases x.id
  {
    if x != t.root {
      var y := t.up[x];
      AboveParent(t, x, d);
      AboveRank(t, x, d);
      var j := SlotOf(t, x);
      SlotsBut(t, t2, y, x, j, d);
      SizeUpdate(AbsKids(t, y), j, NDir(x.name, x.ino, AbsKids(t2, x)));
      SizeGrows(t, t2, y, d, n);
    }
  }

  /** x is found by its path from the root. */
  ghost predicate Attached(t: Tree, x: DirRef)
    requires t.Ok() && x in t.kids
    decreases x.id
  {
    x == t.root || (Find(t.kids[t.up[x]], x.name) == Some(EDir(x)) && Attached(t, t.up[x]))
  }

  lemma {:induction false} LockAttached(t: Tree, x: DirRef, ts: Tree, d: DirRef)
    requires t.Ok() && ts.Ok() && x in t.kids && d in ts.kids && Lock(t, x, ts, d)
    ensures Attached(t, x)
    decreases x.id
  {
    if x != t.root {
      LockAttached(t, t.up[x], ts, ts.up[d]);
    }
  }

  /** A change in a directory below x does not unlock x. */
  lemma {:induction false} LockStable(t: Tree, t2: Tree, x0: DirRef, x: DirRef, ts: Tree, d: DirRef)
    requires SameBut(t, t2, x0) && ts.Ok() && x0 in t.kids && x in t.kids && d in ts.kids
    requires Above(t, x, x0) && Lock(t, x, ts, d)
    ensures Lock(t2, x, ts, d)
    decreases x.id
  {
    if x != t.root {
      AboveParent(t, x, x0);
      AboveRank(t, x, x0);
      LockStable(t, t2, x0, t.up[x], ts, ts.up[d]);
    }
  }

  /** How the entries of a directory are completed with those of a reference directory:
      (entries, reference entries, date of the directory, state) to (entries, state). */
  type Fold<!S> = (seq<Node>, seq<Node>, nat, S) -> (seq<Node>, S)

  /** The final entries of the root, when x ends with the entries k and the rest of the
      reference is still to be merged into the parents of x. */
  ghost function Outer<S>(f: Fold<S>, t: Tree, x: DirRef, ks: (seq<Node>, S), ts: Tree, pos: Positions,
                          d: DirRef): (seq<Node>, S)
    requires t.Ok() && ts.Ok() && PosOk(ts, pos) && x in t.kids && d in ts.kids && Lock(t, x, ts, d)
    decreases x.id
  {
    if x == t.root then ks
    else
      var y, p := t.up[x], ts.up[d];
      Outer(f, t, y, f(SetKids(AbsKids(t, y), x.name, ks.0), AbsKids(ts, p)[pos[p]..], y.ino.lastModif, ks.1), ts, pos,
        p)
  }

  /** What the walk will make of the current catalogue from here on. */
  ghost function Goal<S>(f: Fold<S>, t: Tree, x: DirRef, s: S, ts: Tree, r: Reading): (seq<Node>, S)
    requires t.Ok() && r.Ok(ts) && x in t.kids && Lock(t, x, ts, r.dir)
  {
    Outer(f, t, x, f(AbsKids(t, x), AbsKids(ts, r.dir)[r.pos[r.dir]..], x.ino.lastModif, s), ts, r.pos, r.dir)
  }

  /** Only the cursors of the strict ancestors of d matter outside of d. */
  lemma {:induction false} OuterFrame<S>(f: Fold<S>, t: Tree, x: DirRef, ks: (seq<Node>, S), ts: Tree, pos: Positions,
                                         pos2: Positions, d: DirRef)
    requires t.Ok() && ts.Ok() && PosOk(ts, pos) && PosOk(ts, pos2) && x in t.kids && d in ts.kids && Lock(t, x, ts, d)
    requires forall y {:trigger pos[y]} {:trigger pos2[y]} :: y in ts.kids && y.id < d.id ==> pos2[y] == pos[y]
    ensures Outer(f, t, x, ks, ts, pos2, d) == Outer(f, t, x, ks, ts, pos, d)
    decreases x.id
  {
    if x != t.root {
      var y, p := t.up[x], ts.up[d];
      OuterFrame(f, t, y, f(SetKids(AbsKids(t, y), x.name, ks.0), AbsKids(ts, p)[pos[p]..], y.ino.lastModif, ks.1), ts,
        pos, pos2, p);
    }
  }

  /** A change in a directory x0 below x does not matter outside of x. */
  lemma {:induction false} OuterStable<S>(f: Fold<S>, t: Tree, t2: Tree, x0: DirRef, x: DirRef, ks: (seq<Node>, S),
                                          ts: Tree, pos: Positions, d: DirRef)
    requires SameBut(t, t2, x0) && t.NamesOk() && ts.Ok() && PosOk(ts, pos)
    requires x0 in t.kids && x in t.kids && d in ts.kids && Above(t, x, x0) && Lock(t, x, ts, d)
    ensures Lock(t2, x, ts, d)
    ensures Outer(f, t2, x, ks, ts, pos, d) == Outer(f, t, x, ks, ts, pos, d)
    decreases x.id
  {
    LockStable(t, t2, x0, x, ts, d);
    if x != t.root {
      var y, p := t.up[x], ts.up[d];
      AboveParent(t, x, x0);
      SetKidsStable(t, t2, x, x0, ks.0);
      OuterStable(f, t, t2, x0, y,
        f(SetKids(AbsKids(t, y), x.name, ks.0), AbsKids(ts, p)[pos[p]..], y.ino.lastModif, ks.1), ts, pos, p);
    }
  }

  /** From r to r2 the cursor of r.dir has passed one entry and those above are the same. */
  ghost predicate Passed1(ts: Tree, r: Reading, r2: Reading) {
    && r.Ok(ts) && r2.Ok(ts)
    && r.pos[r.dir] < |ts.kids[r.dir]| && r2.pos[r.dir] == r.pos[r.dir] + 1
    && (forall y {:trigger r2.pos[y]} :: y in ts.kids && y.id < r.dir.id ==> r2.pos[y] == r.pos[y])
  }

  /** The entry read leaves the tree as it is. */
  lemma StepNothing<S>(f: Fold<S>, t: Tree, x: DirRef, s: S, s2: S, ts: Tree, r: Reading, r2: Reading)
    requires t.Ok() && Passed1(ts, r, r2) && r2.dir == r.dir && x in t.kids && Lock(t, x, ts, r.dir)
    requires var rk, i, m := AbsKids(ts, r.dir), r.pos[r.dir], x.ino.lastModif;
             f(AbsKids(t, x), rk[i..], m, s) == f(AbsKids(t, x), rk[i + 1..], m, s2)
    ensures Goal(f, t, x, s2, ts, r2) == Goal(f, t, x, s, ts, r)
  {
    OuterFrame(f, t, x, f(AbsKids(t, x), AbsKids(ts, r.dir)[r.pos[r.dir]..], x.ino.lastModif, s), ts, r.pos, r2.pos,
      r.dir);
  }

  /** The entry read makes the entry e, which is not a directory, be added to x. */
  lemma StepAdd<S>(f: Fold<S>, t: Tree, x: DirRef, s: S, s2: S, ts: Tree, r: Reading, r2: Reading, e: Entry)
    requires t.Ok() && t.NamesOk() && Passed1(ts, r, r2) && r2.dir == r.dir && x in t.kids && Lock(t, x, ts, r.dir)
    requires Find(t.kids[x], e.Name()).None? && !e.EDir?
    requires var rk, i, m := AbsKids(ts, r.dir), r.pos[r.dir], x.ino.lastModif;
             f(AbsKids(t, x), rk[i..], m, s) == f(AbsKids(t, x) + [NewNode(e)], rk[i + 1..], m, s2)
    ensures var t2 := Graft(t, x, e);
            && t2.Ok() && x in t2.kids && Lock(t2, x, ts, r2.dir)
            && Goal(f, t2, x, s2, ts, r2) == Goal(f, t, x, s, ts, r)
  {
    var t2 := Graft(t, x, e);
    GraftedKids(t, x, e);
    GraftSameBut(t, x, e);
    var ks := f(AbsKids(t, x), AbsKids(ts, r.dir)[r.pos[r.dir]..], x.ino.lastModif, s);
    OuterStable(f, t, t2, x, x, ks, ts, r.pos, r.dir);
    OuterFrame(f, t2, x, ks, ts, r.pos, r2.pos, r.dir);
  }

  /** The entry read is a directory c that exists here as the directory z. */
  lemma StepEnter<S>(f: Fold<S>, t: Tree, x: DirRef, s: S, ts: Tree, r: Reading, r2: Reading, c: DirRef, z: DirRef)
    requires t.Ok() && Passed1(ts, r, r2) && x in t.kids && Lock(t, x, ts, r.dir)
    requires ts.kids[r.dir][r.pos[r.dir]] == EDir(c) && r2.dir == c && r2.pos[c] == 0
    requires Find(t.kids[x], c.name) == Some(EDir(z))
    requires z in t.up && c in ts.up
    requires var rk, i, m := AbsKids(ts, r.dir), r.pos[r.dir], x.ino.lastModif;
             var inner := f(AbsKids(t, z), AbsKids(ts, c), z.ino.lastModif, s);
             f(AbsKids(t, x), rk[i..], m, s) == f(SetKids(AbsKids(t, x), z.name, inner.0), rk[i + 1..], m, inner.1)
    ensures Lock(t, z, ts, c)
    ensures Goal(f, t, z, s, ts, r2) == Goal(f, t, x, s, ts, r)
  {
    var d, i, m := r.dir, r.pos[r.dir], x.ino.lastModif;
    ChildInTree(t, x, c.name);
    assert t.up[z] == x && ts.up[c] == d && z != t.root && Lock(t, z, ts, c);
    OuterFrame(f, t, x, f(AbsKids(t, x), AbsKids(ts, d)[i..], m, s), ts, r.pos, r2.pos, d);
    assert AbsKids(ts, c)[0..] == AbsKids(ts, c);
    assert Goal(f, t, z, s, ts, r2) ==
             Outer(f, t, z, f(AbsKids(t, z), AbsKids(ts, c), z.ino.lastModif, s), ts, r2.pos, c);
  }

  /** The end of a reference directory. */
  lemma StepLeave<S>(f: Fold<S>, t: Tree, x: DirRef, s: S, ts: Tree, r: Reading)
    requires t.Ok() && r.Ok(ts) && x in t.kids && Lock(t, x, ts, r.dir)
    requires r.pos[r.dir] == |ts.kids[r.dir]| && r.dir in ts.up
    requires f(AbsKids(t, x), [], x.ino.lastModif, s) == (AbsKids(t, x), s)
    ensures x in t.up && Lock(t, t.up[x], ts, ts.up[r.dir])
    ensures Goal(f, t, t.up[x], s, ts, Reading(r.pos, ts.up[r.dir])) == Goal(f, t, x, s, ts, r)
  {
    assert AbsKids(ts, r.dir)[r.pos[r.dir]..] == [];
    SetKidsSame(t, x);
  }

  lemma StepEnd<S>(f: Fold<S>, t: Tree, x: DirRef, s: S, ts: Tree, r: Reading)
    requires t.Ok() && r.Ok(ts) && x in t.kids && Lock(t, x, ts, r.dir) && NextEvent(ts, r).None?
    requires f(AbsKids(t, x), [], x.ino.lastModif, s) == (AbsKids(t, x), s)
    ensures Goal(f, t, x, s, ts, r) == (Meaning(t), s)
  {
    assert AbsKids(ts, r.dir)[r.pos[r.dir]..] == [];
  }

  /** Leaving a directory unread leaves less to read. */
  lemma SkipShrinks(t: Tree, r: Reading)
    requires r.Ok(t) && r.dir in t.up
    ensures r.(dir := t.up[r.dir]).Ok(t)
    ensures ToRead(t, r.(dir := t.up[r.dir])) < ToRead(t, r)
  {
  }

  /** The reference has just handed out e; r is its reading cursor before that. */
  ghost predicate JustRead(ref: Catalogue, r: Reading, e: Entry)
    reads ref
  {
    && ref.Valid() && r.Ok(ref.tree) && NextEvent(ref.tree, r) == Some(Item(e))
    && ref.Reader() == AfterRead(ref.tree, r)
  }

  lemma JustReadPasses(ts: Tree, r: Reading, e: Entry)
    requires r.Ok(ts) && NextEvent(ts, r) == Some(Item(e))
    ensures AfterRead(ts, r).Ok(ts) && Passed1(ts, r, AfterRead(ts, r))
    ensures ToRead(ts, AfterRead(ts, r)) < ToRead(ts, r)
    ensures e.EDir? ==>
              && AfterRead(ts, r).dir == e.dir && AfterRead(ts, r).pos[e.dir] == 0
              && e.dir in ts.up && ts.up[e.dir] == r.dir
    ensures !e.EDir? ==> AfterRead(ts, r).dir == r.dir
  {
    ReadShrinks(ts, r);
    assert e == ts.kids[r.dir][r.pos[r.dir]];
  }

  /** Stays in the directory the entry was read from. */
  method StayOut(ref: Catalogue, e: Entry, ghost r: Reading)
    requires JustRead(ref, r, e)
    modifies ref`currentRead
    ensures ref.Valid() && ref.currentRead == r.dir && Passed1(ref.tree, r, ref.Reader())
    ensures ToRead(ref.tree, ref.Reader()) < ToRead(ref.tree, r)
  {
    JustReadPasses(ref.tree, r, e);
    if e.EDir? {
      SkipShrinks(ref.tree, ref.Reader());
      var ok := ref.SkipReadToParentDir();
    }
  }
}
