/** update_destroyed_with: the walk over the reference catalogue computes the merge. */
module DestroyedWalk {
  import opened Entries
  import opened ValueTrees
  import opened Snapshots
  import opened Grafting
  import opened Forests
  import opened Comparing
  import opened Catalogues
  import opened Destruction
  import opened Walking

  /** The merge keeps no state. */
  function Destroy(cur: seq<Node>, ref: seq<Node>, mtime: nat, s: ()): (seq<Node>, ()) {
    (Merge(cur, ref, mtime), s)
  }

  /** Unfolding the merge by the entry just read. */
  lemma MergeFrom(cur: seq<Node>, ref: seq<Node>, i: nat, mtime: nat)
    requires i < |ref|
    ensures Merge(cur, ref[i..], mtime) == Merge(MergeOne(cur, ref[i], mtime), ref[i + 1..], mtime)
  {
    assert ref[i..][1..] == ref[i + 1..];
  }

  lemma EnterMerges(t: Tree, x: DirRef, ts: Tree, d: DirRef, i: nat, c: DirRef, z: DirRef)
    requires t.Ok() && ts.Ok() && x in t.kids && d in ts.kids
    requires i < |ts.kids[d]| && ts.kids[d][i] == EDir(c)
    requires Find(t.kids[x], c.name) == Some(EDir(z)) && z in t.up && t.up[z] == x && z.name == c.name
    ensures Merge(AbsKids(t, x), AbsKids(ts, d)[i..], x.ino.lastModif) ==
            Merge(SetKids(AbsKids(t, x), z.name, Merge(AbsKids(t, z), AbsKids(ts, c), z.ino.lastModif)),
                  AbsKids(ts, d)[i + 1..], x.ino.lastModif)
  {
    var j := SlotOf(t, z);
    assert AbsKids(ts, d)[i] == AbsEntry(ts, d, i) == NDir(c.name, c.ino, AbsKids(ts, c));
    MergeFrom(AbsKids(t, x), AbsKids(ts, d), i, x.ino.lastModif);
  }

  function SignatureOfEntry(e: Entry): bv8 {
    match e
    case EDir(d) => Signature(d.ino)
    case EMirage(_, s) => Signature(s.ino)
    case ELeaf(l) => SignatureOf(NLeaf(l))
  }

  function RecordOf(e: Entry, mtime: nat): Entry {
    ELeaf(Detruit(e.Name(), SignatureOfEntry(e), mtime))
  }

  /** The walk stands at x here and at the reading cursor of the reference. */
  ghost predicate AtWalk(c: Catalogue, x: DirRef, ref: Catalogue)
    reads c, ref
  {
    && c.Valid() && ref.Valid() && x in c.tree.kids
    && Lock(c.tree, x, ref.tree, ref.currentRead)
  }

  ghost function GoalOf(c: Catalogue, x: DirRef, ref: Catalogue): seq<Node>
    requires AtWalk(c, x, ref)
    reads c, ref
  {
    Goal(Destroy, c.tree, x, (), ref.tree, ref.Reader()).0
  }

  /** The walk stands at x, the entry e has just been read; r is the cursor before that. */
  ghost predicate Meets(c: Catalogue, x: DirRef, ref: Catalogue, e: Entry, r: Reading)
    reads c, ref
  {
    && c != ref && c.Valid() && JustRead(ref, r, e) && x in c.tree.kids
    && Lock(c.tree, x, ref.tree, r.dir)
  }

  ghost function GoalBefore(c: Catalogue, x: DirRef, ref: Catalogue, e: Entry, r: Reading): seq<Node>
    requires Meets(c, x, ref, e, r)
    reads c, ref
  {
    Goal(Destroy, c.tree, x, (), ref.tree, r).0
  }

  lemma MissingIsAdded(t: Tree, x: DirRef, ts: Tree, r: Reading, e: Entry)
    requires t.Ok() && r.Ok(ts) && x in t.kids && NextEvent(ts, r) == Some(Item(e))
    requires !(e.ELeaf? && e.leaf.Detruit?) && Find(t.kids[x], e.Name()).None?
    ensures var rk, i, m := AbsKids(ts, r.dir), r.pos[r.dir], x.ino.lastModif;
            Merge(AbsKids(t, x), rk[i..], m) == Merge(AbsKids(t, x) + [NewNode(RecordOf(e, m))], rk[i + 1..], m)
  {
    var i := r.pos[r.dir];
    FindIsIndexOf(t, x, e.Name());
    MergeFrom(AbsKids(t, x), AbsKids(ts, r.dir), i, x.ino.lastModif);
    assert AbsKids(ts, r.dir)[i] == AbsEntry(ts, r.dir, i);
    assert Gone(AbsEntry(ts, r.dir, i), x.ino.lastModif) == NewNode(RecordOf(e, x.ino.lastModif));
  }

  lemma SizeOfAdded(t: Tree, x: DirRef, ts: Tree, d: DirRef, e: Entry)
    requires t.Ok() && t.NamesOk() && ts.Ok() && x in t.kids && d in ts.kids && Lock(t, x, ts, d)
    requires Find(t.kids[x], e.Name()).None? && e.ELeaf?
    ensures Graft(t, x, e).Ok() && Size(Meaning(Graft(t, x, e))) == Size(Meaning(t)) + 1
  {
    GraftedKids(t, x, e);
    GraftSameBut(t, x, e);
    SizeAppend(AbsKids(t, x), [NewNode(e)]);
    LockAttached(t, x, ts, d);
    SizeGrows(t, Graft(t, x, e), x, x, 1);
  }

  /** What remains to be done is the same once the record has been added and the entry
      passed. */
  lemma RecordAdded(t: Tree, x: DirRef, ts: Tree, r: Reading, r2: Reading, e: Entry)
    requires t.Ok() && t.NamesOk() && x in t.kids && Passed1(ts, r, r2) && r2.dir == r.dir && Lock(t, x, ts, r.dir)
    requires NextEvent(ts, r) == Some(Item(e)) && !(e.ELeaf? && e.leaf.Detruit?) && Find(t.kids[x], e.Name()).None?
    ensures var t2 := Graft(t, x, RecordOf(e, x.ino.lastModif));
            && t2.Ok() && x in t2.kids && Lock(t2, x, ts, r2.dir)
            && Goal(Destroy, t2, x, (), ts, r2) == Goal(Destroy, t, x, (), ts, r)
            && Size(Meaning(t2)) == Size(Meaning(t)) + 1
  {
    var record := RecordOf(e, x.ino.lastModif);
    MissingIsAdded(t, x, ts, r, e);
    SizeOfAdded(t, x, ts, r.dir, record);
    StepAdd(Destroy, t, x, (), (), ts, r, r2, record);
  }

  method MeetMissing(c: Catalogue, current: DirRef, ref: Catalogue, e: Entry, ghost r: Reading)
    requires Meets(c, current, ref, e, r)
    requires !(e.ELeaf? && e.leaf.Detruit?) && Find(c.tree.kids[current], e.Name()).None?
    modifies c`tree, c`fils, c`it, ref`currentRead
    ensures AtWalk(c, current, ref) && c.tree.root == old(c.tree.root)
    ensures GoalOf(c, current, ref) == old(GoalBefore(c, current, ref, e, r))
    ensures Size(Meaning(c.tree)) == old(Size(Meaning(c.tree))) + 1
    ensures ToRead(ref.tree, ref.Reader()) < ToRead(ref.tree, r)
  {
    StayOut(ref, e, r);
    RecordAdded(c.tree, current, ref.tree, r, ref.Reader(), e);
    c.AddTo(current, RecordOf(e, current.ino.lastModif));
  }

  method MeetUnchanged(c: Catalogue, current: DirRef, ref: Catalogue, e: Entry, ghost r: Reading)
    requires Meets(c, current, ref, e, r)
    requires MergeOne(AbsKids(c.tree, current), AbsEntry(ref.tree, r.dir, r.pos[r.dir]), current.ino.lastModif) ==
               AbsKids(c.tree, current)
    modifies ref`currentRead
    ensures AtWalk(c, current, ref)
    ensures GoalOf(c, current, ref) == old(GoalBefore(c, current, ref, e, r))
    ensures ToRead(ref.tree, ref.Reader()) < ToRead(ref.tree, r)
  {
    StayOut(ref, e, r);
    MergeFrom(AbsKids(c.tree, current), AbsKids(ref.tree, r.dir), r.pos[r.dir], current.ino.lastModif);
    StepNothing(Destroy, c.tree, current, (), (), ref.tree, r, ref.Reader());
  }

  /** The entry is a directory that exists here as now. */
  method MeetDirectory(c: Catalogue, current: DirRef, ref: Catalogue, e: Entry, now: DirRef, ghost r: Reading)
    requires Meets(c, current, ref, e, r)
    requires e.EDir? && Find(c.tree.kids[current], e.Name()) == Some(EDir(now))
    ensures AtWalk(c, now, ref)
    ensures GoalOf(c, now, ref) == GoalBefore(c, current, ref, e, r)
    ensures ToRead(ref.tree, ref.Reader()) < ToRead(ref.tree, r)
  {
    JustReadPasses(ref.tree, r, e);
    ChildInTree(c.tree, current, e.Name());
    EnterMerges(c.tree, current, ref.tree, r.dir, r.pos[r.dir], e.dir, now);
    StepEnter(Destroy, c.tree, current, (), ref.tree, r, ref.Reader(), e.dir, now);
  }

  /** One entry of the reference. */
  method MeetEntry(c: Catalogue, current: DirRef, ref: Catalogue, e: Entry, ghost r: Reading)
    returns (now: DirRef, added: nat)
    requires Meets(c, current, ref, e, r)
    modifies c`tree, c`fils, c`it, ref`currentRead
    ensures AtWalk(c, now, ref) && c.tree.root == old(c.tree.root)
    ensures GoalOf(c, now, ref) == old(GoalBefore(c, current, ref, e, r))
    ensures Size(Meaning(c.tree)) == old(Size(Meaning(c.tree))) + added
    ensures ToRead(ref.tree, ref.Reader()) < ToRead(ref.tree, r)
  {
    now, added := current, 0;
    var found := c.SearchChildren(current, e.Name());
    if e.ELeaf? && e.leaf.Detruit? {
      MeetUnchanged(c, current, ref, e, r);
    } else if found.None? {
      MeetMissing(c, current, ref, e, r);
      added := 1;
    } else if e.EDir? && found.value.EDir? {
      now := found.value.dir;
      MeetDirectory(c, current, ref, e, now, r);
    } else {
      NothingToMerge(c.tree, current, ref.tree, r.dir, r.pos[r.dir]);
      MeetUnchanged(c, current, ref, e, r);
    }
  }

  /** A name already there, the two entries not being both directories. */
  lemma NothingToMerge(t: Tree, x: DirRef, ts: Tree, d: DirRef, i: nat)
    requires t.Ok() && ts.Ok() && x in t.kids && d in ts.kids && i < |ts.kids[d]|
    requires var f := Find(t.kids[x], ts.kids[d][i].Name()); f.Some? && !(ts.kids[d][i].EDir? && f.value.EDir?)
    ensures MergeOne(AbsKids(t, x), AbsEntry(ts, d, i), x.ino.lastModif) == AbsKids(t, x)
  {
    FindIsIndexOf(t, x, ts.kids[d][i].Name());
  }

  method DestroyedNext(c: Catalogue, current: DirRef, ref: Catalogue) returns (ok: bool, now: DirRef, added: nat)
    requires c != ref && AtWalk(c, current, ref)
    modifies c`tree, c`fils, c`it, ref`currentRead, ref`it
    ensures AtWalk(c, now, ref) && c.tree.root == old(c.tree.root) && ref.tree == old(ref.tree)
    ensures GoalOf(c, now, ref) == old(GoalOf(c, current, ref))
    ensures Size(Meaning(c.tree)) == old(Size(Meaning(c.tree))) + added
    ensures ok ==> ToRead(ref.tree, ref.Reader()) < old(ToRead(ref.tree, ref.Reader()))
    ensures !ok ==> Meaning(c.tree) == GoalOf(c, now, ref)
  {
    ghost var r := ref.Reader();
    var ev;
    ok, ev := ref.Read();
    now, added := current, 0;
    if !ok {
      StepEnd(Destroy, c.tree, current, (), ref.tree, r);
    } else if ev.Eod? {
      ReadShrinks(ref.tree, r);
      StepLeave(Destroy, c.tree, current, (), ref.tree, r);
      now := c.tree.up[current];
    } else {
      now, added := MeetEntry(c, current, ref, ev.entry, r);
    }
  }

  method UpdateDestroyedWith(c: Catalogue, ref: Catalogue) returns (count: nat)
    requires c.Valid() && ref.Valid() && c != ref
    modifies c`tree, c`fils, c`it, ref`currentRead, ref`it
    ensures c.Valid() && ref.Valid() && ref.tree == old(ref.tree)
    ensures Meaning(c.tree) == Merge(old(Meaning(c.tree)), Meaning(ref.tree), c.tree.root.ino.lastModif)
    ensures Recorded(old(Meaning(c.tree)), Meaning(ref.tree), Meaning(c.tree), c.tree.root.ino.lastModif)
    ensures Size(Meaning(c.tree)) == old(Size(Meaning(c.tree))) + count
  {
    var current := c.tree.root;
    DestroyedIsExact(c.tree, ref.tree);
    count := 0;
    ref.ResetRead();
    ghost var goal := GoalOf(c, current, ref);
    assert AbsKids(ref.tree, ref.tree.root)[0..] == Meaning(ref.tree);
    var ok := true;
    while ok
      invariant AtWalk(c, current, ref) && ref.tree == old(ref.tree) && c.tree.root == old(c.tree.root)
      invariant GoalOf(c, current, ref) == goal
      invariant Size(Meaning(c.tree)) == old(Size(Meaning(c.tree))) + count
      invariant !ok ==> Meaning(c.tree) == goal
      decreases ok, ToRead(ref.tree, ref.Reader())
    {
      var added;
      ok, current, added := DestroyedNext(c, current, ref);
      count := count + added;
    }
  }

  /** Exactness, in one statement: existing entries stay in place, the missing names of
      every pair of same-path directories are recorded, and nothing else. */
  lemma DestroyedIsExact(t: Tree, ts: Tree)
    requires t.Ok() && t.NamesOk() && ts.Ok() && ts.NamesOk()
    ensures var m := t.root.ino.lastModif;
            && Merge(Meaning(t), Meaning(ts), m) == Exact(Meaning(t), Meaning(ts), m)
            && Recorded(Meaning(t), Meaning(ts), Merge(Meaning(t), Meaning(ts), m), m)
            && Merge(Merge(Meaning(t), Meaning(ts), m), Meaning(ts), m) == Merge(Meaning(t), Meaning(ts), m)
  {
    AbsUnique(t, t.root);
    AbsUnique(ts, ts.root);
    MergeIsExact(Meaning(t), Meaning(ts), t.root.ino.lastModif);
    MergeRecords(Meaning(t), Meaning(ts), t.root.ino.lastModif);
    MergeTwice(Meaning(t), Meaning(ts), t.root.ino.lastModif);
  }
}
