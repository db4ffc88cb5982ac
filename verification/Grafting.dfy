/** How adding an entry to one directory changes the meaning of the whole tree. */
module Grafting {
  import opened Entries
  import opened ValueTrees
  import opened Snapshots

  /** Every directory read to its end: the positions of the adding cursor. */
  ghost function Full(t: Tree): Positions {
    map d | d in t.kids :: |t.kids[d]|
  }

  /** Two directories above d with the same parent are the same. */
  lemma {:induction false} OneWayUp(t: Tree, y: DirRef, c: DirRef, d: DirRef)
    requires t.Ok() && d in t.kids && y in t.up && c in t.up && t.up[y] == t.up[c]
    requires Above(t, y, d) && Above(t, c, d)
    ensures y == c
    decreases d.id
  {
    if y != d && c != d {
      OneWayUp(t, y, c, t.up[d]);
    } else if y != c {
      AboveRank(t, if y == d then c else y, t.up[d]);
    }
  }

  lemma SameSlot(t: Tree, t2: Tree, p: DirRef, i: nat, d: DirRef)
    requires SameBut(t, t2, d) && p in t.kids && d in t.kids
    requires i < |t.kids[p]| && i < |t2.kids[p]| && t2.kids[p][i] == t.kids[p][i]
    requires t.kids[p][i].EDir? ==> !Above(t, t.kids[p][i].dir, d)
    ensures AbsEntry(t2, p, i) == AbsEntry(t, p, i)
  {
    if t.kids[p][i].EDir? {
      AbsOutside(t, t2, t.kids[p][i].dir, d);
    }
  }

  lemma SiblingAside(t: Tree, p: DirRef, i: nat, j: nat, d: DirRef)
    requires t.Ok() && t.NamesOk() && p in t.kids && d in t.kids
    requires i < |t.kids[p]| && j < |t.kids[p]| && i != j && t.kids[p][i].EDir? && t.kids[p][j].EDir?
    requires Above(t, t.kids[p][j].dir, d)
    ensures !Above(t, t.kids[p][i].dir, d)
  {
    assert UniqueNames(t.kids[p]);
    if Above(t, t.kids[p][i].dir, d) {
      OneWayUp(t, t.kids[p][i].dir, t.kids[p][j].dir, d);
    }
  }

  lemma SlotAt(t: Tree, t2: Tree, p: DirRef, i: nat, j: nat, d: DirRef)
    requires SameBut(t, t2, d) && t.NamesOk() && p in t.kids && d in t.kids && p != d
    requires i < |t.kids[p]| && j < |t.kids[p]| && i != j
    requires t.kids[p][j].EDir? && Above(t, t.kids[p][j].dir, d)
    ensures AbsEntry(t2, p, i) == AbsEntry(t, p, i)
  {
    if t.kids[p][i].EDir? {
      SiblingAside(t, p, i, j, d);
    }
    SameSlot(t, t2, p, i, d);
  }

  /** Of the entries of p, only the one leading to d can change. */
  lemma SlotsBut(t: Tree, t2: Tree, p: DirRef, c: DirRef, j: nat, d: DirRef)
    requires SameBut(t, t2, d) && t.NamesOk() && p in t.kids && d in t.kids && p != d
    requires j < |t.kids[p]| && t.kids[p][j] == EDir(c) && Above(t, c, d)
    ensures AbsKids(t2, p) == AbsKids(t, p)[j := NDir(c.name, c.ino, AbsKids(t2, c))]
  {
    forall i | 0 <= i < |t.kids[p]| && i != j ensures AbsEntry(t2, p, i) == AbsEntry(t, p, i) {
      SlotAt(t, t2, p, i, j, d);
    }
    SlotsAgree(t, t2, p, j);
  }

  lemma SlotsAgree(t: Tree, t2: Tree, p: DirRef, j: nat)
    requires t.Ok() && t2.Ok() && p in t.kids && p in t2.kids && t2.kids[p] == t.kids[p]
    requires j < |t.kids[p]| && t.kids[p][j].EDir?
    requires forall i :: 0 <= i < |t.kids[p]| && i != j ==> AbsEntry(t2, p, i) == AbsEntry(t, p, i)
    ensures var c := t.kids[p][j].dir;
            AbsKids(t2, p) == AbsKids(t, p)[j := NDir(c.name, c.ino, AbsKids(t2, c))]
  {
    assert AbsEntry(t2, p, j) == NDir(t.kids[p][j].dir.name, t.kids[p][j].dir.ino, AbsKids(t2, t.kids[p][j].dir));
  }

  /** The way down to c is read the same before and after a change in a directory below. */
  lemma {:induction false} PrefixStable(t: Tree, pos: Positions, t2: Tree, pos2: Positions, d: DirRef, c: DirRef)
    requires SameBut(t, t2, d) && t.NamesOk() && c in t.kids && d in t.kids && Above(t, c, d)
    requires PosOk(t, pos) && PosOk(t2, pos2) && Coherent(t, pos, c)
    requires forall x {:trigger pos[x]} {:trigger pos2[x]} :: x in t.kids && x != d ==> pos2[x] == pos[x]
    ensures Coherent(t2, pos2, c)
    ensures Prefix(t2, pos2, c) == Prefix(t, pos, c)
    decreases c.id
  {
    if c != t.root {
      var p := t.up[c];
      AboveParent(t, c, d);
      AboveRank(t, c, d);
      PrefixStable(t, pos, t2, pos2, d, p);
      var j := pos[p] - 1;
      SlotsBut(t, t2, p, c, j, d);
      assert AbsKids(t2, p)[..j] == AbsKids(t, p)[..j];
    }
  }

  lemma GraftSameBut(t: Tree, d: DirRef, e: Entry)
    requires CanGraft(t, d, e)
    ensures SameBut(t, Graft(t, d, e), d)
  {
    GraftOk(t, d, e);
  }

  /** A new name is added at the end of d and nothing else of d changes. */
  lemma GraftedKids(t: Tree, d: DirRef, e: Entry)
    requires CanGraft(t, d, e) && Find(t.kids[d], e.Name()).None?
    ensures Graft(t, d, e).Ok()
    ensures Graft(t, d, e).kids[d] == t.kids[d] + [e]
    ensures AbsKids(Graft(t, d, e), d) == AbsKids(t, d) + [NewNode(e)]
  {
    var t2 := Graft(t, d, e);
    GraftSameBut(t, d, e);
    WithoutAbsent(t.kids[d], e.Name());
    forall i | 0 <= i < |t.kids[d]| ensures AbsEntry(t2, d, i) == AbsEntry(t, d, i) {
      if t.kids[d][i].EDir? && Above(t, t.kids[d][i].dir, d) {
        AboveRank(t, t.kids[d][i].dir, d);
      }
      SameSlot(t, t2, d, i, d);
    }
  }

  /** The meaning of an entry that is a link, a leaf or a directory without children. */
  ghost function NewNode(e: Entry): Node {
    match e
    case EDir(c) => NDir(c.name, c.ino, [])
    case EMirage(n, s) => NLink(n, s.etiquette, s.ino)
    case ELeaf(l) => NLeaf(l)
  }

  /** Adding is the inverse of reading: each entry added at the adding cursor appends
      its mark to the stream built so far. */
  lemma AddAppends(t: Tree, d: DirRef, e: Entry)
    requires CanGraft(t, d, e) && t.NamesOk() && Find(t.kids[d], e.Name()).None?
    requires Coherent(t, Full(t), d)
    ensures var t2, d2 := Graft(t, d, e), if e.EDir? then e.dir else d;
            && t2.Ok() && Coherent(t2, Full(t2), d2)
            && Emitted(t2, Full(t2), d2) == Emitted(t, Full(t), d) + [MarkOf(Item(e))]
  {
    var t2 := Graft(t, d, e);
    GraftSameBut(t, d, e);
    PrefixStable(t, Full(t), t2, Full(t2), d, d);
    GraftedKids(t, d, e);
    var k, k2 := AbsKids(t, d), AbsKids(t2, d);
    assert k2 == k + [NewNode(e)];
    if e.EDir? {
      AddDirectoryAppends(t, t2, d, e.dir);
    } else {
      assert k[..|k|] == k && k2[..|k2|] == k2;
      BracketAppend(k, [NewNode(e)]);
      assert Bracket([NewNode(e)]) == [MarkOf(Item(e))];
      Assoc(Prefix(t, Full(t), d), Bracket(k), [MarkOf(Item(e))]);
    }
  }

  lemma AddDirectoryAppends(t: Tree, t2: Tree, d: DirRef, c: DirRef)
    requires t.Ok() && t2.Ok() && d in t.kids && d in t2.kids && c in t2.up && t2.up[c] == d
    requires t2.kids[d] == t.kids[d] + [EDir(c)] && t2.kids[c] == []
    requires AbsKids(t2, d) == AbsKids(t, d) + [NDir(c.name, c.ino, [])]
    requires Coherent(t, Full(t), d) && Coherent(t2, Full(t2), d) && Prefix(t2, Full(t2), d) == Prefix(t, Full(t), d)
    ensures Coherent(t2, Full(t2), c)
    ensures Emitted(t2, Full(t2), c) == Emitted(t, Full(t), d) + [Open(c.name, c.ino)]
  {
    var k := AbsKids(t, d);
    assert AbsKids(t2, d)[..|k|] == k == k[..|k|];
    assert Prefix(t2, Full(t2), c) == Emitted(t, Full(t), d) + [Open(c.name, c.ino)];
    assert AbsKids(t2, c)[..0] == [] && Bracket([]) == [];
  }

  /** s is the stream read so far, k the entries read since the last Open; root tells that
      there is none. */
  ghost predicate Shape(s: seq<Mark>, k: seq<Node>, root: bool) {
    exists x :: s == x + Bracket(k) && (x == [] <==> root) && (x != [] ==> x[|x| - 1].Open?)
  }

  lemma EmittedShape(t: Tree, pos: Positions, d: DirRef) returns (k: seq<Node>)
    requires t.Ok() && PosOk(t, pos) && d in t.kids && Coherent(t, pos, d)
    ensures Shape(Emitted(t, pos, d), k, d == t.root) && k == AbsKids(t, d)[..pos[d]]
  {
    k := AbsKids(t, d)[..pos[d]];
    var x := Prefix(t, pos, d);
    assert Emitted(t, pos, d) == x + Bracket(k);
  }

  lemma ShapeDetermines(s: seq<Mark>, k: seq<Node>, root: bool, k2: seq<Node>, root2: bool)
    requires Shape(s, k, root) && Shape(s, k2, root2)
    ensures k == k2 && root == root2
  {
    var x :| s == x + Bracket(k) && (x == [] <==> root) && (x != [] ==> x[|x| - 1].Open?);
    var x2 :| s == x2 + Bracket(k2) && (x2 == [] <==> root2) && (x2 != [] ==> x2[|x2| - 1].Open?);
    BracketSuffix(x, k, x2, k2);
  }

  /** What was read since the last unclosed directory, from the stream alone. */
  lemma StreamDetermines(t: Tree, pos: Positions, d: DirRef, s: seq<Mark>, k: seq<Node>, root: bool)
    requires t.Ok() && PosOk(t, pos) && d in t.kids && Coherent(t, pos, d)
    requires Emitted(t, pos, d) == s && Shape(s, k, root)
    ensures AbsKids(t, d)[..pos[d]] == k && (d == t.root <==> root)
  {
    var k2 := EmittedShape(t, pos, d);
    ShapeDetermines(s, k2, d == t.root, k, root);
  }

  /** The catalogue td, built so far at dd, is what was read of ts. */
  ghost predicate Copied(ts: Tree, r: Reading, td: Tree, dd: DirRef) {
    && r.Ok(ts) && InStep(ts, r)
    && td.Ok() && td.NamesOk() && dd in td.kids && Coherent(td, Full(td), dd)
    && Emitted(td, Full(td), dd) == ReadSoFar(ts, r)
  }

  lemma CopyIsNew(ts: Tree, r: Reading, td: Tree, dd: DirRef, e: Entry)
    requires Copied(ts, r, td, dd) && ts.NamesOk() && NextEvent(ts, r) == Some(Item(e))
    ensures Find(td.kids[dd], e.Name()).None?
  {
    var d, i := r.dir, r.pos[r.dir];
    var done := EmittedShape(td, Full(td), dd);
    StreamDetermines(ts, r.pos, d, ReadSoFar(ts, r), done, dd == td.root);
    assert UniqueNames(ts.kids[d]);
    var k, k2 := AbsKids(ts, d), AbsKids(td, dd);
    assert k2[..|k2|] == k2;
    forall j | 0 <= j < |td.kids[dd]| ensures td.kids[dd][j].Name() != e.Name() {
      assert k2[j] == AbsEntry(td, dd, j) && k2[j] == k[j] && k[j] == AbsEntry(ts, d, j);
      assert ts.kids[d][j].Name() != ts.kids[d][i].Name();
    }
  }

  lemma CopyEntry(ts: Tree, r: Reading, td: Tree, dd: DirRef, e: Entry, c: Entry)
    requires Copied(ts, r, td, dd) && ts.NamesOk() && NextEvent(ts, r) == Some(Item(e))
    requires MarkOf(Item(c)) == MarkOf(Item(e)) && CanGraft(td, dd, c) && Graft(td, dd, c).NamesOk()
    ensures Copied(ts, AfterRead(ts, r), Graft(td, dd, c), if c.EDir? then c.dir else dd)
  {
    CopyIsNew(ts, r, td, dd, e);
    assert c.Name() == e.Name();
    ReadAppends(ts, r);
    AddAppends(td, dd, c);
  }

  lemma CopyEod(ts: Tree, r: Reading, td: Tree, dd: DirRef)
    requires Copied(ts, r, td, dd) && NextEvent(ts, r) == Some(Eod)
    ensures dd in td.up && Copied(ts, AfterRead(ts, r), td, td.up[dd])
  {
    var done := EmittedShape(td, Full(td), dd);
    StreamDetermines(ts, r.pos, r.dir, ReadSoFar(ts, r), done, dd == td.root);
    ReadAppends(ts, r);
    StepOut(td, Full(td), dd);
  }

  lemma CopyEnd(ts: Tree, r: Reading, td: Tree, dd: DirRef)
    requires Copied(ts, r, td, dd) && NextEvent(ts, r) == None
    ensures Meaning(td) == Meaning(ts)
  {
    var done := EmittedShape(td, Full(td), dd);
    StreamDetermines(ts, r.pos, r.dir, ReadSoFar(ts, r), done, dd == td.root);
    ReadIsStream(ts, r);
    assert AbsKids(ts, r.dir)[..r.pos[r.dir]] == Meaning(ts);
    assert AbsKids(td, dd)[..Full(td)[dd]] == Meaning(td);
  }

  lemma ResetIsCopied(ts: Tree, r: Reading, td: Tree)
    requires r.Ok(ts) && r.dir == ts.root && r.pos[r.dir] == 0
    requires td == EmptyTree(ts.root.ino)
    ensures Copied(ts, r, td, td.root)
  {
    assert AbsKids(ts, ts.root)[..0] == [];
    assert AbsKids(td, td.root)[..0] == [];
  }
}
