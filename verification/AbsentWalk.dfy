/** update_absent_with: the walk over the reference catalogue computes the completion. */
module AbsentWalk {
  import opened Entries
  import opened ValueTrees
  import opened Snapshots
  import opened Grafting
  import opened Forests
  import opened Comparing
  import opened Catalogues
  import opened Absence
  import opened StarOrigins
  import opened Walking

  /** The completion as a fold; the date of the directory plays no part. */
  function Fill(cur: seq<Node>, ref: seq<Node>, mtime: nat, s: Stars): (seq<Node>, Stars) {
    Complete(cur, ref, s)
  }

  /** What the map of etoiles means. */
  function StarsOf(corres: map<nat, Etoile>, next: nat): Stars {
    Stars(map k | k in corres :: Star(corres[k].etiquette, corres[k].ino), next)
  }

  /** The reference holds no `ignored` entry: meeting one is an internal error. */
  ghost predicate NoIgnored(t: Tree) {
    forall d, i {:trigger t.kids[d][i]} :: d in t.kids && 0 <= i < |t.kids[d]| ==>
      !(t.kids[d][i].ELeaf? && t.kids[d][i].leaf.Ignored?)
  }

  // ----- etoiles

  /** Distinct etoiles have distinct etiquettes, all below next. */
  ghost predicate Apart(hubs: set<Etoile>, next: nat) {
    && (forall a, b :: a in hubs && b in hubs && a.etiquette == b.etiquette ==> a == b)
    && (forall a :: a in hubs ==> a.etiquette < next)
  }

  /** The etoiles of a tree. */
  ghost function Hubs(t: Tree): set<Etoile> {
    set d, i | d in t.kids && 0 <= i < |t.kids[d]| && t.kids[d][i].EMirage? :: t.kids[d][i].star
  }

  lemma HubsGraft(t: Tree, d: DirRef, e: Entry)
    requires CanGraft(t, d, e) && Find(t.kids[d], e.Name()).None?
    ensures Hubs(Graft(t, d, e)) == Hubs(t) + if e.EMirage? then {e.star} else {}
  {
    var t2, n := Graft(t, d, e), |t.kids[d]|;
    WithoutAbsent(t.kids[d], e.Name());
    assert t2.kids[d] == t.kids[d] + [e] && t2.kids[d][n] == e;
    forall x, i | x in t.kids && 0 <= i < |t.kids[x]| && t.kids[x][i].EMirage? ensures t.kids[x][i].star in Hubs(t2) {
      assert t2.kids[x][i] == t.kids[x][i];
    }
    forall x, i | x in t2.kids && 0 <= i < |t2.kids[x]| && t2.kids[x][i].EMirage?
      ensures t2.kids[x][i].star in Hubs(t) + if e.EMirage? then {e.star} else {}
    {
      if x in t.kids && i < |t.kids[x]| {
        assert t2.kids[x][i] == t.kids[x][i];
      }
    }
    if e.EMirage? {
      assert t2.kids[d][n].star == e.star;
    }
  }

  // ----- unfolding the completion by the entry just read

  lemma CompleteFrom(cur: seq<Node>, ref: seq<Node>, i: nat, s: Stars)
    requires i < |ref|
    ensures var r := CompleteOne(cur, ref[i], s);
            Complete(cur, ref[i..], s) == Complete(r.0, ref[i + 1..], r.1)
  {
    assert ref[i..][1..] == ref[i + 1..];
  }

  /** Adding the empty copy of a directory first, then entering it, is the same. */
  lemma EmptyCopyFirst(cur: seq<Node>, e: Node, s: Stars)
    requires e.NDir? && IndexOf(cur, e.name).None?
    ensures CompleteOne(cur + [NDir(e.name, Unsaved(e.ino), [])], e, s) == CompleteOne(cur, e, s)
  {
    var c := cur + [NDir(e.name, Unsaved(e.ino), [])];
    IndexOfUnique(c, e.name, |cur|);
    var r := Complete([], e.kids, s);
    assert SetKids(c, e.name, r.0) == cur + [NDir(e.name, Unsaved(e.ino), r.0)];
  }

  lemma EnterCompletes(t: Tree, x: DirRef, ts: Tree, d: DirRef, i: nat, c: DirRef, z: DirRef, s: Stars)
    requires t.Ok() && ts.Ok() && x in t.kids && d in ts.kids
    requires i < |ts.kids[d]| && ts.kids[d][i] == EDir(c)
    requires Find(t.kids[x], c.name) == Some(EDir(z)) && z in t.up && t.up[z] == x && z.name == c.name
    ensures var inner := Complete(AbsKids(t, z), AbsKids(ts, c), s);
            Complete(AbsKids(t, x), AbsKids(ts, d)[i..], s) ==
            Complete(SetKids(AbsKids(t, x), z.name, inner.0), AbsKids(ts, d)[i + 1..], inner.1)
  {
    var j := SlotOf(t, z);
    assert AbsKids(ts, d)[i] == AbsEntry(ts, d, i) == NDir(c.name, c.ino, AbsKids(ts, c));
    CompleteFrom(AbsKids(t, x), AbsKids(ts, d), i, s);
  }

  /** The tree with the empty copy of a missing directory has the same goal. */
  lemma GoalWithEmptyCopy(t: Tree, x: DirRef, s: Stars, ts: Tree, r: Reading, c: DirRef)
    requires t.Ok() && t.NamesOk() && r.Ok(ts) && x in t.kids && Lock(t, x, ts, r.dir)
    requires NextEvent(ts, r) == Some(Item(EDir(c))) && Find(t.kids[x], c.name).None?
    ensures var z := DirRef(t.next, c.name, Unsaved(c.ino));
            var t2 := Graft(t, x, EDir(z));
            && t2.Ok() && x in t2.kids && Lock(t2, x, ts, r.dir)
            && Find(t2.kids[x], c.name) == Some(EDir(z))
            && Goal(Fill, t2, x, s, ts, r) == Goal(Fill, t, x, s, ts, r)
  {
    var z := DirRef(t.next, c.name, Unsaved(c.ino));
    var t2, k, rk, i := Graft(t, x, EDir(z)), AbsKids(t, x), AbsKids(ts, r.dir), r.pos[r.dir];
    GraftedKids(t, x, EDir(z));
    GraftSameBut(t, x, EDir(z));
    FindIsIndexOf(t, x, c.name);
    FindAt(t2.kids[x], c.name, |t.kids[x]|);
    assert rk[i] == AbsEntry(ts, r.dir, i) == NDir(c.name, c.ino, AbsKids(ts, c));
    CompleteFrom(k, rk, i, s);
    CompleteFrom(AbsKids(t2, x), rk, i, s);
    EmptyCopyFirst(k, rk[i], s);
    OuterStable(Fill, t, t2, x, x, Complete(k, rk[i..], s), ts, r.pos, r.dir);
  }

  /** The same, with the etoiles. */
  lemma EmptyCopy(t: Tree, x: DirRef, s: Stars, ts: Tree, r: Reading, c: DirRef)
    requires t.Ok() && t.NamesOk() && r.Ok(ts) && x in t.kids && Lock(t, x, ts, r.dir)
    requires NextEvent(ts, r) == Some(Item(EDir(c))) && Find(t.kids[x], c.name).None?
    ensures var z := DirRef(t.next, c.name, Unsaved(c.ino));
            var t2 := Graft(t, x, EDir(z));
            && CanGraft(t, x, EDir(z)) && Hubs(t2) == Hubs(t)
            && t2.Ok() && x in t2.kids && Lock(t2, x, ts, r.dir)
            && Find(t2.kids[x], c.name) == Some(EDir(z))
            && Goal(Fill, t2, x, s, ts, r) == Goal(Fill, t, x, s, ts, r)
  {
    GoalWithEmptyCopy(t, x, s, ts, r, c);
    HubsGraft(t, x, EDir(DirRef(t.next, c.name, Unsaved(c.ino))));
  }

  // ----- the walk itself

  ghost predicate AtFill(c: Catalogue, x: DirRef, ref: Catalogue)
    reads c, ref
  {
    && c.Valid() && ref.Valid() && NoIgnored(ref.tree) && x in c.tree.kids
    && Lock(c.tree, x, ref.tree, ref.currentRead)
  }

  ghost function FillOf(c: Catalogue, x: DirRef, ref: Catalogue, s: Stars): (seq<Node>, Stars)
    requires AtFill(c, x, ref)
    reads c, ref
  {
    Goal(Fill, c.tree, x, s, ref.tree, ref.Reader())
  }

  /** The walk is at x, about to treat the entry e just read. */
  ghost predicate AboutTo(c: Catalogue, x: DirRef, ref: Catalogue, e: Entry, r: Reading)
    reads c, ref
  {
    && c != ref && c.Valid() && JustRead(ref, r, e) && x in c.tree.kids && NoIgnored(ref.tree)
    && Lock(c.tree, x, ref.tree, r.dir)
  }

  ghost function FillBefore(c: Catalogue, x: DirRef, ref: Catalogue, e: Entry, r: Reading, s: Stars): (seq<Node>, Stars)
    requires AboutTo(c, x, ref, e, r)
    reads c, ref
  {
    Goal(Fill, c.tree, x, s, ref.tree, r)
  }

  /** The entry changes no list. */
  method FillNothing(c: Catalogue, x: DirRef, ref: Catalogue, e: Entry, ghost r: Reading, ghost s: Stars,
                     ghost s2: Stars)
    requires AboutTo(c, x, ref, e, r)
    requires CompleteOne(AbsKids(c.tree, x), AbsEntry(ref.tree, r.dir, r.pos[r.dir]), s) == (AbsKids(c.tree, x), s2)
    modifies ref`currentRead
    ensures AtFill(c, x, ref)
    ensures FillOf(c, x, ref, s2) == old(FillBefore(c, x, ref, e, r, s))
    ensures ToRead(ref.tree, ref.Reader()) < ToRead(ref.tree, r)
  {
    StayOut(ref, e, r);
    CompleteFrom(AbsKids(c.tree, x), AbsKids(ref.tree, r.dir), r.pos[r.dir], s);
    StepNothing(Fill, c.tree, x, s, s2, ref.tree, r, ref.Reader());
  }

  /** The entry makes n, a link or another leaf, be added. */
  method FillLeaf(c: Catalogue, x: DirRef, ref: Catalogue, e: Entry, n: Entry, ghost r: Reading, ghost s: Stars,
                  ghost s2: Stars)
    requires AboutTo(c, x, ref, e, r) && !e.EDir? && !n.EDir? && Find(c.tree.kids[x], n.Name()).None?
    requires CompleteOne(AbsKids(c.tree, x), AbsEntry(ref.tree, r.dir, r.pos[r.dir]), s) ==
               (AbsKids(c.tree, x) + [NewNode(n)], s2)
    modifies c`tree, c`fils, c`it
    ensures AtFill(c, x, ref) && c.tree.root == old(c.tree.root)
    ensures FillOf(c, x, ref, s2) == old(FillBefore(c, x, ref, e, r, s))
    ensures ToRead(ref.tree, ref.Reader()) < ToRead(ref.tree, r)
    ensures Hubs(c.tree) == old(Hubs(c.tree)) + if n.EMirage? then {n.star} else {}
  {
    ghost var t := c.tree;
    HubsGraft(t, x, n);
    JustReadPasses(ref.tree, r, e);
    CompleteFrom(AbsKids(t, x), AbsKids(ref.tree, r.dir), r.pos[r.dir], s);
    c.AddTo(x, n);
    StepAdd(Fill, t, x, s, s2, ref.tree, r, ref.Reader(), n);
  }

  /** The entry is a directory that exists here as z. */
  method FillInto(c: Catalogue, x: DirRef, ref: Catalogue, e: Entry, z: DirRef, ghost r: Reading, ghost s: Stars)
    requires AboutTo(c, x, ref, e, r) && e.EDir? && Find(c.tree.kids[x], e.Name()) == Some(EDir(z))
    ensures AtFill(c, z, ref)
    ensures FillOf(c, z, ref, s) == FillBefore(c, x, ref, e, r, s)
    ensures ToRead(ref.tree, ref.Reader()) < ToRead(ref.tree, r)
  {
    JustReadPasses(ref.tree, r, e);
    ChildInTree(c.tree, x, e.Name());
    EnterCompletes(c.tree, x, ref.tree, r.dir, r.pos[r.dir], e.dir, z, s);
    StepEnter(Fill, c.tree, x, s, ref.tree, r, ref.Reader(), e.dir, z);
  }

  /** The empty copy of a missing directory. */
  method AddEmptyCopy(c: Catalogue, x: DirRef, ref: Catalogue, e: Entry, ghost r: Reading, ghost s: Stars)
    returns (z: DirRef)
    requires AboutTo(c, x, ref, e, r) && e.EDir? && Find(c.tree.kids[x], e.Name()).None?
    modifies c`tree, c`fils, c`it
    ensures AboutTo(c, x, ref, e, r) && c.tree.root == old(c.tree.root)
    ensures Find(c.tree.kids[x], e.Name()) == Some(EDir(z))
    ensures FillBefore(c, x, ref, e, r, s) == old(FillBefore(c, x, ref, e, r, s))
    ensures Hubs(c.tree) == old(Hubs(c.tree))
  {
    z := DirRef(c.tree.next, e.dir.name, Unsaved(e.dir.ino));
    EmptyCopy(c.tree, x, s, ref.tree, r, e.dir);
    c.AddTo(x, EDir(z));
  }

  /** The entry is a directory missing here: its copy is added without children, then
      entered. */
  method FillDirectory(c: Catalogue, x: DirRef, ref: Catalogue, e: Entry, ghost r: Reading, ghost s: Stars)
    returns (z: DirRef)
    requires AboutTo(c, x, ref, e, r) && e.EDir? && Find(c.tree.kids[x], e.Name()).None?
    modifies c`tree, c`fils, c`it
    ensures AtFill(c, z, ref) && c.tree.root == old(c.tree.root)
    ensures FillOf(c, z, ref, s) == old(FillBefore(c, x, ref, e, r, s))
    ensures ToRead(ref.tree, ref.Reader()) < ToRead(ref.tree, r)
    ensures Hubs(c.tree) == old(Hubs(c.tree))
  {
    z := AddEmptyCopy(c, x, ref, e, r, s);
    FillInto(c, x, ref, e, z, r, s);
  }

  /** Every etoile of the map is that of a link of the tree. */
  ghost predicate Shining(corres: map<nat, Etoile>, hubs: set<Etoile>) {
    forall k {:trigger corres[k]} :: k in corres ==> corres[k] in hubs
  }

  lemma StarsOfUpdate(corres: map<nat, Etoile>, next: nat, k: nat, star: Etoile)
    ensures StarsOf(corres[k := star], next).of == StarsOf(corres, next).of[k := Star(star.etiquette, star.ino)]
  {
  }

  lemma ApartMore(hubs: set<Etoile>, next: nat, star: Etoile)
    requires Apart(hubs, next) && star.etiquette == next
    ensures Apart(hubs + {star}, next + 1)
  {
  }

  /** The etoile of the map for the links of s, created the first time. */
  method StarFor(s: Etoile, corres: map<nat, Etoile>, next: nat, ghost hubs: set<Etoile>)
    returns (corres2: map<nat, Etoile>, next2: nat, star: Etoile)
    requires Shining(corres, hubs)
    ensures s.etiquette in corres2 && corres2[s.etiquette] == star
    ensures StarsOf(corres2, next2) == NewStar(s.etiquette, s.ino, StarsOf(corres, next))
    ensures Shining(corres2, hubs + {star})
    ensures Apart(hubs, next) ==> Apart(hubs + {star}, next2)
  {
    corres2, next2 := corres, next;
    var k := s.etiquette;
    if k in corres {
      star := corres[k];
    } else {
      star := new Etoile(s.hostedName, Unsaved(s.ino), next);
      corres2, next2 := corres[k := star], next + 1;
      StarsOfUpdate(corres, next, k, star);
      if Apart(hubs, next) {
        ApartMore(hubs, next, star);
      }
    }
  }

  lemma LinkCompletes(t: Tree, x: DirRef, e: Entry, s: Stars, n: Entry, s2: Stars)
    requires t.Ok() && x in t.kids && e.EMirage? && Find(t.kids[x], e.linkName).None?
    requires s2 == NewStar(e.star.etiquette, e.star.ino, s) && n.EMirage? && n.linkName == e.linkName
    requires s2.of[e.star.etiquette] == Star(n.star.etiquette, n.star.ino)
    ensures CompleteOne(AbsKids(t, x), NLink(e.linkName, e.star.etiquette, e.star.ino), s) ==
              (AbsKids(t, x) + [NewNode(n)], s2)
  {
    FindIsIndexOf(t, x, e.linkName);
  }

  /** A link missing here. */
  method FillLink(c: Catalogue, x: DirRef, ref: Catalogue, e: Entry, corres: map<nat, Etoile>, next: nat,
                  ghost r: Reading)
    returns (corres2: map<nat, Etoile>, next2: nat)
    requires AboutTo(c, x, ref, e, r) && e.EMirage? && Find(c.tree.kids[x], e.linkName).None?
    requires Shining(corres, Hubs(c.tree))
    modifies c`tree, c`fils, c`it
    ensures AtFill(c, x, ref) && c.tree.root == old(c.tree.root)
    ensures FillOf(c, x, ref, StarsOf(corres2, next2)) == old(FillBefore(c, x, ref, e, r, StarsOf(corres, next)))
    ensures ToRead(ref.tree, ref.Reader()) < ToRead(ref.tree, r)
    ensures Shining(corres2, Hubs(c.tree))
    ensures old(Apart(Hubs(c.tree), next)) ==> Apart(Hubs(c.tree), next2)
  {
    var star;
    corres2, next2, star := StarFor(e.star, corres, next, Hubs(c.tree));
    var n := EMirage(e.linkName, star);
    ghost var s, s2 := StarsOf(corres, next), StarsOf(corres2, next2);
    LinkCompletes(c.tree, x, e, s, n, s2);
    FillLeaf(c, x, ref, e, n, r, s, s2);
  }

  lemma SeenLinkCompletes(t: Tree, x: DirRef, e: Entry, found: Entry, s: Stars)
    requires t.Ok() && x in t.kids && e.EMirage? && Find(t.kids[x], e.linkName) == Some(found)
    ensures var k := e.star.etiquette;
            CompleteOne(AbsKids(t, x), NLink(e.linkName, k, e.star.ino), s) ==
            (AbsKids(t, x), if found.EMirage? && k !in s.of
                            then s.(of := s.of[k := Star(found.star.etiquette, found.star.ino)]) else s)
  {
    FindIsIndexOf(t, x, e.linkName);
  }

  /** A link whose name exists here. */
  method FillSeenLink(c: Catalogue, x: DirRef, ref: Catalogue, e: Entry, found: Entry, corres: map<nat, Etoile>,
                      next: nat, ghost r: Reading)
    returns (corres2: map<nat, Etoile>)
    requires AboutTo(c, x, ref, e, r) && e.EMirage? && Find(c.tree.kids[x], e.Name()) == Some(found)
    requires Shining(corres, Hubs(c.tree))
    modifies ref`currentRead
    ensures AtFill(c, x, ref)
    ensures FillOf(c, x, ref, StarsOf(corres2, next)) == old(FillBefore(c, x, ref, e, r, StarsOf(corres, next)))
    ensures ToRead(ref.tree, ref.Reader()) < ToRead(ref.tree, r)
    ensures Shining(corres2, Hubs(c.tree))
  {
    corres2 := corres;
    if found.EMirage? && e.star.etiquette !in corres {
      corres2 := corres[e.star.etiquette := found.star];
      StarsOfUpdate(corres, next, e.star.etiquette, found.star);
      assert found.star in Hubs(c.tree);
    }
    SeenLinkCompletes(c.tree, x, e, found, StarsOf(corres, next));
    FillNothing(c, x, ref, e, r, StarsOf(corres, next), StarsOf(corres2, next));
  }

  lemma LeafCompletes(t: Tree, x: DirRef, l: Leaf, s: Stars)
    requires t.Ok() && x in t.kids
    ensures CompleteOne(AbsKids(t, x), NLeaf(l), s) ==
            (if l.Detruit? || Find(t.kids[x], l.leafName).Some? then AbsKids(t, x)
             else AbsKids(t, x) + [NewNode(ELeaf(UnsavedLeaf(l)))], s)
  {
    FindIsIndexOf(t, x, l.leafName);
  }

  /** A leaf of the reference. */
  method FillLeafEntry(c: Catalogue, x: DirRef, ref: Catalogue, e: Entry, ghost r: Reading, ghost s: Stars)
    requires AboutTo(c, x, ref, e, r) && e.ELeaf?
    modifies c`tree, c`fils, c`it, ref`currentRead
    ensures AtFill(c, x, ref) && c.tree.root == old(c.tree.root)
    ensures FillOf(c, x, ref, s) == old(FillBefore(c, x, ref, e, r, s))
    ensures ToRead(ref.tree, ref.Reader()) < ToRead(ref.tree, r)
    ensures Hubs(c.tree) == old(Hubs(c.tree))
  {
    LeafCompletes(c.tree, x, e.leaf, s);
    if e.leaf.Detruit? || Find(c.tree.kids[x], e.Name()).Some? {
      FillNothing(c, x, ref, e, r, s, s);
    } else {
      FillLeaf(c, x, ref, e, ELeaf(UnsavedLeaf(e.leaf)), r, s, s);
    }
  }

  method FillDirEntry(c: Catalogue, x: DirRef, ref: Catalogue, e: Entry, ghost r: Reading, ghost s: Stars)
    returns (now: DirRef)
    requires AboutTo(c, x, ref, e, r) && e.EDir?
    modifies c`tree, c`fils, c`it, ref`currentRead
    ensures AtFill(c, now, ref) && c.tree.root == old(c.tree.root)
    ensures FillOf(c, now, ref, s) == old(FillBefore(c, x, ref, e, r, s))
    ensures ToRead(ref.tree, ref.Reader()) < ToRead(ref.tree, r)
    ensures Hubs(c.tree) == old(Hubs(c.tree))
  {
    var found := c.SearchChildren(x, e.Name());
    if found.None? {
      now := FillDirectory(c, x, ref, e, r, s);
    } else if found.value.EDir? {
      now := found.value.dir;
      FillInto(c, x, ref, e, now, r, s);
    } else {
      now := x;
      FindIsIndexOf(c.tree, x, e.Name());
      FillNothing(c, x, ref, e, r, s, s);
    }
  }

  method FillLinkEntry(c: Catalogue, x: DirRef, ref: Catalogue, e: Entry, corres: map<nat, Etoile>, next: nat,
                       ghost r: Reading)
    returns (corres2: map<nat, Etoile>, next2: nat)
    requires AboutTo(c, x, ref, e, r) && e.EMirage? && Shining(corres, Hubs(c.tree))
    modifies c`tree, c`fils, c`it, ref`currentRead
    ensures AtFill(c, x, ref) && c.tree.root == old(c.tree.root)
    ensures FillOf(c, x, ref, StarsOf(corres2, next2)) == old(FillBefore(c, x, ref, e, r, StarsOf(corres, next)))
    ensures ToRead(ref.tree, ref.Reader()) < ToRead(ref.tree, r)
    ensures Shining(corres2, Hubs(c.tree))
    ensures old(Apart(Hubs(c.tree), next)) ==> Apart(Hubs(c.tree), next2)
  {
    var found := c.SearchChildren(x, e.Name());
    if found.None? {
      corres2, next2 := FillLink(c, x, ref, e, corres, next, r);
    } else {
      next2 := next;
      corres2 := FillSeenLink(c, x, ref, e, found.value, corres, next, r);
    }
  }

  /** One entry of the reference. */
  method FillEntry(c: Catalogue, x: DirRef, ref: Catalogue, e: Entry, corres: map<nat, Etoile>, next: nat,
                   ghost r: Reading)
    returns (now: DirRef, corres2: map<nat, Etoile>, next2: nat)
    requires AboutTo(c, x, ref, e, r) && Shining(corres, Hubs(c.tree))
    modifies c`tree, c`fils, c`it, ref`currentRead
    ensures AtFill(c, now, ref) && c.tree.root == old(c.tree.root)
    ensures FillOf(c, now, ref, StarsOf(corres2, next2)) == old(FillBefore(c, x, ref, e, r, StarsOf(corres, next)))
    ensures ToRead(ref.tree, ref.Reader()) < ToRead(ref.tree, r)
    ensures Shining(corres2, Hubs(c.tree))
    ensures old(Apart(Hubs(c.tree), next)) ==> Apart(Hubs(c.tree), next2)
  {
    now, corres2, next2 := x, corres, next;
    match e
    case EDir(_) => now := FillDirEntry(c, x, ref, e, r, StarsOf(corres, next));
    case EMirage(_, _) => corres2, next2 := FillLinkEntry(c, x, ref, e, corres, next, r);
    case ELeaf(_) => FillLeafEntry(c, x, ref, e, r, StarsOf(corres, next));
  }

  method FillNext(c: Catalogue, x: DirRef, ref: Catalogue, corres: map<nat, Etoile>, next: nat)
    returns (ok: bool, now: DirRef, corres2: map<nat, Etoile>, next2: nat)
    requires c != ref && AtFill(c, x, ref) && Shining(corres, Hubs(c.tree))
    modifies c`tree, c`fils, c`it, ref`currentRead, ref`it
    ensures AtFill(c, now, ref) && c.tree.root == old(c.tree.root) && ref.tree == old(ref.tree)
    ensures FillOf(c, now, ref, StarsOf(corres2, next2)) == old(FillOf(c, x, ref, StarsOf(corres, next)))
    ensures Shining(corres2, Hubs(c.tree))
    ensures old(Apart(Hubs(c.tree), next)) ==> Apart(Hubs(c.tree), next2)
    ensures ok ==> ToRead(ref.tree, ref.Reader()) < old(ToRead(ref.tree, ref.Reader()))
    ensures !ok ==> (Meaning(c.tree), StarsOf(corres2, next2)) == FillOf(c, now, ref, StarsOf(corres2, next2))
  {
    ghost var r, s := ref.Reader(), StarsOf(corres, next);
    var ev;
    ok, ev := ref.Read();
    now, corres2, next2 := x, corres, next;
    if !ok {
      StepEnd(Fill, c.tree, x, s, ref.tree, r);
    } else if ev.Eod? {
      ReadShrinks(ref.tree, r);
      StepLeave(Fill, c.tree, x, s, ref.tree, r);
      now := c.tree.up[x];
    } else {
      now, corres2, next2 := FillEntry(c, x, ref, ev.entry, corres, next, r);
    }
  }

  method UpdateAbsentWith(c: Catalogue, ref: Catalogue, abortingNextEtoile: nat)
    returns (ghost corres: map<nat, Etoile>, ghost next: nat)
    requires c.Valid() && ref.Valid() && c != ref && NoIgnored(ref.tree)
    modifies c`tree, c`fils, c`it, ref`currentRead, ref`it
    ensures c.Valid() && ref.Valid() && ref.tree == old(ref.tree)
    ensures (Meaning(c.tree), StarsOf(corres, next)) ==
              Complete(old(Meaning(c.tree)), Meaning(ref.tree), Stars(map[], abortingNextEtoile))
    ensures Shining(corres, Hubs(c.tree))
    ensures old(Apart(Hubs(c.tree), abortingNextEtoile)) ==> Apart(Hubs(c.tree), next)
    ensures Completed(old(Meaning(c.tree)), Meaning(ref.tree), Meaning(c.tree), StarsOf(corres, next).of)
    ensures Explained(old(Meaning(c.tree)), Meaning(ref.tree), Stars(map[], abortingNextEtoile), StarsOf(corres, next))
    ensures AllDecided(old(Meaning(c.tree)), Meaning(ref.tree), Stars(map[], abortingNextEtoile), StarsOf(corres, next))
  {
    AbsentIsCompleted(c.tree, ref.tree, abortingNextEtoile);
    var current, corresClone: map<nat, Etoile>, nextEtoile := c.tree.root, map[], abortingNextEtoile;
    ref.ResetRead();
    assert StarsOf(corresClone, nextEtoile) == Stars(map[], abortingNextEtoile);
    assert AbsKids(ref.tree, ref.tree.root)[0..] == Meaning(ref.tree);
    ghost var goal := FillOf(c, current, ref, StarsOf(corresClone, nextEtoile));
    var ok := true;
    while ok
      invariant AtFill(c, current, ref) && ref.tree == old(ref.tree) && c.tree.root == old(c.tree.root)
      invariant FillOf(c, current, ref, StarsOf(corresClone, nextEtoile)) == goal
      invariant Shining(corresClone, Hubs(c.tree))
      invariant old(Apart(Hubs(c.tree), abortingNextEtoile)) ==> Apart(Hubs(c.tree), nextEtoile)
      invariant !ok ==> (Meaning(c.tree), StarsOf(corresClone, nextEtoile)) == goal
      decreases ok, ToRead(ref.tree, ref.Reader())
    {
      ok, current, corresClone, nextEtoile := FillNext(c, current, ref, corresClone, nextEtoile);
    }
    corres, next := corresClone, nextEtoile;
  }

  lemma {:induction false} HubsBelow(t: Tree, d: DirRef, next: nat)
    requires t.Ok() && d in t.kids && Apart(Hubs(t), next)
    ensures Below(AbsKids(t, d), next)
    decreases t.next - d.id
  {
    forall i {:trigger AbsKids(t, d)[i]} | 0 <= i < |t.kids[d]| ensures BelowOne(AbsKids(t, d)[i], next) {
      assert AbsKids(t, d)[i] == AbsEntry(t, d, i);
      match t.kids[d][i]
      case EDir(c) => HubsBelow(t, c, next);
      case EMirage(_, star) => assert star in Hubs(t);
      case ELeaf(_) =>
    }
  }

  /** What the completion guarantees on the trees: entries already there are kept with all
      that was below them; each missing non-deleted entry has exactly one unsaved copy; all
      the added links of one reference etiquette have one etoile, that of a link at the same
      path or a new unsaved one; when the first number given is above the numbers in use,
      new etoiles have numbers of their own. */
  lemma AbsentIsCompleted(t: Tree, ts: Tree, next: nat)
    requires t.Ok() && t.NamesOk() && ts.Ok() && ts.NamesOk()
    ensures var start := Stars(map[], next);
            var r := Complete(Meaning(t), Meaning(ts), start);
            && Completed(Meaning(t), Meaning(ts), r.0, r.1.of)
            && Extends(Meaning(t), r.0)
            && Explained(Meaning(t), Meaning(ts), start, r.1)
            && AllDecided(Meaning(t), Meaning(ts), start, r.1)
            && (Apart(Hubs(t), next) ==> Numbered(r.1, next))
  {
    AbsUnique(t, t.root);
    AbsUnique(ts, ts.root);
    CompleteIsCompleted(Meaning(t), Meaning(ts), Stars(map[], next));
    CompleteExtends(Meaning(t), Meaning(ts), Stars(map[], next));
    StarsAreExact(Meaning(t), Meaning(ts), next);
    StarsDecided(Meaning(t), Meaning(ts), Stars(map[], next));
    if Apart(Hubs(t), next) {
      HubsBelow(t, t.root, next);
    }
  }
}
