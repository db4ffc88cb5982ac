/** The directories of a catalogue at one moment, and what the reading and adding cursors
    mean on them. */
module Snapshots {
  import opened Entries
  import opened ValueTrees

  /** `next` is above every identifier in use. */
  datatype Tree = Tree(root: DirRef, kids: map<DirRef, seq<Entry>>, up: map<DirRef, DirRef>, next: nat)
  {
    ghost predicate Ok() {
      && root in kids && up.Keys == kids.Keys - {root}
      && (forall d {:trigger d in kids} :: d in kids ==> d.id < next)
      && KidsOk() && UpOk()
    }

    ghost predicate KidsOk() {
      forall d, i {:trigger kids[d][i]} :: d in kids && 0 <= i < |kids[d]| && kids[d][i].EDir? ==>
        var c := kids[d][i].dir; c in up && up[c] == d && d.id < c.id
    }

    ghost predicate UpOk() {
      forall d {:trigger up[d]} :: d in up ==> up[d] in kids && up[d].id < d.id
    }

    ghost predicate NamesOk() {
      forall d {:trigger UniqueNames(kids[d])} :: d in kids ==> UniqueNames(kids[d])
    }
  }

  /** What read() hands out: an entry, or the end of the current directory. */
  datatype Event = Item(entry: Entry) | Eod

  function MarkOf(ev: Event): Mark {
    match ev
    case Item(EDir(d)) => Open(d.name, d.ino)
    case Item(EMirage(n, s)) => One(NLink(n, s.etiquette, s.ino))
    case Item(ELeaf(l)) => One(NLeaf(l))
    case Eod => Close
  }

  /** The children of a directory, in order, as values. */
  ghost function AbsKids(t: Tree, d: DirRef): (r: seq<Node>)
    requires t.Ok() && d in t.kids
    ensures |r| == |t.kids[d]|
    decreases t.next - d.id, 1
  {
    seq(|t.kids[d]|, i requires 0 <= i < |t.kids[d]| => AbsEntry(t, d, i))
  }

  ghost function AbsEntry(t: Tree, d: DirRef, i: nat): (r: Node)
    requires t.Ok() && d in t.kids && i < |t.kids[d]|
    ensures r.Name() == t.kids[d][i].Name()
    decreases t.next - d.id, 0
  {
    match t.kids[d][i]
    case EDir(c) => NDir(c.name, c.ino, AbsKids(t, c))
    case EMirage(n, s) => NLink(n, s.etiquette, s.ino)
    case ELeaf(l) => NLeaf(l)
  }

  ghost function Meaning(t: Tree): seq<Node>
    requires t.Ok()
  {
    AbsKids(t, t.root)
  }

  /** x is c or an ancestor of c. */
  ghost predicate Above(t: Tree, x: DirRef, c: DirRef)
    requires t.Ok() && c in t.kids
    decreases c.id
  {
    x == c || (c in t.up && Above(t, x, t.up[c]))
  }

  lemma {:induction false} AboveParent(t: Tree, y: DirRef, c: DirRef)
    requires t.Ok() && c in t.kids && y in t.up && Above(t, y, c)
    ensures Above(t, t.up[y], c)
    decreases c.id
  {
    if y != c {
      AboveParent(t, y, t.up[c]);
    }
    assert Above(t, t.up[y], t.up[y]);
  }

  lemma {:induction false} AboveRank(t: Tree, y: DirRef, c: DirRef)
    requires t.Ok() && c in t.kids && Above(t, y, c)
    ensures y in t.kids && y.id <= c.id && (y != c ==> y.id < c.id)
    decreases c.id
  {
    if y != c {
      AboveRank(t, y, t.up[c]);
    }
  }

  /** t2 has the directories of t, with the same entries everywhere except in c. */
  ghost predicate SameBut(t: Tree, t2: Tree, c: DirRef) {
    && t.Ok() && t2.Ok() && t.kids.Keys <= t2.kids.Keys && t.root == t2.root
    && (forall d :: d in t.kids && d != c ==> t2.kids[d] == t.kids[d])
    && (forall d :: d in t.up ==> d in t2.up && t2.up[d] == t.up[d])
  }

  /** Changing the entries of c changes the meaning of c and of its ancestors only. */
  lemma {:induction false} AbsOutside(t: Tree, t2: Tree, x: DirRef, c: DirRef)
    requires SameBut(t, t2, c) && x in t.kids && c in t.kids && !Above(t, x, c)
    ensures AbsKids(t2, x) == AbsKids(t, x)
    decreases t.next - x.id
  {
    forall i | 0 <= i < |t.kids[x]| ensures AbsEntry(t2, x, i) == AbsEntry(t, x, i) {
      if t.kids[x][i].EDir? {
        var y := t.kids[x][i].dir;
        if Above(t, y, c) {
          AboveParent(t, y, c);
        }
        AbsOutside(t, t2, y, c);
      }
    }
  }

  type Positions = map<DirRef, nat>

  ghost predicate PosOk(t: Tree, pos: Positions) {
    t.kids.Keys <= pos.Keys && forall d {:trigger pos[d]} :: d in t.kids ==> pos[d] <= |t.kids[d]|
  }

  /** What remains to be read once the cursor is in d: the rest of d, its end, and what
      remains in its parent. */
  ghost function Rest(t: Tree, pos: Positions, d: DirRef): seq<Mark>
    requires t.Ok() && PosOk(t, pos) && d in t.kids
    decreases d.id
  {
    Bracket(AbsKids(t, d)[pos[d]..]) +
    (if d == t.root then [] else [Close] + Rest(t, pos, t.up[d]))
  }

  /** Each directory on the way to d is the entry its parent's cursor has just passed. */
  ghost predicate Coherent(t: Tree, pos: Positions, d: DirRef)
    requires t.Ok() && PosOk(t, pos) && d in t.kids
    decreases d.id
  {
    d == t.root ||
    (var p := t.up[d]; pos[p] > 0 && t.kids[p][pos[p] - 1] == EDir(d) && Coherent(t, pos, p))
  }

  /** The stream up to and including the opening of d. */
  ghost function Prefix(t: Tree, pos: Positions, d: DirRef): seq<Mark>
    requires t.Ok() && PosOk(t, pos) && d in t.kids && Coherent(t, pos, d)
    decreases d.id
  {
    if d == t.root then []
    else var p := t.up[d];
      Prefix(t, pos, p) + Bracket(AbsKids(t, p)[..pos[p] - 1]) + [Open(d.name, d.ino)]
  }

  /** Everything read so far. */
  ghost function Emitted(t: Tree, pos: Positions, d: DirRef): seq<Mark>
    requires t.Ok() && PosOk(t, pos) && d in t.kids && Coherent(t, pos, d)
  {
    Prefix(t, pos, d) + Bracket(AbsKids(t, d)[..pos[d]])
  }

  ghost function DepthOf(t: Tree, d: DirRef): nat
    requires t.Ok() && d in t.kids
    decreases d.id
  {
    if d == t.root then 0 else 1 + DepthOf(t, t.up[d])
  }

  lemma BracketSplit(f: seq<Node>, i: nat)
    requires i < |f|
    ensures Bracket(f[..i + 1]) == Bracket(f[..i]) + BracketNode(f[i])
    ensures Bracket(f[i..]) == BracketNode(f[i]) + Bracket(f[i + 1..])
  {
    assert f[i..][1..] == f[i + 1..];
    assert f[..i + 1] == f[..i] + [f[i]];
    BracketAppend(f[..i], [f[i]]);
    assert Bracket([f[i]]) == BracketNode(f[i]) + Bracket([]);
  }

  lemma Regroup<T>(p: seq<T>, b: seq<T>, o: seq<T>, k: seq<T>, l: seq<T>, c: seq<T>, r: seq<T>)
    ensures ((p + b + o) + k) + (l + (c + r)) == (p + (b + (o + (k + l) + c))) + r
  {
  }

  lemma Regroup3<T>(o: seq<T>, b: seq<T>, c: seq<T>, r: seq<T>, z: seq<T>)
    ensures (o + b + c) + r + z == o + (b + (c + (r + z)))
  {
  }

  lemma Regroup4<T>(p: seq<T>, b: seq<T>, o: seq<T>, k: seq<T>, c: seq<T>)
    ensures p + (b + (o + k + c)) == ((p + b + o) + k) + c
  {
  }

  /** Read so far and left to read always make up the whole bracketed preorder. */
  lemma {:induction false} EmittedAndRest(t: Tree, pos: Positions, d: DirRef)
    requires t.Ok() && PosOk(t, pos) && d in t.kids && Coherent(t, pos, d)
    ensures Emitted(t, pos, d) + Rest(t, pos, d) == Bracket(Meaning(t))
    decreases d.id
  {
    var k := AbsKids(t, d);
    assert k == k[..pos[d]] + k[pos[d]..];
    BracketAppend(k[..pos[d]], k[pos[d]..]);
    if d != t.root {
      var p := t.up[d];
      var i := pos[p] - 1;
      EmittedAndRest(t, pos, p);
      BracketSplit(AbsKids(t, p), i);
      assert AbsKids(t, p)[i] == NDir(d.name, d.ino, k);
      Regroup(Prefix(t, pos, p), Bracket(AbsKids(t, p)[..i]), [Open(d.name, d.ino)],
              Bracket(k[..pos[d]]), Bracket(k[pos[d]..]), [Close], Rest(t, pos, p));
    }
  }

  /** Only the cursors of d and of its ancestors matter. */
  lemma {:induction false} CursorFrame(t: Tree, pos: Positions, pos2: Positions, d: DirRef)
    requires t.Ok() && PosOk(t, pos) && PosOk(t, pos2) && d in t.kids
    requires forall x :: x in t.kids && x.id <= d.id ==> pos2[x] == pos[x]
    ensures Rest(t, pos2, d) == Rest(t, pos, d)
    ensures Coherent(t, pos2, d) == Coherent(t, pos, d)
    ensures Coherent(t, pos, d) ==> Prefix(t, pos2, d) == Prefix(t, pos, d) && Emitted(t, pos2, d) == Emitted(t, pos, d)
    decreases d.id
  {
    if d != t.root {
      CursorFrame(t, pos, pos2, t.up[d]);
    }
  }

  /** Advancing the cursor of d past entry i, which is not a directory. */
  lemma StepOver(t: Tree, pos: Positions, pos2: Positions, d: DirRef)
    requires t.Ok() && PosOk(t, pos) && PosOk(t, pos2) && d in t.kids
    requires pos[d] < |t.kids[d]| && !t.kids[d][pos[d]].EDir?
    requires pos2[d] == pos[d] + 1
    requires forall x :: x in t.kids && x != d ==> pos2[x] == pos[x]
    ensures Rest(t, pos, d) == [One(AbsKids(t, d)[pos[d]])] + Rest(t, pos2, d)
    ensures Coherent(t, pos, d) ==>
              && Coherent(t, pos2, d)
              && Emitted(t, pos2, d) == Emitted(t, pos, d) + [One(AbsKids(t, d)[pos[d]])]
  {
    var k, i := AbsKids(t, d), pos[d];
    assert BracketNode(k[i]) == [One(k[i])] by {
      assert k[i] == AbsEntry(t, d, i);
    }
    BracketSplit(k, i);
    if d != t.root {
      CursorFrame(t, pos, pos2, t.up[d]);
    }
    Assoc([One(k[i])], Bracket(k[i + 1..]), if d == t.root then [] else [Close] + Rest(t, pos, t.up[d]));
    if Coherent(t, pos, d) {
      assert Coherent(t, pos2, d) && Prefix(t, pos2, d) == Prefix(t, pos, d);
      Assoc(Prefix(t, pos, d), Bracket(k[..i]), [One(k[i])]);
    }
  }

  ghost predicate EntersAt(t: Tree, pos: Positions, pos2: Positions, d: DirRef, c: DirRef)
    requires t.Ok() && PosOk(t, pos) && PosOk(t, pos2) && d in t.kids
  {
    && pos[d] < |t.kids[d]| && t.kids[d][pos[d]] == EDir(c)
    && pos2[d] == pos[d] + 1 && pos2[c] == 0
    && (forall x :: x in t.kids && x != d && x != c ==> pos2[x] == pos[x])
  }

  /** Reading the directory c in d moves the cursor to the beginning of c. */
  lemma StepInto(t: Tree, pos: Positions, pos2: Positions, d: DirRef, c: DirRef)
    requires t.Ok() && PosOk(t, pos) && PosOk(t, pos2) && d in t.kids
    requires EntersAt(t, pos, pos2, d, c)
    ensures Rest(t, pos, d) == [Open(c.name, c.ino)] + Rest(t, pos2, c)
  {
    var k, i := AbsKids(t, d), pos[d];
    var z := if d == t.root then [] else [Close] + Rest(t, pos, t.up[d]);
    var o, b, r := [Open(c.name, c.ino)], Bracket(AbsKids(t, c)), Bracket(k[i + 1..]);
    assert Rest(t, pos, d) == (o + b + [Close]) + r + z by {
      assert k[i] == AbsEntry(t, d, i) == NDir(c.name, c.ino, AbsKids(t, c));
      BracketSplit(k, i);
    }
    assert Rest(t, pos2, d) == r + z by {
      if d != t.root {
        CursorFrame(t, pos, pos2, t.up[d]);
      }
    }
    assert Rest(t, pos2, c) == b + ([Close] + (r + z)) by {
      assert AbsKids(t, c)[0..] == AbsKids(t, c);
      assert c != t.root && t.up[c] == d;
    }
    Regroup3(o, b, [Close], r, z);
  }

  lemma StepIntoEmitted(t: Tree, pos: Positions, pos2: Positions, d: DirRef, c: DirRef)
    requires t.Ok() && PosOk(t, pos) && PosOk(t, pos2) && d in t.kids && Coherent(t, pos, d)
    requires EntersAt(t, pos, pos2, d, c)
    ensures Coherent(t, pos2, c)
    ensures Emitted(t, pos2, c) == Emitted(t, pos, d) + [Open(c.name, c.ino)]
  {
    assert Coherent(t, pos2, d) && Prefix(t, pos2, d) == Prefix(t, pos, d) by {
      if d != t.root {
        CursorFrame(t, pos, pos2, t.up[d]);
      }
    }
    assert c != t.root && t.up[c] == d;
    assert Prefix(t, pos2, c) == Emitted(t, pos, d) + [Open(c.name, c.ino)];
    assert AbsKids(t, c)[..0] == [];
  }

  /** At the end of d, the next mark closes d and reading goes on in its parent. */
  lemma StepOut(t: Tree, pos: Positions, d: DirRef)
    requires t.Ok() && PosOk(t, pos) && d in t.kids && d != t.root && pos[d] == |t.kids[d]|
    ensures Rest(t, pos, d) == [Close] + Rest(t, pos, t.up[d])
    ensures Coherent(t, pos, d) ==> Emitted(t, pos, t.up[d]) == Emitted(t, pos, d) + [Close]
  {
    assert AbsKids(t, d)[pos[d]..] == [];
    if Coherent(t, pos, d) {
      var p, k := t.up[d], AbsKids(t, d);
      var i := pos[p] - 1;
      assert k[..pos[d]] == k;
      assert Emitted(t, pos, p) ==
               Prefix(t, pos, p) + (Bracket(AbsKids(t, p)[..i]) + BracketNode(AbsKids(t, p)[i])) by {
        BracketSplit(AbsKids(t, p), i);
      }
      assert BracketNode(AbsKids(t, p)[i]) == [Open(d.name, d.ino)] + Bracket(k) + [Close] by {
        assert AbsKids(t, p)[i] == AbsEntry(t, p, i);
      }
      Regroup4(Prefix(t, pos, p), Bracket(AbsKids(t, p)[..i]), [Open(d.name, d.ino)], Bracket(k), [Close]);
    }
  }

  /** The reading cursor: how far each directory is read, and the current directory. */
  datatype Reading = Reading(pos: Positions, dir: DirRef)
  {
    ghost predicate Ok(t: Tree) {
      t.Ok() && PosOk(t, pos) && pos.Keys == t.kids.Keys && dir in t.kids
    }
  }

  /** One call of read(): what it hands out and where it leaves the cursor. */
  ghost function NextEvent(t: Tree, r: Reading): Option<Event>
    requires r.dir in t.kids && r.dir in r.pos
  {
    if r.pos[r.dir] < |t.kids[r.dir]| then Some(Item(t.kids[r.dir][r.pos[r.dir]]))
    else if r.dir in t.up then Some(Eod)
    else None
  }

  ghost function AfterRead(t: Tree, r: Reading): Reading
    requires r.dir in t.kids && r.dir in r.pos
  {
    match NextEvent(t, r)
    case Some(Item(e)) =>
      var pos := r.pos[r.dir := r.pos[r.dir] + 1];
      if e.EDir? then Reading(pos[e.dir := 0], e.dir) else Reading(pos, r.dir)
    case Some(Eod) => Reading(r.pos, t.up[r.dir])
    case None => r
  }

  lemma AfterReadOk(t: Tree, r: Reading)
    requires r.Ok(t)
    ensures AfterRead(t, r).Ok(t)
  {
  }

  ghost function RestOf(t: Tree, r: Reading): seq<Mark>
    requires r.Ok(t)
  {
    Rest(t, r.pos, r.dir)
  }

  ghost predicate InStep(t: Tree, r: Reading)
    requires r.Ok(t)
  {
    Coherent(t, r.pos, r.dir)
  }

  ghost function ReadSoFar(t: Tree, r: Reading): seq<Mark>
    requires r.Ok(t) && InStep(t, r)
  {
    Emitted(t, r.pos, r.dir)
  }

  /** read() hands out the remaining stream mark by mark, and None exactly at its end. */
  lemma ReadIsStream(t: Tree, r: Reading)
    requires r.Ok(t)
    ensures AfterRead(t, r).Ok(t)
    ensures NextEvent(t, r).None? <==> RestOf(t, r) == []
    ensures NextEvent(t, r).None? ==> AfterRead(t, r) == r
    ensures NextEvent(t, r).Some? ==> RestOf(t, r) == [MarkOf(NextEvent(t, r).value)] + RestOf(t, AfterRead(t, r))
  {
    var d, i, r2 := r.dir, r.pos[r.dir], AfterRead(t, r);
    if i < |t.kids[d]| {
      match t.kids[d][i]
      case EDir(c) => StepInto(t, r.pos, r2.pos, d, c);
      case _ => StepOver(t, r.pos, r2.pos, d);
    } else if d != t.root {
      StepOut(t, r.pos, d);
    }
  }

  /** How much remains to be read, for termination. */
  ghost function ToRead(t: Tree, r: Reading): nat
    requires r.Ok(t)
  {
    |RestOf(t, r)|
  }

  lemma ReadShrinks(t: Tree, r: Reading)
    requires r.Ok(t) && NextEvent(t, r).Some?
    ensures AfterRead(t, r).Ok(t) && ToRead(t, AfterRead(t, r)) < ToRead(t, r)
  {
    ReadIsStream(t, r);
  }

  /** The same, seen from what was read. */
  lemma ReadAppends(t: Tree, r: Reading)
    requires r.Ok(t) && InStep(t, r)
    ensures AfterRead(t, r).Ok(t) && InStep(t, AfterRead(t, r))
    ensures NextEvent(t, r).Some? ==> ReadSoFar(t, AfterRead(t, r)) == ReadSoFar(t, r) + [MarkOf(NextEvent(t, r).value)]
  {
    var d, i, r2 := r.dir, r.pos[r.dir], AfterRead(t, r);
    if i < |t.kids[d]| {
      match t.kids[d][i]
      case EDir(c) => StepIntoEmitted(t, r.pos, r2.pos, d, c);
      case _ => StepOver(t, r.pos, r2.pos, d);
    } else if d != t.root {
      StepOut(t, r.pos, d);
    }
  }

  /** e may be added to d: a directory must be new and must not meet another directory
      of the same name. */
  ghost predicate CanGraft(t: Tree, d: DirRef, e: Entry) {
    && t.Ok() && d in t.kids
    && (e.EDir? ==> e.dir.id == t.next && (Find(t.kids[d], e.Name()).Some? ==> !Find(t.kids[d], e.Name()).value.EDir?))
  }

  /** The tree once e has been added to d; an entry of the same name is replaced. */
  function Graft(t: Tree, d: DirRef, e: Entry): Tree
    requires d in t.kids
  {
    var kids := t.kids[d := Without(t.kids[d], e.Name()) + [e]];
    match e
    case EDir(c) => Tree(t.root, kids[c := []], t.up[c := d], c.id + 1)
    case _ => t.(kids := kids)
  }

  lemma {:induction false} WithoutFrom(s: seq<Entry>, n: string)
    ensures |Without(s, n)| <= |s|
    ensures forall i {:trigger Without(s, n)[i]} :: 0 <= i < |Without(s, n)| ==>
              Without(s, n)[i] == s[i] || (i + 1 < |s| && Without(s, n)[i] == s[i + 1])
  {
    if s != [] && s[0].Name() != n {
      WithoutFrom(s[1..], n);
      var w, w1 := Without(s, n), Without(s[1..], n);
      forall i | 0 <= i < |w| ensures w[i] == s[i] || (i + 1 < |s| && w[i] == s[i + 1]) {
        if i > 0 {
          assert w[i] == w1[i - 1];
          assert w1[i - 1] == s[1..][i - 1] || (i < |s[1..]| && w1[i - 1] == s[1..][i]);
        }
      }
    }
  }

  lemma GraftKidsOk(t: Tree, d: DirRef, e: Entry)
    requires CanGraft(t, d, e)
    ensures var t2 := Graft(t, d, e);
            t2.up.Keys == t2.kids.Keys - {t2.root} && t2.KidsOk()
  {
    var t2, k := Graft(t, d, e), t.kids[d];
    var w := Without(k, e.Name());
    WithoutFrom(k, e.Name());
    forall x, i | x in t2.kids && 0 <= i < |t2.kids[x]| && t2.kids[x][i].EDir?
      ensures var c := t2.kids[x][i].dir; c in t2.up && t2.up[c] == x && x.id < c.id
    {
      if x == d && i < |w| {
        assert w[i] == t.kids[d][i] || w[i] == t.kids[d][i + 1];
      } else if x != d && x in t.kids {
        assert t2.kids[x][i] == t.kids[x][i];
      }
    }
  }

  lemma GraftOk(t: Tree, d: DirRef, e: Entry)
    requires CanGraft(t, d, e)
    ensures Graft(t, d, e).Ok()
  {
    GraftKidsOk(t, d, e);
    assert Graft(t, d, e).UpOk();
  }

  function EmptyTree(root: Inode): Tree {
    var r := DirRef(0, "root", root);
    Tree(r, map[r := []], map[], 1)
  }

  lemma ErasedUnique(s: seq<Entry>, k: nat)
    requires UniqueNames(s) && k < |s|
    ensures UniqueNames(s[..k] + s[k + 1..]) && Find(s[..k] + s[k + 1..], s[k].Name()).None?
  {
    var w := s[..k] + s[k + 1..];
    assert forall i :: 0 <= i < |w| ==> w[i] == s[if i < k then i else i + 1];
  }

  lemma WithoutUnique(s: seq<Entry>, n: string)
    requires UniqueNames(s)
    ensures UniqueNames(Without(s, n))
    ensures Find(Without(s, n), n).None?
  {
    if Find(s, n).None? {
      WithoutAbsent(s, n);
    } else {
      var k :| 0 <= k < |s| && s[k] == Find(s, n).value;
      WithoutAt(s, n, k);
      ErasedUnique(s, k);
    }
  }

  lemma GraftNamesOk(t: Tree, d: DirRef, e: Entry)
    requires CanGraft(t, d, e) && t.NamesOk()
    ensures Graft(t, d, e).NamesOk()
  {
    var t2 := Graft(t, d, e);
    assert UniqueNames(t.kids[d]);
    WithoutUnique(t.kids[d], e.Name());
    forall x | x in t2.kids ensures UniqueNames(t2.kids[x]) {
      if x in t.kids && x != d {
        assert UniqueNames(t.kids[x]);
      }
    }
  }
}
