/** Reading only the sub-tree a path leads to, with the directories leading to it. */
module SubReading {
  import opened Entries
  import opened ValueTrees
  import opened Snapshots
  import opened Catalogues
  import opened Comparing

  /** What sub_read gives: an item, the end (with a warning when the path is not in the
      catalogue), or an internal error. */
  datatype SubResult = Got(event: Event) | Finished(warned: bool) | InternalBug

  method ResetSubRead(c: Catalogue, sub: seq<string>)
    requires c.Valid() && sub != []
    modifies c
    ensures c.Valid() && c.tree == old(c.tree)
    ensures c.subTree == Some(sub) && c.subReading == 0 && c.subCount == -1 && c.currentRead == c.tree.root
  {
    c.subTree, c.subReading, c.subCount := Some(sub), 0, -1;
    c.ResetRead();
  }

  method Abandon(c: Catalogue)
    modifies c`subTree, c`subCount
    ensures c.subTree == None && c.subCount == -2
  {
    c.subTree, c.subCount := None, -2;
  }

  /** The stream sub_read stands for when the path resolves: the entries of the path, the
      bracketed sub-tree, and the closing of every directory opened. */
  ghost function SubStream(t: Tree, d: DirRef, path: seq<string>): seq<Mark>
    requires t.Ok() && d in t.kids && path != [] && EntryAt(t, d, path).Some?
    decreases |path|
  {
    match Find(t.kids[d], path[0])
    case Some(EDir(c)) =>
      ChildInTree(t, d, path[0]);
      [Open(c.name, c.ino)] +
      (if |path| == 1 then Bracket(AbsKids(t, c)) else SubStream(t, c, path[1..])) + [Close]
    case Some(e) => [MarkOf(Item(e))]
  }

  /** When it does not: the directories that do exist on the path. */
  ghost function SubOpens(t: Tree, d: DirRef, path: seq<string>): seq<Mark>
    requires t.Ok() && d in t.kids
    decreases |path|
  {
    if path == [] then []
    else
      match Find(t.kids[d], path[0])
      case Some(EDir(c)) => ChildInTree(t, d, path[0]); [Open(c.name, c.ino)] + SubOpens(t, c, path[1..])
      case _ => []
  }

  /** What remains of the directory d and of the n - 1 directories around it. */
  ghost function RestIn(t: Tree, it: Positions, d: DirRef, n: nat): seq<Mark>
    requires t.Ok() && PosOk(t, it) && d in t.kids && n <= DepthOf(t, d)
    decreases n
  {
    if n == 0 then []
    else Bracket(AbsKids(t, d)[it[d]..]) + [Close] + RestIn(t, it, t.up[d], n - 1)
  }

  ghost function Ancestor(t: Tree, d: DirRef, n: nat): (a: DirRef)
    requires t.Ok() && d in t.kids && n <= DepthOf(t, d)
    ensures a in t.kids
    decreases n
  {
    if n == 0 then d else Ancestor(t, t.up[d], n - 1)
  }

  lemma Assoc4<T>(b: seq<T>, c: seq<T>, r: seq<T>, z: seq<T>)
    ensures b + (c + (r + z)) == b + c + r + z
  {
  }

  lemma {:induction false} RestSplits(t: Tree, it: Positions, d: DirRef, n: nat)
    requires t.Ok() && PosOk(t, it) && d in t.kids && n <= DepthOf(t, d)
    ensures Rest(t, it, d) == RestIn(t, it, d, n) + Rest(t, it, Ancestor(t, d, n))
    ensures Ancestor(t, d, n).id <= d.id && (n > 0 ==> Ancestor(t, d, n).id < d.id)
    decreases n
  {
    if n > 0 {
      var p := t.up[d];
      RestSplits(t, it, p, n - 1);
      Assoc4(Bracket(AbsKids(t, d)[it[d]..]), [Close], RestIn(t, it, p, n - 1), Rest(t, it, Ancestor(t, d, n)));
    }
  }

  lemma Cancel(x: seq<Mark>, m: seq<Mark>, y: seq<Mark>, z: seq<Mark>)
    requires x + z == m + (y + z)
    ensures x == m + y
  {
    assert |x| == |m + y|;
    assert x == (x + z)[..|x|];
    assert m + y == (m + (y + z))[..|m + y|];
  }

  /** How many of the open directories remain open after one item. */
  function Levels(n: nat, ev: Event): int {
    match ev
    case Item(EDir(_)) => n + 1
    case Eod => n - 1
    case _ => n
  }

  lemma SameAncestor(t: Tree, r: Reading, n: nat)
    requires r.Ok(t) && 0 < n <= DepthOf(t, r.dir) && NextEvent(t, r).Some?
    ensures var r2, m := AfterRead(t, r), Levels(n, NextEvent(t, r).value);
            && r2.dir in t.kids && 0 <= m <= DepthOf(t, r2.dir)
            && Ancestor(t, r2.dir, m) == Ancestor(t, r.dir, n)
  {
  }

  /** Inside the sub-tree, each item read is the next of what remains in it. */
  lemma ReadInside(t: Tree, r: Reading, n: nat)
    requires r.Ok(t) && 0 < n <= DepthOf(t, r.dir)
    ensures NextEvent(t, r).Some?
    ensures var ev, r2 := NextEvent(t, r).value, AfterRead(t, r);
            var m := Levels(n, ev);
            && r2.Ok(t) && 0 <= m <= DepthOf(t, r2.dir)
            && RestIn(t, r.pos, r.dir, n) == [MarkOf(ev)] + RestIn(t, r2.pos, r2.dir, m)
  {
    ReadIsStream(t, r);
    var ev, r2 := NextEvent(t, r).value, AfterRead(t, r);
    var m := Levels(n, ev);
    var a := Ancestor(t, r.dir, n);
    SameAncestor(t, r, n);
    RestSplits(t, r.pos, r.dir, n);
    RestSplits(t, r2.pos, r2.dir, m);
    CursorFrame(t, r.pos, r2.pos, a);
    Cancel(RestIn(t, r.pos, r.dir, n), [MarkOf(ev)], RestIn(t, r2.pos, r2.dir, m), Rest(t, r.pos, a));
  }

  /** The state of a sub-tree reading. */
  datatype Sub = Sub(r: Reading, path: seq<string>, at: nat, count: int)
  {
    ghost predicate Ok(t: Tree) {
      && r.Ok(t) && path != [] && count >= -1
      && (count == -1 ==> at <= |path| && DepthOf(t, r.dir) == at)
      && (count > 0 ==> count <= DepthOf(t, r.dir))
    }

    ghost predicate Missing(t: Tree)
      requires Ok(t)
    {
      count == -1 && at < |path| && EntryAt(t, r.dir, path[at..]).None?
    }

    /** What the following calls of sub_read will give. */
    ghost function Remaining(t: Tree): seq<Mark>
      requires Ok(t)
    {
      if count == 0 then Closes(|path| - 1)
      else if count > 0 then RestIn(t, r.pos, r.dir, count) + Closes(|path| - 1)
      else if at == |path| then Bracket(AbsKids(t, r.dir)) + Closes(|path|)
      else if Missing(t) then SubOpens(t, r.dir, path[at..])
      else SubStream(t, r.dir, path[at..]) + Closes(at)
    }
  }

  lemma ClosesAdd(n: nat)
    ensures Closes(n + 1) == [Close] + Closes(n)
  {
  }

  /** One step down the path. */
  lemma PathStep(t: Tree, s: Sub)
    requires s.Ok(t) && s.count == -1 && s.at < |s.path|
    ensures var f, last := Find(t.kids[s.r.dir], s.path[s.at]), s.at + 1 == |s.path|;
            if f.None? then s.Missing(t) && s.Remaining(t) == []
            else if !f.value.EDir? then
              if last then !s.Missing(t)
                && s.Remaining(t) == [MarkOf(Item(f.value))] + s.(at := s.at + 1, count := 0).Remaining(t)
              else s.Missing(t) && s.Remaining(t) == []
            else
              var s2 := s.(at := s.at + 1, r := s.r.(dir := f.value.dir));
              && s2.Ok(t) && s2.Missing(t) == s.Missing(t)
              && s.Remaining(t) == [MarkOf(Item(f.value))] + s2.Remaining(t)
  {
    var d, p, i := s.r.dir, s.path, s.at;
    var f := Find(t.kids[d], p[i]);
    assert p[i..][0] == p[i] && p[i..][1..] == p[i + 1..];
    if f.Some? && f.value.EDir? {
      ChildInTree(t, d, p[i]);
      ClosesAdd(i);
    }
  }

  ghost function SubState(c: Catalogue): Sub
    requires c.subTree.Some?
    reads c
  {
    Sub(c.Reader(), c.subTree.value, c.subReading, c.subCount)
  }

  method SubRead(c: Catalogue) returns (x: SubResult)
    requires c.Valid() && c.subTree.Some? && SubState(c).Ok(c.tree)
    modifies c`subTree, c`subReading, c`subCount, c`currentRead, c`it
    ensures c.Valid()
    ensures var s, t := old(SubState(c)), c.tree;
            if s.Remaining(t) == [] then x == Finished(s.Missing(t)) && c.subTree == None
            else
              && x.Got? && c.subTree.Some? && SubState(c).Ok(t)
              && s.Remaining(t) == [MarkOf(x.event)] + SubState(c).Remaining(t)
              && SubState(c).Missing(t) == s.Missing(t)
  {
    ghost var s, t := SubState(c), c.tree;
    var sub := c.subTree.value;
    if c.subCount == 0 {
      if |sub| > 1 {
        c.subTree := Some(sub[..|sub| - 1]);
        ClosesAdd(|sub| - 2);
        return Got(Eod);
      }
      Abandon(c);
      return Finished(false);
    }
    if c.subCount == -1 {
      if c.subReading < |sub| {
        x := FollowPath(c);
        return;
      }
      c.subCount := 1;
      c.it := c.it[c.currentRead := 0];
      EnterSubTree(t, s);
    }
    x := ReadSubTree(c);
  }

  lemma EnterSubTree(t: Tree, s: Sub)
    requires s.Ok(t) && s.count == -1 && s.at == |s.path|
    ensures var s2 := s.(count := 1, r := s.r.(pos := s.r.pos[s.r.dir := 0]));
            s2.Ok(t) && s2.Remaining(t) == s.Remaining(t) && s.Remaining(t) != []
  {
    var k := AbsKids(t, s.r.dir);
    assert k[0..] == k;
    ClosesAdd(|s.path| - 1);
  }

  method FollowPath(c: Catalogue) returns (x: SubResult)
    requires c.Valid() && c.subTree.Some? && SubState(c).Ok(c.tree)
    requires c.subCount == -1 && c.subReading < |c.subTree.value|
    modifies c`subTree, c`subReading, c`subCount, c`currentRead
    ensures c.Valid()
    ensures var s, t := old(SubState(c)), c.tree;
            if s.Remaining(t) == [] then x == Finished(s.Missing(t)) && c.subTree == None
            else
              && x.Got? && c.subTree.Some? && SubState(c).Ok(t)
              && s.Remaining(t) == [MarkOf(x.event)] + SubState(c).Remaining(t)
              && SubState(c).Missing(t) == s.Missing(t)
  {
    ghost var s, t := SubState(c), c.tree;
    PathStep(t, s);
    var sub := c.subTree.value;
    var found := c.SearchChildren(c.currentRead, sub[c.subReading]);
    c.subReading := c.subReading + 1;
    if found.None? {
      Abandon(c);
      return Finished(true);
    }
    if found.value.EDir? {
      c.currentRead := found.value.dir;
      assert SubState(c) == s.(at := s.at + 1, r := s.r.(dir := found.value.dir));
    } else if c.subReading < |sub| {
      Abandon(c);
      return Finished(true);
    } else {
      c.subCount := 0;
      assert SubState(c) == s.(at := s.at + 1, count := 0);
    }
    return Got(Item(found.value));
  }

  lemma InsideStep(t: Tree, s: Sub)
    requires s.Ok(t) && s.count > 0
    ensures NextEvent(t, s.r).Some?
    ensures var ev := NextEvent(t, s.r).value;
            var s2 := s.(r := AfterRead(t, s.r), count := Levels(s.count, ev));
            && s2.Ok(t) && !s2.Missing(t)
            && s.Remaining(t) == [MarkOf(ev)] + s2.Remaining(t)
  {
    ReadInside(t, s.r, s.count);
    var ev, r2 := NextEvent(t, s.r).value, AfterRead(t, s.r);
    Assoc([MarkOf(ev)], RestIn(t, r2.pos, r2.dir, Levels(s.count, ev)), Closes(|s.path| - 1));
  }

  method ReadSubTree(c: Catalogue) returns (x: SubResult)
    requires c.Valid() && c.subTree.Some? && SubState(c).Ok(c.tree) && c.subCount > 0
    modifies c`subCount, c`currentRead, c`it
    ensures c.Valid()
    ensures var s, t := old(SubState(c)), c.tree;
              && x.Got? && SubState(c).Ok(t)
              && s.Remaining(t) == [MarkOf(x.event)] + SubState(c).Remaining(t)
              && !SubState(c).Missing(t)
  {
    ghost var s, t := SubState(c), c.tree;
    InsideStep(t, s);
    var ok, ev := c.Read();
    if !ok {
      return InternalBug;
    }
    var change := if ev.Item? && ev.entry.EDir? then 1 else if ev.Eod? then -1 else 0;
    c.subCount := c.subCount + change;
    assert SubState(c) == s.(r := AfterRead(t, s.r), count := Levels(s.count, ev));
    return Got(ev);
  }

  lemma SubStart(t: Tree, s: Sub)
    requires s.Ok(t) && s.count == -1 && s.at == 0
    ensures s.Missing(t) <==> EntryAt(t, s.r.dir, s.path).None?
    ensures s.Remaining(t) == if s.Missing(t) then SubOpens(t, s.r.dir, s.path) else SubStream(t, s.r.dir, s.path)
  {
    assert s.path[0..] == s.path;
    assert s.Missing(t) || s.Remaining(t) == SubStream(t, s.r.dir, s.path) + Closes(0);
  }

  /** A whole sub-tree reading: never an internal error, a warning exactly when the path
      does not resolve, and otherwise the balanced stream of the path and its sub-tree. */
  method SubReadAll(c: Catalogue, sub: seq<string>) returns (log: seq<Mark>, warned: bool)
    requires c.Valid() && sub != []
    modifies c
    ensures c.Valid() && c.tree == old(c.tree)
    ensures warned <==> EntryAt(c.tree, c.tree.root, sub).None?
    ensures log == if warned then SubOpens(c.tree, c.tree.root, sub) else SubStream(c.tree, c.tree.root, sub)
  {
    ResetSubRead(c, sub);
    log := [];
    ghost var t, s := c.tree, SubState(c);
    ghost var all, missing := s.Remaining(t), s.Missing(t);
    SubStart(t, s);
    assert [] + all == all;
    while true
      invariant c.Valid() && c.tree == t && c.subTree.Some? && SubState(c) == s && s.Ok(t)
      invariant StillToGive(t, s, log, all, missing)
      decreases |s.Remaining(t)|
    {
      var x := SubRead(c);
      if x.Finished? {
        assert log + [] == log;
        return log, x.warned;
      }
      OneGiven(t, s, SubState(c), x.event, log, all, missing);
      log := log + [MarkOf(x.event)];
      s := SubState(c);
    }
  }

  ghost predicate StillToGive(t: Tree, s: Sub, log: seq<Mark>, all: seq<Mark>, missing: bool)
    requires s.Ok(t)
  {
    log + s.Remaining(t) == all && s.Missing(t) == missing
  }

  lemma OneGiven(t: Tree, s: Sub, s2: Sub, ev: Event, log: seq<Mark>, all: seq<Mark>, missing: bool)
    requires s.Ok(t) && s2.Ok(t) && StillToGive(t, s, log, all, missing)
    requires s.Remaining(t) == [MarkOf(ev)] + s2.Remaining(t) && s2.Missing(t) == s.Missing(t)
    ensures StillToGive(t, s2, log + [MarkOf(ev)], all, missing) && |s2.Remaining(t)| < |s.Remaining(t)|
  {
    Assoc(log, [MarkOf(ev)], s2.Remaining(t));
  }

  /** The stream of a path and its sub-tree closes every directory it opens. */
  lemma {:induction false} SubStreamBalanced(t: Tree, d: DirRef, path: seq<string>)
    requires t.Ok() && d in t.kids && path != [] && EntryAt(t, d, path).Some?
    ensures Balanced(SubStream(t, d, path))
    decreases |path|
  {
    match Find(t.kids[d], path[0])
    case Some(EDir(c)) =>
      ChildInTree(t, d, path[0]);
      if |path| == 1 {
        BracketBalanced(AbsKids(t, c));
        BalancedNest(c.name, c.ino, Bracket(AbsKids(t, c)));
      } else {
        SubStreamBalanced(t, c, path[1..]);
        BalancedNest(c.name, c.ino, SubStream(t, c, path[1..]));
      }
    case Some(e) =>
      BalancedOne(MarkOf(Item(e)));
  }
}
