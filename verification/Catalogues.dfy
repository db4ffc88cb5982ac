/** The catalogue object: a tree of directories and its reading, adding, comparing and
    sub-tree reading cursors. */
module Catalogues {
  import opened Entries
  import opened ValueTrees
  import opened Directories
  import opened Snapshots

  /** Adding an entry moves no cursor, but a cursor at the end stays at the end; when an
      entry is replaced the cursor restarts. */
  function GraftIt(t: Tree, it: Positions, d: DirRef, e: Entry): Positions
    requires d in t.kids && d in it
  {
    var w := Without(t.kids[d], e.Name());
    var i := if Find(t.kids[d], e.Name()).Some? then (if w == [] then 1 else 0)
             else if it[d] == |t.kids[d]| then |w| + 1
             else it[d];
    match e
    case EDir(c) => it[d := i][c := 0]
    case _ => it[d := i]
  }

  lemma GraftItOk(t: Tree, it: Positions, d: DirRef, e: Entry)
    requires CanGraft(t, d, e) && PosOk(t, it) && it.Keys == t.kids.Keys
    ensures PosOk(Graft(t, d, e), GraftIt(t, it, d, e))
    ensures GraftIt(t, it, d, e).Keys == Graft(t, d, e).kids.Keys
  {
    if Find(t.kids[d], e.Name()).None? {
      WithoutAbsent(t.kids[d], e.Name());
    }
  }

  // ----- the name indexes

  type Indexes = map<DirRef, map<string, Entry>>

  /** Each directory has its name index beside its list of entries. */
  ghost predicate AllIndexed(t: Tree, fils: Indexes) {
    forall d {:trigger IndexedAt(t, fils, d)} :: d in t.kids ==> IndexedAt(t, fils, d)
  }

  ghost predicate IndexedAt(t: Tree, fils: Indexes, d: DirRef) {
    d in t.kids && d in fils && Indexed(t.kids[d], fils[d])
  }

  /** The indexes once e has been added to d. */
  function GraftIndex(fils: Indexes, d: DirRef, e: Entry): Indexes
    requires d in fils
  {
    var now := fils[d := fils[d][e.Name() := e]];
    if e.EDir? then now[e.dir := map[]] else now
  }

  lemma ReplaceIndexed(s: seq<Entry>, fils: map<string, Entry>, e: Entry)
    requires Indexed(s, fils)
    ensures Indexed(Without(s, e.Name()) + [e], fils[e.Name() := e])
  {
    var n := e.Name();
    if Find(s, n).Some? {
      var k: nat :| k < |s| && s[k] == Find(s, n).value;
      WithoutIndexed(s, fils, k);
      WithoutUnique(s, n);
      IndexedAppend(Without(s, n), fils - {n}, e);
      SameUpdate(fils, n, e);
    } else {
      WithoutAbsent(s, n);
      IndexedAppend(s, fils, e);
    }
  }

  lemma WithoutIndexed(s: seq<Entry>, fils: map<string, Entry>, k: nat)
    requires Indexed(s, fils) && k < |s|
    ensures Indexed(Without(s, s[k].Name()), fils - {s[k].Name()})
  {
    WithoutAt(s, s[k].Name(), k);
    IndexedRemove(s, fils, k);
  }

  lemma SameUpdate<X, Y>(m: map<X, Y>, x: X, y: Y)
    ensures (m - {x})[x := y] == m[x := y]
  {
  }

  lemma GraftIndexed(t: Tree, fils: Indexes, d: DirRef, e: Entry)
    requires AllIndexed(t, fils) && CanGraft(t, d, e) && d in fils
    ensures AllIndexed(Graft(t, d, e), GraftIndex(fils, d, e))
  {
    var t2, now := Graft(t, d, e), GraftIndex(fils, d, e);
    forall x {:trigger IndexedAt(t2, now, x)} | x in t2.kids ensures IndexedAt(t2, now, x) {
      if x in t.kids {
        assert IndexedAt(t, fils, x);
      }
      if x == d {
        ReplaceIndexed(t.kids[d], fils[d], e);
      }
    }
  }

  /** One directory changes, with its index. */
  lemma OneIndexed(t: Tree, fils: Indexes, d: DirRef, s: seq<Entry>, f: map<string, Entry>)
    requires AllIndexed(t, fils) && d in t.kids && Indexed(s, f)
    ensures AllIndexed(t.(kids := t.kids[d := s]), fils[d := f])
  {
    var t2, now := t.(kids := t.kids[d := s]), fils[d := f];
    forall x {:trigger IndexedAt(t2, now, x)} | x in t2.kids ensures IndexedAt(t2, now, x) {
      assert IndexedAt(t, fils, x);
    }
  }

  class Catalogue {
    var tree: Tree            // directories, their entries and their parents
    var fils: Indexes         // name index of each directory
    var it: Positions         // reading cursor of each directory, its length meaning end()
    var currentRead: DirRef
    var currentAdd: DirRef
    var currentCompare: DirRef
    var outCompare: seq<string>
    var subTree: Option<seq<string>>
    var subReading: nat
    var subCount: int

    ghost predicate Valid()
      reads this
    {
      && Reader().Ok(tree) && tree.NamesOk()
      && currentAdd in tree.kids && currentCompare in tree.kids
      && AllIndexed(tree, fils)
    }

    ghost function Reader(): Reading
      reads this`it, this`currentRead
    {
      Reading(it, currentRead)
    }

    constructor (root: Inode)
      ensures Valid() && tree == EmptyTree(root)
      ensures currentRead == currentAdd == currentCompare == tree.root && outCompare == []
    {
      var contenu := DirRef(0, "root", root);
      tree, it, fils := EmptyTree(root), map[contenu := 0], map[contenu := map[]];
      currentRead, currentAdd, currentCompare := contenu, contenu, contenu;
      outCompare, subTree, subReading, subCount := [], None, 0, -2;
    }

    method ResetRead()
      requires Valid()
      modifies this`currentRead, this`it
      ensures Valid() && it == old(it)[tree.root := 0] && currentRead == tree.root
    {
      currentRead := tree.root;
      it := it[tree.root := 0];
    }

    method EndRead()
      requires Valid()
      modifies this`currentRead, this`it
      ensures Valid() && it == old(it)[tree.root := |tree.kids[tree.root]|] && currentRead == tree.root
    {
      currentRead := tree.root;
      it := it[tree.root := |tree.kids[tree.root]|];
    }

    /** Leaves the current directory without reading its end: what remains to be read is
        what followed that end. False at the root. */
    method SkipReadToParentDir() returns (ok: bool)
      requires Valid()
      modifies this`currentRead
      ensures Valid() && (ok <==> old(currentRead) != tree.root)
      ensures currentRead == if ok then tree.up[old(currentRead)] else old(currentRead)
      ensures ok ==>
                var d := old(currentRead);
                RestOf(tree, old(Reader())) == Bracket(AbsKids(tree, d)[it[d]..]) + ([Close] + RestOf(tree, Reader()))
    {
      ok := currentRead in tree.up;
      if ok {
        currentRead := tree.up[currentRead];
      }
    }

    /** The entry under the cursor of the current directory. */
    method ReadChildren() returns (r: Option<Entry>)
      requires Valid()
      modifies this`it
      ensures var k, i := tree.kids[currentRead], old(it)[currentRead];
              if i < |k| then r == Some(k[i]) && it == old(it)[currentRead := i + 1]
              else r == None && it == old(it)
    {
      var i := it[currentRead];
      if i < |tree.kids[currentRead]| {
        r := Some(tree.kids[currentRead][i]);
        it := it[currentRead := i + 1];
      } else {
        r := None;
      }
    }

    /** Hands out the next entry or end of directory; false once the root is exhausted. */
    method Read() returns (ok: bool, ev: Event)
      requires Valid()
      modifies this`currentRead, this`it
      ensures Valid()
      ensures Reader() == AfterRead(tree, old(Reader()))
      ensures var n := NextEvent(tree, old(Reader())); ok == n.Some? && ev == if ok then n.value else Eod
    {
      AfterReadOk(tree, Reader());
      ghost var next, after := NextEvent(tree, Reader()), AfterRead(tree, Reader());
      var r := ReadChildren();
      if r.Some? {
        ok, ev := true, Item(r.value);
        assert next == Some(ev);
        if r.value.EDir? {
          currentRead := r.value.dir;
          it := it[currentRead := 0];
        }
      } else {
        ok, ev := currentRead in tree.up, Eod;
        if ok {
          currentRead := tree.up[currentRead];
        }
      }
      assert Reading(it, currentRead) == after;
    }

    /** search_children in a directory of this catalogue, with its index. */
    method SearchChildren(d: DirRef, n: string) returns (r: Option<Entry>)
      requires d in tree.kids && AllIndexed(tree, fils)
      ensures r == Find(tree.kids[d], n)
    {
      assert IndexedAt(tree, fils, d);
      FindByIndex(tree.kids[d], fils[d], n);
      r := if n in fils[d] then Some(fils[d][n]) else None;
    }

    /** add_children on a directory of this catalogue. */
    method AddTo(d: DirRef, e: Entry)
      requires Valid() && CanGraft(tree, d, e)
      modifies this`tree, this`fils, this`it
      ensures Valid() && tree == Graft(old(tree), d, e) && it == GraftIt(old(tree), old(it), d, e)
    {
      GraftOk(tree, d, e);
      GraftNamesOk(tree, d, e);
      GraftItOk(tree, it, d, e);
      assert IndexedAt(tree, fils, d);
      GraftIndexed(tree, fils, d, e);
      fils := GraftIndex(fils, d, e);
      it := GraftIt(tree, it, d, e);
      tree := Graft(tree, d, e);
    }

    method ResetAdd()
      requires Valid()
      modifies this`currentAdd
      ensures Valid() && currentAdd == tree.root
    {
      currentAdd := tree.root;
    }

    /** Adds an entry at the adding cursor, or closes its directory; false for a close at
        the root, an internal error of the source. */
    method Add(ev: Event) returns (ok: bool)
      requires Valid()
      requires ev.Item? ==> CanGraft(tree, currentAdd, ev.entry)
      modifies this`tree, this`fils, this`it, this`currentAdd
      ensures Valid()
      ensures ok <==> ev.Item? || old(currentAdd) != tree.root
      ensures ev.Item? ==>
                && tree == Graft(old(tree), old(currentAdd), ev.entry)
                && currentAdd == if ev.entry.EDir? then ev.entry.dir else old(currentAdd)
      ensures ev.Eod? ==>
                && tree == old(tree)
                && currentAdd == if ok then tree.up[old(currentAdd)] else old(currentAdd)
    {
      match ev
      case Item(e) =>
        AddTo(currentAdd, e);
        if e.EDir? {
          currentAdd := e.dir;
        }
        ok := true;
      case Eod =>
        ok := currentAdd in tree.up;
        if ok {
          currentAdd := tree.up[currentAdd];
        }
    }

    /** Returns into an existing sub-directory for further additions. */
    method ReAddIn(n: string) returns (ok: bool)
      requires Valid()
      modifies this`currentAdd
      ensures Valid()
      ensures var f := Find(tree.kids[old(currentAdd)], n);
              && (ok <==> f.Some? && f.value.EDir?)
              && currentAdd == if ok then f.value.dir else old(currentAdd)
    {
      var sub := SearchChildren(currentAdd, n);
      ok := sub.Some? && sub.value.EDir?;
      if ok {
        currentAdd := sub.value.dir;
      }
    }
  }
}
