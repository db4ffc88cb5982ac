/** A directory object beside the same directory of a catalogue: the loops of the object do to
    its list, index and iterator what the operations of the catalogue say. */
module DirectoryViews {
  import opened Entries
  import opened Directories
  import opened Snapshots
  import opened Catalogues
  import opened Truncation

  /** The object is the directory d. */
  ghost predicate Shows(o: Directory, t: Tree, fils: Indexes, it: Positions, d: DirRef)
    reads o
  {
    && d in t.kids && d in fils && d in it && o.IndexOk() && o.CursorOk()
    && o.orderedFils == t.kids[d] && o.fils == fils[d] && Passed(o.it, o.orderedFils) == it[d]
  }

  /** A list has one index. */
  lemma IndexIsOne(s: seq<Entry>, f: map<string, Entry>, g: map<string, Entry>)
    requires Indexed(s, f) && Indexed(s, g)
    ensures f == g
  {
    forall n ensures n in f <==> n in g {
      FindByIndex(s, f, n);
      FindByIndex(s, g, n);
    }
    forall n | n in f ensures f[n] == g[n] {
      FindByIndex(s, f, n);
      FindByIndex(s, g, n);
    }
  }

  method Search(o: Directory, ghost t: Tree, ghost fils: Indexes, ghost it: Positions, d: DirRef, n: string)
    returns (r: Option<Entry>)
    requires Shows(o, t, fils, it, d)
    ensures r == Find(t.kids[d], n)
  {
    r := o.SearchChildren(n);
  }

  method Read(o: Directory, ghost t: Tree, ghost fils: Indexes, ghost it: Positions, d: DirRef)
    returns (r: Option<Entry>)
    requires Shows(o, t, fils, it, d) && it[d] <= |t.kids[d]|
    modifies o
    ensures var k, i := t.kids[d], it[d];
            && r == (if i < |k| then Some(k[i]) else None)
            && Shows(o, t, fils, if i < |k| then it[d := i + 1] else it, d)
  {
    r := o.ReadChildren();
  }

  /** add_children: what Graft, GraftIndex and GraftIt say of the directory. */
  method AddChildren(o: Directory, ghost t: Tree, ghost fils: Indexes, ghost it: Positions, d: DirRef, e: Entry)
    requires Shows(o, t, fils, it, d) && AllIndexed(t, fils) && CanGraft(t, d, e) && PosOk(t, it)
    modifies o
    ensures Shows(o, Graft(t, d, e), GraftIndex(fils, d, e), GraftIt(t, it, d, e), d)
  {
    GraftIndexed(t, fils, d, e);
    ghost var t2, fils2 := Graft(t, d, e), GraftIndex(fils, d, e);
    if Find(t.kids[d], e.Name()).None? {
      WithoutAbsent(t.kids[d], e.Name());
    }
    o.AddChildren(e);
    assert IndexedAt(t2, fils2, d);
    IndexIsOne(t2.kids[d], o.fils, fils2[d]);
  }

  /** tail_to_read_children: what Cut and CutIndex say of the directory. */
  method TailToReadChildren(o: Directory, ghost t: Tree, ghost fils: Indexes, ghost it: Positions, d: DirRef)
    requires Shows(o, t, fils, it, d) && AllIndexed(t, fils) && it[d] <= |t.kids[d]|
    modifies o
    ensures Shows(o, Cut(t, it, d), CutIndex(t, fils, it, d), it, d)
  {
    CutIndexed(t, fils, it, d);
    o.TailToReadChildren();
    ghost var t2, fils2 := Cut(t, it, d), CutIndex(t, fils, it, d);
    assert IndexedAt(t2, fils2, d);
    IndexIsOne(t2.kids[d], o.fils, fils2[d]);
  }
}
