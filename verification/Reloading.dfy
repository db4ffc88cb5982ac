/** Writing a catalogue and reading it back. */
module Reloading {
  import opened Entries
  import opened ValueTrees
  import opened Forests
  import opened Snapshots
  import opened Catalogues
  import opened Walking
  import opened Pruning
  import opened Tokens
  import opened InodeCodec
  import opened Archives
  import opened Sections
  import opened TokenFiles
  import opened CatalogueDump
  import opened Rebuilding
  import R = CatalogueRead

  /** What comes back is the stored form of the tree; each link has an etoile, which hosts its
      inode and counts its links. The only obstacle is a shared etoile already marked as
      written. */
  method Reload(c: Catalogue, dataName: seq<bv8>, m: ReadMode, sum: seq<Token> -> seq<bv8>, ghost sky: Sky)
    returns (r: Parsed<Section>, stars: R.Stars)
    requires c.tree.Ok() && Starry(c.tree, sky)
    requires SectionFit(SectionOf(c.tree, dataName), HubsOf(sky))
    modifies sky.Values
    ensures old(Meets(Meaning(c.tree), HubsOf(sky), Marked(sky))) ==> r == Fail(StarNotFound)
    ensures !old(Meets(Meaning(c.tree), HubsOf(sky), Marked(sky))) ==>
              && r.Got? && r.value == old(NormSection(SectionOf(c.tree, dataName), HubsOf(sky), m))
              && SectionBack(SectionOf(c.tree, dataName), r.value, old(HubsOf(sky)), m)
    ensures r.Got? && !m.onlyDetruit ==> R.AllOnStars(r.value.kids, stars) && R.AllCounted(r.value.kids, stars)
    ensures R.Etiquetted(stars) && forall e :: e in stars ==> fresh(stars[e])
  {
    SectionRoundTrip(SectionOf(c.tree, dataName), HubsOf(sky), Marked(sky), m, sum);
    var f := new TokenFile([]);
    DumpCatalogue(c, f, dataName, sum, sky);
    r, stars := R.ReadCatalogue(f, m, sum);
  }

  // ----- the catalogue object

  lemma {:induction false} NormNames(f: seq<Node>, hubs: Hubs, m: ReadMode, n: string)
    requires AllFit(f, hubs)
    ensures IndexOf(Norm(f, hubs, m), n).Some? ==> IndexOf(f, n).Some?
  {
    if f != [] {
      NormNames(f[1..], hubs, m, n);
      var one := if f[0].NLeaf? && f[0].leaf.Ignored? then [] else Kept(NormOne(f[0], hubs, m), m);
      NamesOfBoth(one, Norm(f[1..], hubs, m), n);
      NamesOfBoth([f[0]], f[1..], n);
      assert f == [f[0]] + f[1..];
    }
  }

  lemma NamesOfBoth(a: seq<Node>, b: seq<Node>, n: string)
    ensures IndexOf(a + b, n).Some? <==> IndexOf(a, n).Some? || IndexOf(b, n).Some?
  {
    var s := a + b;
    if IndexOf(a, n).Some? {
      assert s[IndexOf(a, n).value].Name() == n;
    } else if IndexOf(b, n).Some? {
      assert s[|a| + IndexOf(b, n).value].Name() == n;
    }
  }

  /** One node, or none, before others that do not have its name. */
  lemma UniqueCons(a: seq<Node>, b: seq<Node>)
    requires |a| <= 1 && AllUnique(b)
    requires a != [] ==> IndexOf(b, a[0].Name()).None? && (a[0].NDir? ==> AllUnique(a[0].kids))
    ensures AllUnique(a + b)
  {
    var s := a + b;
    forall i, j | 0 <= i < j < |s| ensures s[i].Name() != s[j].Name() {
      if i < |a| {
        assert s[j] == b[j - |a|];
      }
    }
  }

  /** The stored form of a tree has unique names when the tree has. */
  lemma {:induction false} NormUnique(f: seq<Node>, hubs: Hubs, m: ReadMode)
    requires AllFit(f, hubs) && AllUnique(f)
    ensures AllUnique(Norm(f, hubs, m))
  {
    if f != [] {
      TailUnique(f);
      NormUnique(f[1..], hubs, m);
      NormNames(f[1..], hubs, m, f[0].Name());
      if f[0].NDir? {
        NormUnique(f[0].kids, hubs, m);
      }
      UniqueCons(if f[0].NLeaf? && f[0].leaf.Ignored? then [] else Kept(NormOne(f[0], hubs, m), m),
                 Norm(f[1..], hubs, m));
    }
  }

  lemma TailUnique(f: seq<Node>)
    requires f != [] && AllUnique(f)
    ensures AllUnique(f[1..]) && IndexOf(f[1..], f[0].Name()).None?
  {
    assert forall j :: 0 <= j < |f| - 1 ==> f[1..][j] == f[j + 1];
  }

  lemma {:induction false} PruneNames(f: seq<Node>, n: string)
    ensures IndexOf(Prune(f), n).Some? ==> IndexOf(f, n).Some?
  {
    if f != [] {
      PruneNames(f[1..], n);
      NamesOfBoth(PruneNode(f[0]), Prune(f[1..]), n);
      NamesOfBoth([f[0]], f[1..], n);
      assert f == [f[0]] + f[1..];
    }
  }

  lemma {:induction false} PruneUnique(f: seq<Node>)
    requires AllUnique(f)
    ensures AllUnique(Prune(f))
  {
    if f != [] {
      TailUnique(f);
      PruneUnique(f[1..]);
      PruneNames(f[1..], f[0].Name());
      if f[0].NDir? {
        PruneUnique(f[0].kids);
      }
      UniqueCons(PruneNode(f[0]), Prune(f[1..]));
    }
  }

  /** Without links, no etoile is needed. */
  lemma {:induction false} CleanOnStars(f: seq<Node>, stars: R.Stars)
    requires Clean(f)
    ensures R.AllOnStars(f, stars)
  {
    forall i {:trigger f[i]} | 0 <= i < |f| ensures R.OnStar(f[i], stars) {
      if f[i].NDir? {
        CleanOnStars(f[i].kids, stars);
      }
    }
  }

  lemma SectionUnique(x: Section, hubs: Hubs, m: ReadMode)
    requires SectionFit(x, hubs) && AllUnique(x.kids)
    ensures AllUnique(NormSection(x, hubs, m).kids)
    ensures m.onlyDetruit ==> Clean(NormSection(x, hubs, m).kids)
  {
    NormUnique(x.kids, hubs, m);
    PruneUnique(Norm(x.kids, hubs, m));
    PruneIsExact(Norm(x.kids, hubs, m), []);
  }

  /** The same up to the catalogue object, with its directories, their indexes and cursors,
      ready to be read, merged, compared or written: it holds the stored form of the tree, and
      each of its links leads to the new etoile of its etiquette. */
  method ReloadCatalogue(c: Catalogue, dataName: seq<bv8>, m: ReadMode, sum: seq<Token> -> seq<bv8>, ghost sky: Sky)
    returns (r: Parsed<Catalogue>, stars: R.Stars)
    requires c.Valid() && Starry(c.tree, sky)
    requires SectionFit(SectionOf(c.tree, dataName), HubsOf(sky))
    modifies sky.Values
    ensures old(Meets(Meaning(c.tree), HubsOf(sky), Marked(sky))) ==> r == Fail(StarNotFound)
    ensures !old(Meets(Meaning(c.tree), HubsOf(sky), Marked(sky))) ==>
              && r.Got? && fresh(r.value) && r.value.Valid()
              && var x := old(NormSection(SectionOf(c.tree, dataName), HubsOf(sky), m));
                 && Meaning(r.value.tree) == x.kids && r.value.tree.root.ino == x.root.ino
                 && KidsBack(old(Meaning(c.tree)), Meaning(r.value.tree), old(HubsOf(sky)), m)
                 && InodeBack(old(c.tree.root.ino), r.value.tree.root.ino, m.algo)
    ensures r.Got? ==> Starry(r.value.tree, stars) && forall e :: e in stars ==> fresh(stars[e])
    ensures r.Got? && !m.onlyDetruit ==> R.AllCounted(Meaning(r.value.tree), stars)
  {
    ghost var x, hubs := SectionOf(c.tree, dataName), HubsOf(sky);
    AbsUnique(c.tree, c.tree.root);
    SectionUnique(x, hubs, m);
    var s;
    s, stars := Reload(c, dataName, m, sum, sky);
    if s.Fail? {
      return Fail(s.error), stars;
    }
    if m.onlyDetruit {
      CleanOnStars(s.value.kids, stars);
    }
    var built := Rebuild(s.value.root.ino, s.value.kids, stars);
    r := Got(built, s.next);
  }
}
