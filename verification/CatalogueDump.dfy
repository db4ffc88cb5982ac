/** Writing a catalogue: the walk that marks the etoiles writes exactly the section of the
    tree. */
module CatalogueDump {
  import opened Entries
  import opened ValueTrees
  import opened Snapshots
  import opened Catalogues
  import opened Tokens
  import opened InodeCodec
  import opened Archives
  import opened Sections
  import opened TokenFiles

  /** The etoile of each etiquette. */
  type Sky = map<nat, Etoile>

  /** Etiquettes identify etoiles, and every link of the tree leads to one of them. */
  ghost predicate Starry(t: Tree, sky: Sky) {
    && (forall e {:trigger sky[e]} :: e in sky ==> sky[e].etiquette == e)
    && forall d, i {:trigger t.kids[d][i]} :: d in t.kids && 0 <= i < |t.kids[d]| && t.kids[d][i].EMirage? ==>
         t.kids[d][i].star.etiquette in sky && sky[t.kids[d][i].star.etiquette] == t.kids[d][i].star
  }

  /** An etoile is shared from two references on. */
  ghost function HubsOf(sky: Sky): (hubs: Hubs)
    reads sky.Values
    ensures hubs.Keys == sky.Keys
    ensures forall e {:trigger hubs[e]} :: e in hubs ==>
              hubs[e] == if sky[e].refs >= 2 then Shared(sky[e].hostedName, sky[e].ino) else Alone(sky[e].ino)
  {
    map e | e in sky :: if sky[e].refs > 1 then Shared(sky[e].hostedName, sky[e].ino) else Alone(sky[e].ino)
  }

  ghost function Marked(sky: Sky): set<nat>
    reads sky.Values
  {
    set e | e in sky && sky[e].dumped
  }

  /** A link whose etoile has other links: its inode follows unless it was written before. */
  method DumpShared(w: TokenFile, name: string, star: Etoile)
    requires star.refs > 1 && Writable(star.ino)
    modifies w`data, star`dumped
    ensures star.dumped
    ensures var e := star.etiquette;
            w.data == old(w.data) + if old(star.dumped) then LinkHead(name, e, MIRAGE_ALONE)
                                    else LinkHead(name, e, MIRAGE_WITH_INODE) + InodeEntry(star.hostedName, star.ino)
  {
    ghost var before, e := w.data, star.etiquette;
    w.Put(Byte(LETTER_MIRAGE));
    w.Put(Str(name));
    w.Put(Num(star.etiquette));
    if !star.dumped {
      w.Put(Byte(MIRAGE_WITH_INODE));
      assert w.data == before + LinkHead(name, e, MIRAGE_WITH_INODE);
      WriteInode(w, star.hostedName, star.ino);
      Assoc(before, LinkHead(name, e, MIRAGE_WITH_INODE), InodeEntry(star.hostedName, star.ino));
      star.dumped := true;
    } else {
      w.Put(Byte(MIRAGE_ALONE));
      assert w.data == before + LinkHead(name, e, MIRAGE_ALONE);
    }
  }

  /** A link; an etoile with a single link is written as a plain inode under its name. */
  method DumpMirage(w: TokenFile, name: string, star: Etoile, ghost sky: Sky)
    requires star.etiquette in sky && sky[star.etiquette] == star
               && (forall e {:trigger sky[e]} :: e in sky ==> sky[e].etiquette == e)
    requires Fit(NLink(name, star.etiquette, star.ino), HubsOf(sky))
    modifies w`data, star`dumped, star`hostedName
    ensures HubsOf(sky) == old(HubsOf(sky))
    ensures var r := old(DumpNode(NLink(name, star.etiquette, star.ino), HubsOf(sky), Marked(sky)));
            w.data == old(w.data) + r.0 && Marked(sky) == r.1
  {
    if star.refs > 1 {
      DumpShared(w, name, star);
    } else {
      star.hostedName := name;
      WriteInode(w, star.hostedName, star.ino);
    }
  }

  method DumpLeaf(w: TokenFile, l: Leaf, ghost hubs: Hubs, ghost dumped: set<nat>)
    requires Fit(NLeaf(l), hubs)
    modifies w`data
    ensures w.data == old(w.data) + DumpNode(NLeaf(l), hubs, dumped).0
  {
    ghost var before := w.data;
    match l
    case Plain(name, ino) => WriteInode(w, name, ino);
    case Detruit(name, signe, date) =>
      w.Put(Byte(LETTER_DETRUIT));
      w.Put(Str(name));
      w.Put(Byte(signe));
      w.Put(Num(date));
      assert w.data == before + DetruitTokens(name, signe, date);
    case Ignored(_) =>
    case IgnoredDir(name, ino) =>
      WriteInode(w, name, BareDirectory(ino));
      w.Put(Byte(LETTER_EOD));
      Assoc(before, InodeEntry(name, BareDirectory(ino)), [Byte(LETTER_EOD)]);
  }

  /** What the rest of the walk through a directory will add to the file and to the marks. */
  ghost predicate Coming(w: seq<Token>, k: seq<Node>, i: nat, hubs: Hubs, marked: set<nat>,
                         goal: (seq<Token>, set<nat>)) {
    && i <= |k| && AllFit(k[i..], hubs)
    && (w + DumpForest(k[i..], hubs, marked).0, DumpForest(k[i..], hubs, marked).1) == goal
  }

  lemma ComingStart(w: seq<Token>, k: seq<Node>, hubs: Hubs, marked: set<nat>)
    requires AllFit(k, hubs)
    ensures var r := DumpForest(k, hubs, marked); Coming(w, k, 0, hubs, marked, (w + r.0, r.1))
  {
    assert k[0..] == k;
  }

  lemma ComingStep(w: seq<Token>, k: seq<Node>, i: nat, hubs: Hubs, marked: set<nat>, goal: (seq<Token>, set<nat>))
    requires i < |k| && Coming(w, k, i, hubs, marked, goal)
    ensures Fit(k[i], hubs)
    ensures var r := DumpNode(k[i], hubs, marked); Coming(w + r.0, k, i + 1, hubs, r.1, goal)
  {
    assert k[i..][0] == k[i] && k[i..][1..] == k[i + 1..];
    var r := DumpNode(k[i], hubs, marked);
    Assoc(w, r.0, DumpForest(k[i + 1..], hubs, r.1).0);
  }

  lemma ComingEnd(w: seq<Token>, k: seq<Node>, i: nat, hubs: Hubs, marked: set<nat>, goal: (seq<Token>, set<nat>))
    requires i == |k| && Coming(w, k, i, hubs, marked, goal)
    ensures (w, marked) == goal
  {
    assert k[i..] == [] && w + [] == w;
  }

  /** The entry at slot i of the directory d. */
  method DumpChild(c: Catalogue, d: DirRef, i: nat, w: TokenFile, ghost sky: Sky)
    requires c.tree.Ok() && d in c.tree.kids && i < |c.tree.kids[d]| && Starry(c.tree, sky)
    requires Fit(AbsKids(c.tree, d)[i], HubsOf(sky))
    modifies w`data, sky.Values
    ensures HubsOf(sky) == old(HubsOf(sky))
    ensures var r := old(DumpNode(AbsKids(c.tree, d)[i], HubsOf(sky), Marked(sky)));
            w.data == old(w.data) + r.0 && Marked(sky) == r.1
    decreases c.tree.next - d.id, 0
  {
    assert AbsKids(c.tree, d)[i] == AbsEntry(c.tree, d, i);
    match c.tree.kids[d][i]
    case EDir(sub) =>
      DumpDirectory(c, sub, w, sky);
    case EMirage(name, star) =>
      DumpMirage(w, name, star, sky);
    case ELeaf(l) =>
      DumpLeaf(w, l, HubsOf(sky), Marked(sky));
  }

  lemma DirectoryTokens(w: seq<Token>, h: seq<Token>, k: seq<Token>, z: seq<Token>)
    ensures (w + h) + k + z == w + (h + k + z)
  {
  }

  /** directory::inherited_dump: the inode, the children, the end of directory. */
  method DumpDirectory(c: Catalogue, d: DirRef, w: TokenFile, ghost sky: Sky)
    requires c.tree.Ok() && d in c.tree.kids && Starry(c.tree, sky)
    requires Fit(NDir(d.name, d.ino, AbsKids(c.tree, d)), HubsOf(sky))
    modifies w`data, sky.Values
    ensures HubsOf(sky) == old(HubsOf(sky))
    ensures var r := old(DumpNode(NDir(d.name, d.ino, AbsKids(c.tree, d)), HubsOf(sky), Marked(sky)));
            w.data == old(w.data) + r.0 && Marked(sky) == r.1
    decreases c.tree.next - d.id, 2
  {
    ghost var k, hubs, before, marked := AbsKids(c.tree, d), HubsOf(sky), w.data, Marked(sky);
    ghost var r := DumpForest(k, hubs, marked);
    WriteInode(w, d.name, d.ino);
    DumpChildren(c, d, w, sky);
    w.Put(Byte(LETTER_EOD));
    DirectoryTokens(before, InodeEntry(d.name, d.ino), r.0, [Byte(LETTER_EOD)]);
  }

  method DumpChildren(c: Catalogue, d: DirRef, w: TokenFile, ghost sky: Sky)
    requires c.tree.Ok() && d in c.tree.kids && Starry(c.tree, sky)
    requires AllFit(AbsKids(c.tree, d), HubsOf(sky))
    modifies w`data, sky.Values
    ensures HubsOf(sky) == old(HubsOf(sky))
    ensures var r := old(DumpForest(AbsKids(c.tree, d), HubsOf(sky), Marked(sky)));
            w.data == old(w.data) + r.0 && Marked(sky) == r.1
    decreases c.tree.next - d.id, 1
  {
    ghost var k, hubs, r := AbsKids(c.tree, d), HubsOf(sky), DumpForest(AbsKids(c.tree, d), HubsOf(sky), Marked(sky));
    ghost var goal := (w.data + r.0, r.1);
    ComingStart(w.data, k, hubs, Marked(sky));
    var x := 0;
    while x < |c.tree.kids[d]|
      invariant 0 <= x <= |k| && HubsOf(sky) == hubs
      invariant Coming(w.data, k, x, hubs, Marked(sky), goal)
    {
      ComingStep(w.data, k, x, hubs, Marked(sky), goal);
      DumpChild(c, d, x, w, sky);
      x := x + 1;
    }
    ComingEnd(w.data, k, x, hubs, Marked(sky), goal);
  }

  ghost function SectionOf(t: Tree, dataName: seq<bv8>): Section
    requires t.Ok()
  {
    Section(dataName, Named(t.root.name, t.root.ino), Meaning(t))
  }

  lemma BodyGather(a: Token, h: seq<Token>, k: seq<Token>, z: Token)
    ensures [a] + (h + k + [z]) == [a] + h + k + [z]
  {
  }

  /** catalogue::dump: label, root directory, checksum of both. */
  method DumpCatalogue(c: Catalogue, w: TokenFile, dataName: seq<bv8>, sum: seq<Token> -> seq<bv8>, ghost sky: Sky)
    requires c.tree.Ok() && Starry(c.tree, sky) && w.data == []
    requires SectionFit(SectionOf(c.tree, dataName), HubsOf(sky))
    modifies w`data, sky.Values
    ensures HubsOf(sky) == old(HubsOf(sky))
    ensures w.data == old(DumpSection(SectionOf(c.tree, dataName), HubsOf(sky), Marked(sky), sum))
    ensures Marked(sky) == old(DumpForest(Meaning(c.tree), HubsOf(sky), Marked(sky)).1)
  {
    ghost var r, root := DumpForest(Meaning(c.tree), HubsOf(sky), Marked(sky)), c.tree.root;
    ghost var body := Body(SectionOf(c.tree, dataName), HubsOf(sky), Marked(sky));
    w.Put(Label(dataName));
    DumpDirectory(c, c.tree.root, w, sky);
    BodyGather(Label(dataName), InodeEntry(root.name, root.ino), r.0, Byte(LETTER_EOD));
    assert w.data == body;
    w.Put(Sum(sum(w.data)));
  }
}
