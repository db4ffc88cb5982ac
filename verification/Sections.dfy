/** The whole catalogue section: label, root directory, checksum. */
module Sections {
  import opened Entries
  import opened ValueTrees
  import opened Tokens
  import opened InodeCodec
  import opened Archives
  import opened Pruning

  datatype Section = Section(dataName: seq<bv8>, root: Named, kids: seq<Node>)

  ghost predicate SectionFit(x: Section, hubs: Hubs) {
    Writable(x.root.ino) && x.root.ino.payload.Dir? && AllFit(x.kids, hubs)
  }

  /** What is covered by the checksum. */
  ghost function Body(x: Section, hubs: Hubs, dumped: set<nat>): seq<Token>
    requires SectionFit(x, hubs)
  {
    [Label(x.dataName)] + InodeEntry(x.root.name, x.root.ino) + DumpForest(x.kids, hubs, dumped).0 + [Byte(LETTER_EOD)]
  }

  ghost function DumpSection(x: Section, hubs: Hubs, dumped: set<nat>, sum: seq<Token> -> seq<bv8>): seq<Token>
    requires SectionFit(x, hubs)
  {
    Body(x, hubs, dumped) + [Sum(sum(Body(x, hubs, dumped)))]
  }

  function TakeRoot(f: seq<Token>, p: nat): Parsed<SavedStatus> {
    var (b, p1) :- TakeByte(f, p);
    match ExtractBase(b)
    case Some((base, s)) => if base == LETTER_DIR then Got(s, p1) else Fail(IncoherentCatalogue)
    case None => Fail(IncoherentCatalogue)
  }

  /** The entries of the root and the checksum; with only deletion records wanted, links
      and the directories left without entries are then dropped. */
  function ParseBody(f: seq<Token>, p: nat, dataName: seq<bv8>, root: Named, m: ReadMode,
                     sum: seq<Token> -> seq<bv8>): Parsed<Section> {
    var ((kids, _), q) :- ParseKids(f, p, map[], m);
    var (crc, end) :- TakeSum(f, q);
    if crc != sum(f[..q]) then Fail(WrongChecksum)
    else Got(Section(dataName, root, if m.onlyDetruit then Prune(kids) else kids), end)
  }

  function ParseSection(f: seq<Token>, m: ReadMode, sum: seq<Token> -> seq<bv8>): Parsed<Section> {
    var (dataName, p1) :- TakeLabel(f, 0);
    var (s, p2) :- TakeRoot(f, p1);
    var (root, p3) :- TakeInode(f, p2, KDir, s, m.algo);
    ParseBody(f, p3, dataName, root, m, sum)
  }

  /** The section as it is read. */
  ghost function NormSection(x: Section, hubs: Hubs, m: ReadMode): Section
    requires SectionFit(x, hubs)
  {
    var k := Norm(x.kids, hubs, m);
    Section(x.dataName, Named(x.root.name, Stored(x.root.ino, m.algo)), if m.onlyDetruit then Prune(k) else k)
  }

  /** The nodes of k are what is found of those of f; when only deletion records are wanted,
      these without links and empty directories. */
  ghost predicate KidsBack(f: seq<Node>, k: seq<Node>, hubs: Hubs, m: ReadMode)
    requires AllFit(f, hubs)
  {
    if m.onlyDetruit then exists all :: ForestBack(f, all, hubs, m) && Clean(k) && Leaves(k, []) == Leaves(all, [])
    else ForestBack(f, k, hubs, m)
  }

  /** y is what is found of the section x. */
  ghost predicate SectionBack(x: Section, y: Section, hubs: Hubs, m: ReadMode)
    requires SectionFit(x, hubs)
  {
    && y.dataName == x.dataName && y.root.name == x.root.name
    && InodeBack(x.root.ino, y.root.ino, m.algo) && KidsBack(x.kids, y.kids, hubs, m)
  }

  lemma NormSectionIsBack(x: Section, hubs: Hubs, m: ReadMode)
    requires SectionFit(x, hubs)
    ensures SectionBack(x, NormSection(x, hubs, m), hubs, m)
  {
    StoredIsBack(x.root.ino, Stored(x.root.ino, m.algo), m.algo);
    NormIsBack(x.kids, hubs, m);
    PruneIsExact(Norm(x.kids, hubs, m), []);
  }

  /** Reading a section that was written finds it. */
  ghost predicate FindsSection(f: seq<Token>, m: ReadMode, sum: seq<Token> -> seq<bv8>, r: Parsed<Section>) {
    forall x, hubs, dumped {:trigger DumpSection(x, hubs, dumped, sum)} ::
      SectionFit(x, hubs) && f == DumpSection(x, hubs, dumped, sum) && !Meets(x.kids, hubs, dumped) ==>
        r.Got? && SectionBack(x, r.value, hubs, m)
  }

  lemma RootRead(f: seq<Token>, p: nat, name: string, i: Inode, algo: Compression)
    requires Writable(i) && i.payload.Dir? && Holds(f, p, InodeEntry(name, i))
    ensures TakeRoot(f, p) == Got(i.saved, p + 1)
    ensures TakeInode(f, p + 1, KDir, i.saved, algo) == Got(Named(name, Stored(i, algo)), p + |InodeEntry(name, i)|)
  {
    EntryHolds(f, p, name, i);
    KindCodec(i);
    InodeRead(f, p + 1, name, i, algo);
  }

  /** Where each part of a section is. */
  ghost predicate Laid(f: seq<Token>, x: Section, hubs: Hubs, dumped: set<nat>, sum: seq<Token> -> seq<bv8>, p: nat,
                       q: nat)
    requires SectionFit(x, hubs)
  {
    && p == 1 + |InodeEntry(x.root.name, x.root.ino)| && q == p + |DumpForest(x.kids, hubs, dumped).0|
    && |f| == q + 2 && f[0] == Label(x.dataName) && f[q + 1] == Sum(sum(f[..q + 1]))
    && Holds(f, 1, InodeEntry(x.root.name, x.root.ino))
    && Holds(f, p, DumpForest(x.kids, hubs, dumped).0)
    && Holds(f, q, [Byte(LETTER_EOD)])
  }

  lemma SectionLaid(x: Section, hubs: Hubs, dumped: set<nat>, sum: seq<Token> -> seq<bv8>) returns (p: nat, q: nat)
    requires SectionFit(x, hubs)
    ensures Laid(DumpSection(x, hubs, dumped, sum), x, hubs, dumped, sum, p, q)
  {
    var f, l, h, k := DumpSection(x, hubs, dumped, sum), [Label(x.dataName)], InodeEntry(x.root.name, x.root.ino),
      DumpForest(x.kids, hubs, dumped).0;
    p := 1 + |h|;
    q := p + |k|;
    assert f[..q + 1] == Body(x, hubs, dumped);
    assert Holds(f, 0, l + h + k + [Byte(LETTER_EOD)]);
    HoldsSplit(f, 0, l + h + k, [Byte(LETTER_EOD)]);
    HoldsSplit(f, 0, l + h, k);
    HoldsSplit(f, 0, l, h);
    assert f[0 + 0] == l[0];
  }

  lemma HeadRead(f: seq<Token>, x: Section, p: nat, m: ReadMode, sum: seq<Token> -> seq<bv8>)
    requires Writable(x.root.ino) && x.root.ino.payload.Dir? && |f| > 0 && f[0] == Label(x.dataName)
    requires Holds(f, 1, InodeEntry(x.root.name, x.root.ino)) && p == 1 + |InodeEntry(x.root.name, x.root.ino)|
    ensures ParseSection(f, m, sum) ==
              ParseBody(f, p, x.dataName, Named(x.root.name, Stored(x.root.ino, m.algo)), m, sum)
  {
    RootRead(f, 1, x.root.name, x.root.ino, m.algo);
  }

  lemma KidsRead(f: seq<Token>, p: nat, q: nat, k: seq<Node>, hubs: Hubs, dumped: set<nat>, after: set<nat>,
                 m: ReadMode)
    requires AllFit(k, hubs) && ForestIsRead(f, p, q, k, hubs, dumped, after, dumped, m)
               && Holds(f, q, [Byte(LETTER_EOD)])
    ensures ParseKids(f, p, map[], m) ==
            if Meets(k, hubs, dumped) then Fail(StarNotFound)
            else Got((Norm(k, hubs, m), CorresOf(hubs, after, dumped, m.algo)), q + 1)
  {
    EodRead(f, q, CorresOf(hubs, after, dumped, m.algo), m);
    assert CorresOf(hubs, dumped, dumped, m.algo) == map[];
    assert Norm(k, hubs, m) + [] == Norm(k, hubs, m);
  }

  lemma BodyRead(f: seq<Token>, x: Section, hubs: Hubs, dumped: set<nat>, after: set<nat>, m: ReadMode,
                 sum: seq<Token> -> seq<bv8>, p: nat, q: nat)
    requires SectionFit(x, hubs) && Laid(f, x, hubs, dumped, sum, p, q)
    requires ForestIsRead(f, p, q, x.kids, hubs, dumped, after, dumped, m)
    ensures ParseBody(f, p, x.dataName, NormSection(x, hubs, m).root, m, sum) ==
            if Meets(x.kids, hubs, dumped) then Fail(StarNotFound) else Got(NormSection(x, hubs, m), |f|)
  {
    KidsRead(f, p, q, x.kids, hubs, dumped, after, m);
  }

  lemma SectionRead(f: seq<Token>, x: Section, hubs: Hubs, dumped: set<nat>, m: ReadMode,
                    sum: seq<Token> -> seq<bv8>, p: nat, q: nat)
    requires SectionFit(x, hubs) && Laid(f, x, hubs, dumped, sum, p, q)
    ensures ParseSection(f, m, sum) ==
            if Meets(x.kids, hubs, dumped) then Fail(StarNotFound) else Got(NormSection(x, hubs, m), |f|)
  {
    HeadRead(f, x, p, m, sum);
    var q2, after := ForestParsed(f, p, x.kids, hubs, dumped, dumped, m);
    BodyRead(f, x, hubs, dumped, after, m, sum, p, q);
  }

  /** Reading a section that was written finds it, each inode with its fields, whole, and
      meets no incoherence, unless some shared inode of the tree was marked as written
      before. */
  lemma SectionRoundTrip(x: Section, hubs: Hubs, dumped: set<nat>, m: ReadMode, sum: seq<Token> -> seq<bv8>)
    requires SectionFit(x, hubs)
    ensures var f := DumpSection(x, hubs, dumped, sum);
            ParseSection(f, m, sum) ==
            if Meets(x.kids, hubs, dumped) then Fail(StarNotFound) else Got(NormSection(x, hubs, m), |f|)
    ensures SectionBack(x, NormSection(x, hubs, m), hubs, m)
  {
    var p, q := SectionLaid(x, hubs, dumped, sum);
    SectionRead(DumpSection(x, hubs, dumped, sum), x, hubs, dumped, m, sum, p, q);
    NormSectionIsBack(x, hubs, m);
  }

  lemma SectionFound(f: seq<Token>, m: ReadMode, sum: seq<Token> -> seq<bv8>)
    ensures FindsSection(f, m, sum, ParseSection(f, m, sum))
  {
    forall x, hubs, dumped {:trigger DumpSection(x, hubs, dumped, sum)} |
      SectionFit(x, hubs) && f == DumpSection(x, hubs, dumped, sum) && !Meets(x.kids, hubs, dumped)
      ensures var r := ParseSection(f, m, sum); r.Got? && SectionBack(x, r.value, hubs, m)
    {
      SectionRoundTrip(x, hubs, dumped, m, sum);
    }
  }

  // ----- the etoiles

  /** The etiquettes of the shared links of a tree. */
  ghost function SharedIn(f: seq<Node>, hubs: Hubs): set<nat>
    requires AllFit(f, hubs)
  {
    if f == [] then {}
    else
      assert Fit(f[0], hubs);
      (match f[0]
       case NDir(_, _, kids) => SharedIn(kids, hubs)
       case NLink(_, e, _) => if hubs[e].Shared? then {e} else {}
       case _ => {})
      + SharedIn(f[1..], hubs)
  }

  lemma {:induction false} MeetsIsShared(f: seq<Node>, hubs: Hubs, lost: set<nat>)
    requires AllFit(f, hubs)
    ensures Meets(f, hubs, lost) <==> SharedIn(f, hubs) * lost != {}
  {
    if f != [] {
      MeetsIsShared(f[1..], hubs, lost);
      if f[0].NDir? {
        MeetsIsShared(f[0].kids, hubs, lost);
      }
    }
  }

  /** Writing marks exactly the shared etoiles of the tree. */
  lemma {:induction false} DumpMarksShared(f: seq<Node>, hubs: Hubs, dumped: set<nat>)
    requires AllFit(f, hubs)
    ensures DumpForest(f, hubs, dumped).1 == dumped + SharedIn(f, hubs)
  {
    if f != [] {
      DumpMarksShared(f[1..], hubs, DumpNode(f[0], hubs, dumped).1);
      if f[0].NDir? {
        DumpMarksShared(f[0].kids, hubs, dumped);
      }
    }
  }

  /** The marks are never taken back: a catalogue written a second time can be read iff it
      has no shared etoile at all. */
  lemma SecondDump(x: Section, hubs: Hubs, m: ReadMode, sum: seq<Token> -> seq<bv8>)
    requires SectionFit(x, hubs)
    ensures ParseSection(DumpSection(x, hubs, {}, sum), m, sum).Got?
    ensures var again := DumpForest(x.kids, hubs, {}).1;
            ParseSection(DumpSection(x, hubs, again, sum), m, sum).Got? <==> SharedIn(x.kids, hubs) == {}
  {
    var again := DumpForest(x.kids, hubs, {}).1;
    DumpMarksShared(x.kids, hubs, {});
    MeetsIsShared(x.kids, hubs, {});
    MeetsIsShared(x.kids, hubs, again);
    SectionRoundTrip(x, hubs, {}, m, sum);
    SectionRoundTrip(x, hubs, again, m, sum);
  }

  /** Such a catalogue: two links to one tube. */
  lemma SharedTwice(tube: Inode, root: Inode, m: ReadMode, sum: seq<Token> -> seq<bv8>) returns (x: Section, hubs: Hubs)
    requires tube.payload == Tube && Writable(tube) && root.payload == Dir && Writable(root)
    ensures SectionFit(x, hubs) && SharedIn(x.kids, hubs) == {0}
    ensures x.kids == [NLink("a", 0, tube), NLink("b", 0, tube)]
    ensures var again := DumpForest(x.kids, hubs, {}).1;
            && ParseSection(DumpSection(x, hubs, {}, sum), m, sum).Got?
            && ParseSection(DumpSection(x, hubs, again, sum), m, sum) == Fail(StarNotFound)
  {
    hubs := map[0 := Shared("a", tube)];
    x := Section([], Named("root", root), [NLink("a", 0, tube), NLink("b", 0, tube)]);
    TwoLinks(x.kids, hubs);
    SecondDump(x, hubs, m, sum);
    SectionRoundTrip(x, hubs, DumpForest(x.kids, hubs, {}).1, m, sum);
  }

  lemma TwoLinks(k: seq<Node>, hubs: Hubs)
    requires |k| == 2 && k[0].NLink? && k[1].NLink? && k[0].etiquette == k[1].etiquette == 0
    requires 0 in hubs && hubs[0].Shared? && hubs[0].ino == k[0].ino == k[1].ino
    requires Writable(k[0].ino) && !k[0].ino.payload.Dir?
    ensures AllFit(k, hubs) && SharedIn(k, hubs) == {0}
  {
    assert Fit(k[0], hubs) && Fit(k[1], hubs);
    assert k[1..][0] == k[1] && k[1..][1..] == [];
    assert SharedIn(k[1..], hubs) == {0};
  }

  // ----- reading deletion records only

  /** The deletion records of a tree, each with the directories, in stored form, that lead
      to it. */
  function Deleted(f: seq<Node>, above: seq<(string, Inode)>, algo: Compression): seq<Located> {
    if f == [] then [] else DeletedOf(f[0], above, algo) + Deleted(f[1..], above, algo)
  }

  function DeletedOf(n: Node, above: seq<(string, Inode)>, algo: Compression): seq<Located> {
    match n
    case NDir(name, ino, kids) => Deleted(kids, above + [(name, Stored(ino, algo))], algo)
    case NLeaf(Detruit(n, s, d)) => [Located(above, Detruit(n, s, d))]
    case _ => []
  }

  lemma LeavesOfOne(n: Node, above: seq<(string, Inode)>)
    ensures Leaves([n], above) == LeavesOf(n, above)
  {
    assert Leaves([n], above) == LeavesOf(n, above) + Leaves([], above);
  }

  lemma {:induction false} NormDeleted(f: seq<Node>, hubs: Hubs, m: ReadMode, above: seq<(string, Inode)>)
    requires AllFit(f, hubs) && m.onlyDetruit
    ensures Leaves(Norm(f, hubs, m), above) == Deleted(f, above, m.algo)
  {
    if f != [] {
      NormDeleted(f[1..], hubs, m, above);
      if !(f[0].NLeaf? && f[0].leaf.Ignored?) {
        var n := NormOne(f[0], hubs, m);
        LeavesAppend(Kept(n, m), Norm(f[1..], hubs, m), above);
        LeavesOfOne(n, above);
        if f[0].NDir? {
          NormDeleted(f[0].kids, hubs, m, above + [(f[0].name, Stored(f[0].ino, m.algo))]);
        }
      } else {
        assert Norm(f, hubs, m) == Norm(f[1..], hubs, m);
      }
    }
  }

  /** With only deletion records wanted, exactly they are read, with just the directories
      leading to them. */
  lemma OnlyDetruitIsExact(x: Section, hubs: Hubs, m: ReadMode)
    requires SectionFit(x, hubs) && m.onlyDetruit
    ensures var k := NormSection(x, hubs, m).kids;
            Clean(k) && Leaves(k, []) == Deleted(x.kids, [], m.algo)
  {
    PruneIsExact(Norm(x.kids, hubs, m), []);
    NormDeleted(x.kids, hubs, m, []);
  }
}
