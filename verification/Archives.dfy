/** The catalogue section of an archive: what a tree is written as, what a section is read
    as, and that reading gives back the tree that was written, up to its stored form. */
module Archives {
  import opened Entries
  import opened ValueTrees
  import opened Tokens
  import opened InodeCodec

  const LETTER_DIR: bv8 := 0x64        // d
  const LETTER_MIRAGE: bv8 := 0x6D     // m
  const LETTER_OLD_LINK: bv8 := 0x68   // h
  const LETTER_OLD_STAR: bv8 := 0x65   // e
  const LETTER_EOD: bv8 := 0x7A        // z
  const LETTER_DETRUIT: bv8 := 0x78    // x
  const MIRAGE_ALONE: bv8 := 0x58      // X
  const MIRAGE_WITH_INODE: bv8 := 0x3E // >

  /** The etoile of an etiquette: referred to by several links, under the name its inode
      was given, or by a single one. */
  datatype Hub = Shared(hosted: string, ino: Inode) | Alone(ino: Inode)
  type Hubs = map<nat, Hub>

  /** The nodes that can be written: inodes of the right class, with their checksums, and
      links to known etoiles. */
  ghost predicate Fit(n: Node, hubs: Hubs) {
    match n
    case NDir(_, ino, kids) => Writable(ino) && ino.payload.Dir? && AllFit(kids, hubs)
    case NLink(_, e, ino) => e in hubs && hubs[e].ino == ino && Writable(ino) && !ino.payload.Dir?
    case NLeaf(Plain(_, ino)) => Writable(ino) && !ino.payload.Dir?
    case NLeaf(IgnoredDir(_, ino)) => ino.payload.Dir?
    case NLeaf(_) => true
  }

  ghost predicate AllFit(f: seq<Node>, hubs: Hubs) {
    forall i :: 0 <= i < |f| ==> Fit(f[i], hubs)
  }

  // ----- writing

  /** The directory without children an `ignored_dir` is written as. */
  function BareDirectory(i: Inode): Inode {
    i.(ea := EaNone, eaData := EaData(0, 0, None), device := 0, payload := Dir)
  }

  function InodeEntry(name: string, i: Inode): seq<Token>
    requires Writable(i)
  {
    [Byte(Signature(i))] + InodeTokens(name, i)
  }

  function LinkHead(name: string, etiquette: nat, flag: bv8): seq<Token> {
    [Byte(LETTER_MIRAGE), Str(name), Num(etiquette), Byte(flag)]
  }

  function DetruitTokens(name: string, signe: bv8, date: nat): seq<Token> {
    [Byte(LETTER_DETRUIT), Str(name), Byte(signe), Num(date)]
  }

  /** What a node is written as, and the etoiles whose inode has been written since. */
  ghost function DumpNode(n: Node, hubs: Hubs, dumped: set<nat>): (seq<Token>, set<nat>)
    requires Fit(n, hubs)
  {
    match n
    case NDir(name, ino, kids) =>
      var r := DumpForest(kids, hubs, dumped);
      (InodeEntry(name, ino) + r.0 + [Byte(LETTER_EOD)], r.1)
    case NLink(name, e, ino) =>
      (match hubs[e]
       case Shared(hosted, _) =>
         if e in dumped then (LinkHead(name, e, MIRAGE_ALONE), dumped)
         else (LinkHead(name, e, MIRAGE_WITH_INODE) + InodeEntry(hosted, ino), dumped + {e})
       case Alone(_) => (InodeEntry(name, ino), dumped))
    case NLeaf(Plain(name, ino)) => (InodeEntry(name, ino), dumped)
    case NLeaf(Detruit(name, signe, date)) => (DetruitTokens(name, signe, date), dumped)
    case NLeaf(Ignored(_)) => ([], dumped)
    case NLeaf(IgnoredDir(name, ino)) => (InodeEntry(name, BareDirectory(ino)) + [Byte(LETTER_EOD)], dumped)
  }

  ghost function DumpForest(f: seq<Node>, hubs: Hubs, dumped: set<nat>): (seq<Token>, set<nat>)
    requires AllFit(f, hubs)
  {
    if f == [] then ([], dumped)
    else
      var a := DumpNode(f[0], hubs, dumped);
      var b := DumpForest(f[1..], hubs, a.1);
      (a.0 + b.0, b.1)
  }

  // ----- reading

  datatype ReadMode = ReadMode(onlyDetruit: bool, algo: Compression)

  datatype Item = Eof | Fin | AnEntry(node: Node)

  /** An inode hosted by an etoile, under the name it was read with. */
  datatype Hosted = Hosted(name: string, ino: Inode)
  type Corres = map<nat, Hosted>

  /** When only deletion records are wanted, directories and links are needed to find them. */
  function Kept(n: Node, m: ReadMode): seq<Node> {
    if !m.onlyDetruit || n.NDir? || n.NLink? || (n.NLeaf? && n.leaf.Detruit?) then [n] else []
  }

  function ParseDetruit(f: seq<Token>, p: nat, s: SavedStatus, corres: Corres): (r: Parsed<(Item, Corres)>)
    ensures r.Got? ==> r.value.0 != Eof && p < r.next <= |f|
  {
    if s != Saved then Fail(CorruptedFile)
    else
      var (name, p1) :- TakeStr(f, p);
      var (signe, p2) :- TakeByte(f, p1);
      var (date, p3) :- TakeNum(f, p2);
      Got((AnEntry(NLeaf(Detruit(name, signe, date))), corres), p3)
  }

  /** A link to an etoile already read. */
  function ParseBareLink(p: nat, name: string, e: nat, corres: Corres): Parsed<(Item, Corres)> {
    if e in corres then Got((AnEntry(NLink(name, e, corres[e].ino)), corres), p) else Fail(StarNotFound)
  }

  /** A link that brings its inode. */
  function NewStar(p: nat, name: string, e: nat, h: Hosted, corres: Corres): Parsed<(Item, Corres)> {
    if e in corres then Fail(DuplicatedStar)
    else Got((AnEntry(NLink(name, e, h.ino)), corres[e := h]), p)
  }

  function ParseLink(f: seq<Token>, p: nat, corres: Corres, m: ReadMode): (r: Parsed<(Item, Corres)>)
    ensures r.Got? ==> r.value.0 != Eof && p < r.next <= |f|
    decreases |f| - p, 1
  {
    var (name, p1) :- TakeStr(f, p);
    var (e, p2) :- TakeNum(f, p1);
    var (flag, p3) :- TakeByte(f, p2);
    if flag == MIRAGE_ALONE then ParseBareLink(p3, name, e, corres)
    else if flag == MIRAGE_WITH_INODE then ParseHosted(f, p3, name, e, corres, m)
    else Fail(UnknownLinkFlag)
  }

  function ParseHosted(f: seq<Token>, p: nat, name: string, e: nat, corres: Corres,
                       m: ReadMode): (r: Parsed<(Item, Corres)>)
    ensures r.Got? ==> r.value.0 != Eof && p < r.next <= |f|
    decreases |f| - p, 3
  {
    var ((item, c), p1) :- ParseEntry(f, p, corres, m);
    match item
    case AnEntry(NLeaf(Plain(hosted, ino))) => NewStar(p1, name, e, Hosted(hosted, ino), c)
    case _ => Fail(NotAnInode)
  }

  /** A link of the former format, which keeps the inode apart. */
  function ParseOldLink(f: seq<Token>, p: nat, corres: Corres): (r: Parsed<(Item, Corres)>)
    ensures r.Got? ==> r.value.0 != Eof && p < r.next <= |f|
  {
    var (name, p1) :- TakeStr(f, p);
    var (e, p2) :- TakeNum(f, p1);
    ParseBareLink(p2, name, e, corres)
  }

  function ParseOldStar(f: seq<Token>, p: nat, s: SavedStatus, corres: Corres, m: ReadMode): (r: Parsed<(Item, Corres)>)
    ensures r.Got? ==> r.value.0 != Eof && p < r.next <= |f|
  {
    var (h, p1) :- TakeInode(f, p, KFile, s, m.algo);
    var (e, p2) :- TakeNum(f, p1);
    NewStar(p2, h.name, e, Hosted("", h.ino), corres)
  }

  function ParseInode(f: seq<Token>, p: nat, base: bv8, s: SavedStatus, corres: Corres,
                      m: ReadMode): (r: Parsed<(Item, Corres)>)
    ensures r.Got? ==> r.value.0 != Eof && p < r.next <= |f|
  {
    match KindByLetter(base)
    case None => Fail(UnknownType)
    case Some(k) =>
      var (h, p1) :- TakeInode(f, p, k, s, m.algo);
      Got((AnEntry(NLeaf(Plain(h.name, h.ino))), corres), p1)
  }

  /** entree::read: Eof at the end of the data. */
  function ParseEntry(f: seq<Token>, p: nat, corres: Corres, m: ReadMode): (r: Parsed<(Item, Corres)>)
    ensures r.Got? && r.value.0 != Eof ==> p < r.next <= |f|
    decreases |f| - p, 2
  {
    if p >= |f| then Got((Eof, corres), p)
    else if !f[p].Byte? || ExtractBase(f[p].b).None? then Fail(CorruptedFile)
    else
      var (base, s) := ExtractBase(f[p].b).value;
      ParseTyped(f, p + 1, base, s, corres, m)
  }

  function ParseTyped(f: seq<Token>, p: nat, base: bv8, s: SavedStatus, corres: Corres,
                      m: ReadMode): (r: Parsed<(Item, Corres)>)
    ensures r.Got? ==> r.value.0 != Eof && p <= r.next && (p <= |f| ==> r.next <= |f|)
    decreases |f| - p, 5
  {
    if base == LETTER_DIR then ParseDirectory(f, p, s, corres, m)
    else if base == LETTER_MIRAGE then ParseLink(f, p, corres, m)
    else ParseSimple(f, p, base, s, corres, m)
  }

  /** The entries that hold no other. */
  function ParseSimple(f: seq<Token>, p: nat, base: bv8, s: SavedStatus, corres: Corres,
                       m: ReadMode): (r: Parsed<(Item, Corres)>)
    ensures r.Got? ==> r.value.0 != Eof && p <= r.next && (p <= |f| ==> r.next <= |f|)
  {
    if base == LETTER_OLD_LINK then ParseOldLink(f, p, corres)
    else if base == LETTER_OLD_STAR then ParseOldStar(f, p, s, corres, m)
    else if base == LETTER_EOD then (if s == Saved then Got((Fin, corres), p) else Fail(CorruptedFile))
    else if base == LETTER_DETRUIT then ParseDetruit(f, p, s, corres)
    else ParseInode(f, p, base, s, corres, m)
  }

  function ParseDirectory(f: seq<Token>, p: nat, s: SavedStatus, corres: Corres,
                          m: ReadMode): (r: Parsed<(Item, Corres)>)
    ensures r.Got? ==> r.value.0 != Eof && p < r.next <= |f|
    decreases |f| - p, 1
  {
    var (h, p1) :- TakeInode(f, p, KDir, s, m.algo);
    ParseContents(f, p1, h, corres, m)
  }

  function ParseContents(f: seq<Token>, p: nat, h: Named, corres: Corres, m: ReadMode): (r: Parsed<(Item, Corres)>)
    ensures r.Got? ==> r.value.0 != Eof && p < r.next <= |f|
    decreases |f| - p, 4
  {
    var ((kids, c), q) :- ParseKids(f, p, corres, m);
    Got((AnEntry(NDir(h.name, h.ino, kids)), c), q)
  }

  /** The entries of a directory, up to its end. */
  function ParseKids(f: seq<Token>, p: nat, corres: Corres, m: ReadMode): (r: Parsed<(seq<Node>, Corres)>)
    ensures r.Got? ==> p < r.next <= |f|
    decreases |f| - p, 3
  {
    var ((item, c), p1) :- ParseEntry(f, p, corres, m);
    match item
    case Eof => Fail(MissingData)
    case Fin => Got(([], c), p1)
    case AnEntry(n) =>
      var ((rest, c2), p2) :- ParseKids(f, p1, c, m);
      Got((Kept(n, m) + rest, c2), p2)
  }

  // ----- what comes back

  /** A node as it is read, except for the choice of what is kept. */
  ghost function NormOne(n: Node, hubs: Hubs, m: ReadMode): Node
    requires Fit(n, hubs) && !(n.NLeaf? && n.leaf.Ignored?)
  {
    match n
    case NDir(name, ino, kids) => NDir(name, Stored(ino, m.algo), Norm(kids, hubs, m))
    case NLink(name, e, ino) =>
      if hubs[e].Shared? then NLink(name, e, Stored(ino, m.algo)) else NLeaf(Plain(name, Stored(ino, m.algo)))
    case NLeaf(Plain(name, ino)) => NLeaf(Plain(name, Stored(ino, m.algo)))
    case NLeaf(IgnoredDir(name, ino)) => NDir(name, Stored(BareDirectory(ino), m.algo), [])
    case NLeaf(_) => n
  }

  /** The stored form of a tree: `ignored` entries are dropped, an `ignored_dir` is an empty
      directory, a link whose etoile has no other link is a plain inode under the name of
      the link, and inodes are in their stored form. */
  ghost function Norm(f: seq<Node>, hubs: Hubs, m: ReadMode): seq<Node>
    requires AllFit(f, hubs)
  {
    if f == [] then []
    else
      (if f[0].NLeaf? && f[0].leaf.Ignored? then [] else Kept(NormOne(f[0], hubs, m), m))
      + Norm(f[1..], hubs, m)
  }

  // ----- what comes back, node by node

  /** b is what is found of an `ignored_dir` of inode a: a directory without attributes. */
  ghost predicate BareBack(a: Inode, b: Inode) {
    && b.uid == a.uid && b.gid == a.gid && b.perm == a.perm
    && b.lastAccess == a.lastAccess && b.lastModif == a.lastModif && b.lastChange == a.lastChange
    && b.saved == a.saved && b.ea == EaNone && b.eaData.size == 0 && b.eaData.offset == 0 && b.eaData.crc == None
    && b.device == 0 && b.payload.Dir?
  }

  /** Nothing is found of n: an `ignored` entry, and when only deletion records are wanted any
      other entry than a record, a directory or a link that shares its inode. */
  ghost predicate NotBack(n: Node, hubs: Hubs, m: ReadMode)
    requires Fit(n, hubs)
  {
    match n
    case NDir(_, _, _) => false
    case NLink(_, e, _) => m.onlyDetruit && hubs[e].Alone?
    case NLeaf(Plain(_, _)) => m.onlyDetruit
    case NLeaf(Ignored(_)) => true
    case NLeaf(_) => false
  }

  /** b is what is found of the node n. */
  ghost predicate NodeBack(n: Node, b: Node, hubs: Hubs, m: ReadMode)
    requires Fit(n, hubs)
    decreases n, 0
  {
    match n
    case NDir(name, ino, kids) =>
      b.NDir? && b.name == name && InodeBack(ino, b.ino, m.algo) && ForestBack(kids, b.kids, hubs, m)
    case NLink(name, e, ino) =>
      if hubs[e].Shared? then b.NLink? && b.name == name && b.etiquette == e && InodeBack(ino, b.ino, m.algo)
      else b.NLeaf? && b.leaf.Plain? && b.leaf.leafName == name && InodeBack(ino, b.leaf.ino, m.algo)
    case NLeaf(Plain(name, ino)) =>
      b.NLeaf? && b.leaf.Plain? && b.leaf.leafName == name && InodeBack(ino, b.leaf.ino, m.algo)
    case NLeaf(Detruit(name, signe, date)) =>
      b.NLeaf? && b.leaf.Detruit? && b.leaf.leafName == name && b.leaf.signe == signe && b.leaf.date == date
    case NLeaf(IgnoredDir(name, ino)) => b.NDir? && b.name == name && BareBack(ino, b.ino) && b.kids == []
    case NLeaf(Ignored(_)) => false
  }

  /** The nodes of k are what is found of those of f, in their order. */
  ghost predicate ForestBack(f: seq<Node>, k: seq<Node>, hubs: Hubs, m: ReadMode)
    requires AllFit(f, hubs)
    decreases f, 1
  {
    if f == [] then k == []
    else if NotBack(f[0], hubs, m) then ForestBack(f[1..], k, hubs, m)
    else k != [] && NodeBack(f[0], k[0], hubs, m) && ForestBack(f[1..], k[1..], hubs, m)
  }

  /** The stored form of a tree is what is found of it. */
  lemma {:induction false} NormIsBack(f: seq<Node>, hubs: Hubs, m: ReadMode)
    requires AllFit(f, hubs)
    ensures ForestBack(f, Norm(f, hubs, m), hubs, m)
    decreases f, 1
  {
    if f != [] {
      NormIsBack(f[1..], hubs, m);
      if f[0].NLeaf? && f[0].leaf.Ignored? {
        assert Norm(f, hubs, m) == Norm(f[1..], hubs, m);
      } else {
        NormOneIsBack(f[0], hubs, m);
        assert NotBack(f[0], hubs, m) ==> Norm(f, hubs, m) == Norm(f[1..], hubs, m);
      }
    }
  }

  lemma {:induction false} NormOneIsBack(n: Node, hubs: Hubs, m: ReadMode)
    requires Fit(n, hubs) && !(n.NLeaf? && n.leaf.Ignored?)
    ensures NodeBack(n, NormOne(n, hubs, m), hubs, m)
    ensures Kept(NormOne(n, hubs, m), m) == if NotBack(n, hubs, m) then [] else [NormOne(n, hubs, m)]
    decreases n, 0
  {
    match n
    case NDir(_, ino, kids) =>
      StoredIsBack(ino, Stored(ino, m.algo), m.algo);
      NormIsBack(kids, hubs, m);
    case NLink(_, _, ino) => StoredIsBack(ino, Stored(ino, m.algo), m.algo);
    case NLeaf(Plain(_, ino)) => StoredIsBack(ino, Stored(ino, m.algo), m.algo);
    case NLeaf(_) =>
  }

  /** A shared link of the tree has its etiquette in `lost`. */
  ghost predicate MeetsNode(n: Node, hubs: Hubs, lost: set<nat>)
    requires Fit(n, hubs)
  {
    match n
    case NDir(_, _, kids) => Meets(kids, hubs, lost)
    case NLink(_, e, _) => hubs[e].Shared? && e in lost
    case _ => false
  }

  ghost predicate Meets(f: seq<Node>, hubs: Hubs, lost: set<nat>)
    requires AllFit(f, hubs)
  {
    f != [] && (MeetsNode(f[0], hubs, lost) || Meets(f[1..], hubs, lost))
  }

  /** What has been read of the etoiles once those of `dumped` have been written, those of
      `lost` before the beginning of the section. */
  ghost function CorresOf(hubs: Hubs, dumped: set<nat>, lost: set<nat>, algo: Compression): Corres {
    map e | e in dumped && e !in lost && e in hubs && hubs[e].Shared? ::
      Hosted(hubs[e].hosted, Stored(hubs[e].ino, algo))
  }

  lemma PlainLetter(f: seq<Token>, p: nat, base: bv8, s: SavedStatus, corres: Corres, m: ReadMode)
    requires p < |f| && f[p].Byte? && ExtractBase(f[p].b) == Some((base, s))
    requires KindByLetter(base).Some? && base != LETTER_DIR
    ensures ParseEntry(f, p, corres, m) == ParseInode(f, p + 1, base, s, corres, m)
  {
    OtherLetters(base);
  }

  /** The letters of the inodes are not those of the other entries. */
  lemma OtherLetters(base: bv8)
    requires KindByLetter(base).Some?
    ensures base != LETTER_MIRAGE && base != LETTER_OLD_LINK && base != LETTER_OLD_STAR && base != LETTER_EOD
              && base != LETTER_DETRUIT
  {
  }

  lemma EntryHolds(f: seq<Token>, p: nat, name: string, i: Inode)
    requires Writable(i) && Holds(f, p, InodeEntry(name, i))
    ensures p < |f| && f[p] == Byte(Signature(i)) && Holds(f, p + 1, InodeTokens(name, i))
    ensures |InodeEntry(name, i)| == 1 + |InodeTokens(name, i)|
  {
    HoldsSplit(f, p, [Byte(Signature(i))], InodeTokens(name, i));
    assert f[p + 0] == [Byte(Signature(i))][0];
  }

  lemma InodeEntryRead(f: seq<Token>, p: nat, name: string, i: Inode, corres: Corres, m: ReadMode)
    requires Writable(i) && !i.payload.Dir? && Holds(f, p, InodeEntry(name, i))
    ensures ParseEntry(f, p, corres, m) ==
              Got((AnEntry(NLeaf(Plain(name, Stored(i, m.algo)))), corres), p + |InodeEntry(name, i)|)
  {
    EntryHolds(f, p, name, i);
    KindCodec(i);
    InodeRead(f, p + 1, name, i, m.algo);
    PlainLetter(f, p, BaseSignature(i.payload), i.saved, corres, m);
  }

  lemma DirLetter(f: seq<Token>, p: nat, s: SavedStatus, corres: Corres, m: ReadMode)
    requires p < |f| && f[p].Byte? && ExtractBase(f[p].b) == Some((LETTER_DIR, s))
    ensures ParseEntry(f, p, corres, m) == ParseDirectory(f, p + 1, s, corres, m)
  {
  }

  lemma DirHeadRead(f: seq<Token>, p: nat, p1: nat, name: string, i: Inode, corres: Corres, m: ReadMode)
    requires Writable(i) && i.payload.Dir? && Holds(f, p, InodeEntry(name, i)) && p1 == p + |InodeEntry(name, i)|
    ensures var r := ParseKids(f, p1, corres, m);
            ParseEntry(f, p, corres, m) ==
            if r.Fail? then Fail(r.error)
              else Got((AnEntry(NDir(name, Stored(i, m.algo), r.value.0)), r.value.1), r.next)
  {
    EntryHolds(f, p, name, i);
    DirLetterRead(f, p, i, corres, m);
    DirInodeRead(f, p + 1, p1, name, i, m.algo);
    DirContents(f, p + 1, i.saved, Named(name, Stored(i, m.algo)), p1, corres, m);
  }

  lemma DirLetterRead(f: seq<Token>, p: nat, i: Inode, corres: Corres, m: ReadMode)
    requires i.payload.Dir? && p < |f| && f[p] == Byte(Signature(i))
    ensures ParseEntry(f, p, corres, m) == ParseDirectory(f, p + 1, i.saved, corres, m)
  {
    KindCodec(i);
    DirLetter(f, p, i.saved, corres, m);
  }

  lemma DirInodeRead(f: seq<Token>, p: nat, p1: nat, name: string, i: Inode, algo: Compression)
    requires Writable(i) && i.payload.Dir? && Holds(f, p, InodeTokens(name, i)) && p1 == p + |InodeTokens(name, i)|
    ensures TakeInode(f, p, KDir, i.saved, algo) == Got(Named(name, Stored(i, algo)), p1)
  {
    InodeRead(f, p, name, i, algo);
  }

  lemma DirContents(f: seq<Token>, p: nat, s: SavedStatus, h: Named, p1: nat, corres: Corres, m: ReadMode)
    requires TakeInode(f, p, KDir, s, m.algo) == Got(h, p1)
    ensures var r := ParseKids(f, p1, corres, m);
            ParseDirectory(f, p, s, corres, m) ==
            if r.Fail? then Fail(r.error) else Got((AnEntry(NDir(h.name, h.ino, r.value.0)), r.value.1), r.next)
  {
  }

  lemma EodRead(f: seq<Token>, p: nat, corres: Corres, m: ReadMode)
    requires Holds(f, p, [Byte(LETTER_EOD)])
    ensures ParseKids(f, p, corres, m) == Got(([], corres), p + 1)
  {
    assert f[p + 0] == [Byte(LETTER_EOD)][0];
    SignatureCodec(LETTER_EOD, LETTER_EOD, Saved);
    assert ParseEntry(f, p, corres, m) == ParseTyped(f, p + 1, LETTER_EOD, Saved, corres, m) ==
             Got((Fin, corres), p + 1);
  }

  lemma DetruitRead(f: seq<Token>, p: nat, name: string, signe: bv8, date: nat, corres: Corres, m: ReadMode)
    requires Holds(f, p, DetruitTokens(name, signe, date))
    ensures ParseEntry(f, p, corres, m) == Got((AnEntry(NLeaf(Detruit(name, signe, date))), corres), p + 4)
  {
    var t := DetruitTokens(name, signe, date);
    assert f[p + 0] == t[0] && f[p + 1] == t[1] && f[p + 2] == t[2] && f[p + 3] == t[3];
    SignatureCodec(LETTER_DETRUIT, LETTER_DETRUIT, Saved);
  }

  lemma LinkHeadRead(f: seq<Token>, p: nat, name: string, e: nat, flag: bv8, corres: Corres, m: ReadMode)
    requires Holds(f, p, LinkHead(name, e, flag))
    ensures ParseEntry(f, p, corres, m) == ParseLink(f, p + 1, corres, m)
    ensures TakeStr(f, p + 1) == Got(name, p + 2) && TakeNum(f, p + 2) == Got(e, p + 3)
              && TakeByte(f, p + 3) == Got(flag, p + 4)
  {
    var t := LinkHead(name, e, flag);
    assert f[p + 0] == t[0] && f[p + 1] == t[1] && f[p + 2] == t[2] && f[p + 3] == t[3];
    SignatureCodec(LETTER_MIRAGE, LETTER_MIRAGE, Saved);
  }

  /** Two readings put one after the other. */
  ghost function Then(k: seq<Node>, r: Parsed<(seq<Node>, Corres)>): Parsed<(seq<Node>, Corres)> {
    match r
    case Fail(_) => r
    case Got(v, next) => Got((k + v.0, v.1), next)
  }

  lemma ThenNothing(r: Parsed<(seq<Node>, Corres)>)
    ensures Then([], r) == r
  {
    if r.Got? {
      assert [] + r.value.0 == r.value.0;
    }
  }

  lemma ThenThen(a: seq<Node>, b: seq<Node>, r: Parsed<(seq<Node>, Corres)>)
    ensures Then(a, Then(b, r)) == Then(a + b, r)
  {
    if r.Got? {
      Assoc(a, b, r.value.0);
    }
  }

  ghost predicate Sound(hubs: Hubs, dumped: set<nat>, lost: set<nat>) {
    lost <= dumped && forall e :: e in dumped && e !in lost ==> e in hubs && hubs[e].Shared?
  }

  /** A node written from p to q, when `dumped` became `after`, is read as it should. */
  ghost predicate NodeIsRead(f: seq<Token>, p: nat, q: nat, n: Node, hubs: Hubs, dumped: set<nat>, after: set<nat>,
                             lost: set<nat>, m: ReadMode)
    requires Fit(n, hubs) && !(n.NLeaf? && n.leaf.Ignored?)
  {
    && DumpNode(n, hubs, dumped).1 == after && q == p + |DumpNode(n, hubs, dumped).0| && Sound(hubs, after, lost)
    && ParseEntry(f, p, CorresOf(hubs, dumped, lost, m.algo), m) ==
       if MeetsNode(n, hubs, lost) then Fail(StarNotFound)
       else Got((AnEntry(NormOne(n, hubs, m)), CorresOf(hubs, after, lost, m.algo)), q)
  }

  /** The same for a list of nodes, whatever follows. */
  ghost predicate ForestIsRead(f: seq<Token>, p: nat, q: nat, k: seq<Node>, hubs: Hubs, dumped: set<nat>,
                               after: set<nat>, lost: set<nat>, m: ReadMode)
    requires AllFit(k, hubs)
  {
    && DumpForest(k, hubs, dumped).1 == after && q == p + |DumpForest(k, hubs, dumped).0| && Sound(hubs, after, lost)
    && ParseKids(f, p, CorresOf(hubs, dumped, lost, m.algo), m) ==
       if Meets(k, hubs, lost) then Fail(StarNotFound)
       else Then(Norm(k, hubs, m), ParseKids(f, q, CorresOf(hubs, after, lost, m.algo), m))
  }

  lemma LinkRead(f: seq<Token>, p: nat, q: nat, n: Node, hubs: Hubs, dumped: set<nat>, lost: set<nat>, m: ReadMode)
    requires n.NLink? && Fit(n, hubs) && hubs[n.etiquette].Shared? && Sound(hubs, dumped, lost)
    requires Holds(f, p, DumpNode(n, hubs, dumped).0) && q == p + |DumpNode(n, hubs, dumped).0|
    ensures NodeIsRead(f, p, q, n, hubs, dumped, dumped + {n.etiquette}, lost, m)
  {
    var e, c, hosted := n.etiquette, CorresOf(hubs, dumped, lost, m.algo), hubs[n.etiquette].hosted;
    if e in dumped {
      assert dumped + {e} == dumped;
      LinkHeadRead(f, p, n.name, e, MIRAGE_ALONE, c, m);
    } else {
      HoldsSplit(f, p, LinkHead(n.name, e, MIRAGE_WITH_INODE), InodeEntry(hosted, n.ino));
      InodeEntryRead(f, p + 4, hosted, n.ino, c, m);
      LinkHeadRead(f, p, n.name, e, MIRAGE_WITH_INODE, c, m);
      assert CorresOf(hubs, dumped + {e}, lost, m.algo) == c[e := Hosted(hosted, Stored(n.ino, m.algo))];
    }
  }

  lemma DirRead(f: seq<Token>, p: nat, p1: nat, q: nat, n: Node, hubs: Hubs, dumped: set<nat>, after: set<nat>,
                lost: set<nat>, m: ReadMode)
    requires n.NDir? && Fit(n, hubs) && Holds(f, p, InodeEntry(n.name, n.ino)) && Holds(f, q, [Byte(LETTER_EOD)])
    requires p1 == p + |InodeEntry(n.name, n.ino)|
    requires ForestIsRead(f, p1, q, n.kids, hubs, dumped, after, lost, m)
    ensures NodeIsRead(f, p, q + 1, n, hubs, dumped, after, lost, m)
  {
    DirHeadRead(f, p, p1, n.name, n.ino, CorresOf(hubs, dumped, lost, m.algo), m);
    EodRead(f, q, CorresOf(hubs, after, lost, m.algo), m);
    assert Norm(n.kids, hubs, m) + [] == Norm(n.kids, hubs, m);
  }

  lemma LeafRead(f: seq<Token>, p: nat, q: nat, n: Node, hubs: Hubs, dumped: set<nat>, lost: set<nat>, m: ReadMode)
    requires !n.NDir? && Fit(n, hubs) && !(n.NLeaf? && n.leaf.Ignored?) && !(n.NLink? && hubs[n.etiquette].Shared?)
    requires Sound(hubs, dumped, lost) && Holds(f, p, DumpNode(n, hubs, dumped).0)
               && q == p + |DumpNode(n, hubs, dumped).0|
    ensures NodeIsRead(f, p, q, n, hubs, dumped, dumped, lost, m)
  {
    var c := CorresOf(hubs, dumped, lost, m.algo);
    match n
    case NLink(name, _, ino) =>
      InodeEntryRead(f, p, name, ino, c, m);
    case NLeaf(Plain(name, ino)) =>
      InodeEntryRead(f, p, name, ino, c, m);
    case NLeaf(Detruit(name, signe, date)) =>
      DetruitRead(f, p, name, signe, date, c, m);
    case NLeaf(IgnoredDir(name, ino)) =>
      BareRead(f, p, name, BareDirectory(ino), c, m);
  }

  lemma BareRead(f: seq<Token>, p: nat, name: string, i: Inode, c: Corres, m: ReadMode)
    requires Writable(i) && i.payload.Dir? && Holds(f, p, InodeEntry(name, i) + [Byte(LETTER_EOD)])
    ensures ParseEntry(f, p, c, m) ==
              Got((AnEntry(NDir(name, Stored(i, m.algo), [])), c), p + |InodeEntry(name, i)| + 1)
  {
    var h := InodeEntry(name, i);
    HoldsSplit(f, p, h, [Byte(LETTER_EOD)]);
    DirHeadRead(f, p, p + |h|, name, i, c, m);
    EodRead(f, p + |h|, c, m);
  }

  lemma DirHolds(f: seq<Token>, p: nat, n: Node, hubs: Hubs, dumped: set<nat>) returns (p1: nat)
    requires n.NDir? && Fit(n, hubs) && Holds(f, p, DumpNode(n, hubs, dumped).0)
    ensures p1 == p + |InodeEntry(n.name, n.ino)| && Holds(f, p, InodeEntry(n.name, n.ino))
    ensures Holds(f, p1, DumpForest(n.kids, hubs, dumped).0)
    ensures Holds(f, p1 + |DumpForest(n.kids, hubs, dumped).0|, [Byte(LETTER_EOD)])
  {
    var h, r := InodeEntry(n.name, n.ino), DumpForest(n.kids, hubs, dumped);
    p1 := p + |h|;
    HoldsSplit(f, p, h + r.0, [Byte(LETTER_EOD)]);
    HoldsSplit(f, p, h, r.0);
  }

  lemma ChildRead(f: seq<Token>, p: nat, n: Node, hubs: Hubs, dumped: set<nat>, lost: set<nat>, m: ReadMode)
    returns (q: nat, after: set<nat>)
    requires !n.NDir? && Fit(n, hubs) && !(n.NLeaf? && n.leaf.Ignored?) && Sound(hubs, dumped, lost)
    requires Holds(f, p, DumpNode(n, hubs, dumped).0)
    ensures NodeIsRead(f, p, q, n, hubs, dumped, after, lost, m)
  {
    q := p + |DumpNode(n, hubs, dumped).0|;
    if n.NLink? && hubs[n.etiquette].Shared? {
      after := dumped + {n.etiquette};
      LinkRead(f, p, q, n, hubs, dumped, lost, m);
    } else {
      after := dumped;
      LeafRead(f, p, q, n, hubs, dumped, lost, m);
    }
  }

  lemma {:induction false} NodeParsed(f: seq<Token>, p: nat, n: Node, hubs: Hubs, dumped: set<nat>, lost: set<nat>,
                                      m: ReadMode)
    returns (q: nat, after: set<nat>)
    requires Fit(n, hubs) && !(n.NLeaf? && n.leaf.Ignored?) && Sound(hubs, dumped, lost)
    requires Holds(f, p, DumpNode(n, hubs, dumped).0)
    ensures NodeIsRead(f, p, q, n, hubs, dumped, after, lost, m)
    decreases n, 0
  {
    if n.NDir? {
      var p1 := DirHolds(f, p, n, hubs, dumped);
      q, after := ForestParsed(f, p1, n.kids, hubs, dumped, lost, m);
      DirRead(f, p, p1, q, n, hubs, dumped, after, lost, m);
      q := q + 1;
    } else {
      q, after := ChildRead(f, p, n, hubs, dumped, lost, m);
    }
  }

  lemma KidsEntry(f: seq<Token>, p: nat, c: Corres, m: ReadMode, n: Node, c1: Corres, q: nat)
    requires ParseEntry(f, p, c, m) == Got((AnEntry(n), c1), q)
    ensures ParseKids(f, p, c, m) == Then(Kept(n, m), ParseKids(f, q, c1, m))
  {
  }

  lemma KidsFail(f: seq<Token>, p: nat, c: Corres, m: ReadMode, e: ReadError)
    requires ParseEntry(f, p, c, m) == Fail(e)
    ensures ParseKids(f, p, c, m) == Fail(e)
  {
  }

  /** A list is read as its first node, then the others. */
  lemma ForestStep(k: seq<Node>, hubs: Hubs, lost: set<nat>, m: ReadMode,
                   whole: Parsed<(seq<Node>, Corres)>, tail: Parsed<(seq<Node>, Corres)>,
                   after: Parsed<(seq<Node>, Corres)>)
    requires k != [] && AllFit(k, hubs) && !(k[0].NLeaf? && k[0].leaf.Ignored?)
    requires whole ==
             if MeetsNode(k[0], hubs, lost) then Fail(StarNotFound) else Then(Kept(NormOne(k[0], hubs, m), m), tail)
    requires !MeetsNode(k[0], hubs, lost) ==>
               tail == if Meets(k[1..], hubs, lost) then Fail(StarNotFound) else Then(Norm(k[1..], hubs, m), after)
    ensures whole == if Meets(k, hubs, lost) then Fail(StarNotFound) else Then(Norm(k, hubs, m), after)
  {
    ThenThen(Kept(NormOne(k[0], hubs, m), m), Norm(k[1..], hubs, m), after);
  }

  lemma ForestCons(f: seq<Token>, p: nat, p1: nat, q: nat, k: seq<Node>, hubs: Hubs, dumped: set<nat>, d1: set<nat>,
                   after: set<nat>, lost: set<nat>, m: ReadMode)
    requires k != [] && AllFit(k, hubs) && !(k[0].NLeaf? && k[0].leaf.Ignored?)
    requires NodeIsRead(f, p, p1, k[0], hubs, dumped, d1, lost, m)
    requires ForestIsRead(f, p1, q, k[1..], hubs, d1, after, lost, m)
    ensures ForestIsRead(f, p, q, k, hubs, dumped, after, lost, m)
  {
    var c, c1 := CorresOf(hubs, dumped, lost, m.algo), CorresOf(hubs, d1, lost, m.algo);
    if MeetsNode(k[0], hubs, lost) {
      KidsFail(f, p, c, m, StarNotFound);
    } else {
      KidsEntry(f, p, c, m, NormOne(k[0], hubs, m), c1, p1);
    }
    ForestStep(k, hubs, lost, m, ParseKids(f, p, c, m), ParseKids(f, p1, c1, m),
      ParseKids(f, q, CorresOf(hubs, after, lost, m.algo), m));
  }

  lemma ForestSkip(f: seq<Token>, p: nat, q: nat, k: seq<Node>, hubs: Hubs, dumped: set<nat>, after: set<nat>,
                   lost: set<nat>, m: ReadMode)
    requires k != [] && AllFit(k, hubs) && k[0].NLeaf? && k[0].leaf.Ignored?
    requires ForestIsRead(f, p, q, k[1..], hubs, dumped, after, lost, m)
    ensures ForestIsRead(f, p, q, k, hubs, dumped, after, lost, m)
  {
    assert [] + Norm(k[1..], hubs, m) == Norm(k[1..], hubs, m);
  }

  lemma NothingRead(f: seq<Token>, p: nat, hubs: Hubs, dumped: set<nat>, lost: set<nat>, m: ReadMode)
    requires Sound(hubs, dumped, lost)
    ensures ForestIsRead(f, p, p, [], hubs, dumped, dumped, lost, m)
  {
    ThenNothing(ParseKids(f, p, CorresOf(hubs, dumped, lost, m.algo), m));
  }

  lemma ForestTokens(k: seq<Node>, hubs: Hubs, dumped: set<nat>)
    requires k != [] && AllFit(k, hubs)
    ensures var a := DumpNode(k[0], hubs, dumped);
            DumpForest(k, hubs, dumped).0 == a.0 + DumpForest(k[1..], hubs, a.1).0
  {
  }

  lemma ForestHolds(f: seq<Token>, p: nat, k: seq<Node>, hubs: Hubs, dumped: set<nat>)
    requires k != [] && AllFit(k, hubs) && Holds(f, p, DumpForest(k, hubs, dumped).0)
    ensures var a := DumpNode(k[0], hubs, dumped);
            Holds(f, p, a.0) && Holds(f, p + |a.0|, DumpForest(k[1..], hubs, a.1).0)
  {
    ForestTokens(k, hubs, dumped);
    var a := DumpNode(k[0], hubs, dumped);
    var x, y := a.0, DumpForest(k[1..], hubs, a.1).0;
    HoldsSplit(f, p, x, y);
  }

  lemma {:induction false} ForestParsed(f: seq<Token>, p: nat, k: seq<Node>, hubs: Hubs, dumped: set<nat>,
                                        lost: set<nat>, m: ReadMode)
    returns (q: nat, after: set<nat>)
    requires AllFit(k, hubs) && Sound(hubs, dumped, lost)
    requires Holds(f, p, DumpForest(k, hubs, dumped).0)
    ensures ForestIsRead(f, p, q, k, hubs, dumped, after, lost, m)
    decreases k, 1
  {
    if k == [] {
      q, after := p, dumped;
      NothingRead(f, p, hubs, dumped, lost, m);
    } else {
      ForestHolds(f, p, k, hubs, dumped);
      if k[0].NLeaf? && k[0].leaf.Ignored? {
        q, after := ForestParsed(f, p, k[1..], hubs, dumped, lost, m);
        ForestSkip(f, p, q, k, hubs, dumped, after, lost, m);
      } else {
        var p1, d1 := NodeParsed(f, p, k[0], hubs, dumped, lost, m);
        q, after := ForestParsed(f, p1, k[1..], hubs, d1, lost, m);
        ForestCons(f, p, p1, q, k, hubs, dumped, d1, after, lost, m);
      }
    }
  }

  /** Reading meets each node that was written, as described field by field; it fails exactly
      on a shared link whose inode was written before the beginning of the section. */
  lemma NodeRead(f: seq<Token>, p: nat, n: Node, hubs: Hubs, dumped: set<nat>, lost: set<nat>, m: ReadMode)
    returns (q: nat, after: set<nat>)
    requires Fit(n, hubs) && !(n.NLeaf? && n.leaf.Ignored?) && Sound(hubs, dumped, lost)
    requires Holds(f, p, DumpNode(n, hubs, dumped).0)
    ensures NodeIsRead(f, p, q, n, hubs, dumped, after, lost, m)
    ensures NodeBack(n, NormOne(n, hubs, m), hubs, m)
  {
    q, after := NodeParsed(f, p, n, hubs, dumped, lost, m);
    NormOneIsBack(n, hubs, m);
  }

  lemma ForestRead(f: seq<Token>, p: nat, k: seq<Node>, hubs: Hubs, dumped: set<nat>, lost: set<nat>, m: ReadMode)
    returns (q: nat, after: set<nat>)
    requires AllFit(k, hubs) && Sound(hubs, dumped, lost)
    requires Holds(f, p, DumpForest(k, hubs, dumped).0)
    ensures ForestIsRead(f, p, q, k, hubs, dumped, after, lost, m)
    ensures ForestBack(k, Norm(k, hubs, m), hubs, m)
  {
    q, after := ForestParsed(f, p, k, hubs, dumped, lost, m);
    NormIsBack(k, hubs, m);
  }
}
