/** Reading a catalogue section: the recursive descent that creates the etoiles reads what
    the section stands for, and counts the links of each etoile. */
module CatalogueRead {
  import opened Entries
  import opened ValueTrees
  import opened Tokens
  import opened InodeCodec
  import opened Archives
  import opened Sections
  import opened LinkCounts
  import opened TokenFiles
  import opened Pruning

  type Stars = map<nat, Etoile>

  /** What the map of etoiles means. */
  ghost function CorresMap(stars: Stars): Corres
    reads stars.Values
  {
    map e | e in stars :: Hosted(stars[e].hostedName, stars[e].ino)
  }

  ghost function RefsOf(stars: Stars): map<nat, nat>
    reads stars.Values
  {
    map e | e in stars :: stars[e].refs
  }

  /** The counts of links once the nodes k have been read. */
  function Plus(refs: map<nat, nat>, keys: set<nat>, k: seq<Node>): map<nat, nat> {
    map e | e in keys :: (if e in refs then refs[e] else 0) + Count(k, e)
  }

  function NodesOf(item: Item): seq<Node> {
    match item
    case AnEntry(n) => [n]
    case _ => []
  }

  /** Leaving a node out does not change the counts: links are always kept. */
  lemma PlusStep(refs: map<nat, nat>, k1: set<nat>, k2: set<nat>, kids: seq<Node>, n: Node, m: ReadMode)
    requires k1 <= k2 && forall e :: e in refs ==> e in k1
    requires forall e :: e in k2 && e !in k1 ==> Count(kids, e) == 0
    ensures Plus(Plus(refs, k1, kids), k2, [n]) == Plus(refs, k2, kids + Kept(n, m))
  {
    forall e | e in k2 ensures Count(kids + Kept(n, m), e) == Count(kids, e) + Count([n], e) {
      CountOne(n, e);
      CountAppend(kids, Kept(n, m), e);
      assert Kept(n, m) == [] ==> CountNode(n, e) == 0;
    }
  }

  /** Links of unknown etiquettes are never read. */
  ghost predicate NoOther(k: seq<Node>, keys: set<nat>) {
    forall e :: e !in keys ==> Count(k, e) == 0
  }

  ghost predicate Etiquetted(stars: Stars) {
    forall e {:trigger stars[e]} :: e in stars ==> stars[e].etiquette == e
  }

  /** later has the etoiles of stars, and new ones. */
  twostate predicate Grown(stars: Stars, new later: Stars) {
    && Etiquetted(later)
    && (forall e {:trigger later[e]} :: e in later ==> if e in stars then later[e] == stars[e] else fresh(later[e]))
    && stars.Keys <= later.Keys
  }

  /** r and the etoiles are what p says, and the counts of links have followed. */
  twostate predicate ReadsItem(f: TokenFile, new p: Parsed<(Item, Corres)>, new r: Parsed<Item>, stars: Stars,
                               new later: Stars)
    reads f, stars.Values, later.Values
  {
    if r.Fail? then p == Fail(r.error)
    else
      && p == Got((r.value, CorresMap(later)), f.pos) && r.next == f.pos && Grown(stars, later)
      && RefsOf(later) == Plus(old(RefsOf(stars)), later.Keys, NodesOf(r.value))
           && NoOther(NodesOf(r.value), later.Keys)
  }

  twostate predicate ReadsKids(f: TokenFile, new p: Parsed<(seq<Node>, Corres)>, new r: Parsed<seq<Node>>, stars: Stars,
                               new later: Stars)
    reads f, stars.Values, later.Values
  {
    if r.Fail? then p == Fail(r.error)
    else
      && p == Got((r.value, CorresMap(later)), f.pos) && r.next == f.pos && Grown(stars, later)
      && RefsOf(later) == Plus(old(RefsOf(stars)), later.Keys, r.value) && NoOther(r.value, later.Keys)
  }

  /** A link to an etoile already there: one more reference. */
  method ReadBareLink(f: TokenFile, name: string, e: nat, stars: Stars) returns (r: Parsed<Item>)
    requires Etiquetted(stars)
    modifies stars.Values
    ensures ReadsItem(f, old(ParseBareLink(f.pos, name, e, CorresMap(stars))), r, stars, stars)
  {
    if e !in stars {
      return Fail(StarNotFound);
    }
    var star := stars[e];
    star.refs := star.refs + 1;
    assert CorresMap(stars) == old(CorresMap(stars));
    var n := NLink(name, e, star.ino);
    CountLink(n);
    r := Got(AnEntry(n), f.pos);
  }

  lemma CountLink(n: Node)
    requires n.NLink?
    ensures forall k {:trigger Count([n], k)} :: Count([n], k) == if k == n.etiquette then 1 else 0
  {
    forall k {:trigger Count([n], k)} ensures Count([n], k) == if k == n.etiquette then 1 else 0 {
      CountOne(n, k);
    }
  }

  /** A new etoile, with one reference. */
  method AddStar(e: nat, hosted: string, ino: Inode, stars: Stars) returns (later: Stars)
    requires Etiquetted(stars) && e !in stars
    ensures Grown(stars, later) && later.Keys == stars.Keys + {e}
    ensures CorresMap(later) == CorresMap(stars)[e := Hosted(hosted, ino)] && RefsOf(later) == RefsOf(stars)[e := 1]
  {
    ghost var c, refs := CorresMap(stars), RefsOf(stars);
    var star := new Etoile(hosted, ino, e);
    star.refs := star.refs + 1;
    later := stars[e := star];
    assert CorresMap(later) == c[e := Hosted(hosted, ino)] && RefsOf(later) == refs[e := 1];
  }

  /** A link with its inode. */
  method ReadNewStar(f: TokenFile, name: string, e: nat, hosted: string, ino: Inode, stars: Stars)
    returns (r: Parsed<Item>, later: Stars)
    requires Etiquetted(stars)
    ensures ReadsItem(f, NewStar(f.pos, name, e, Hosted(hosted, ino), CorresMap(stars)), r, stars, later)
  {
    if e in stars {
      r, later := Fail(DuplicatedStar), stars;
      return;
    }
    later := AddStar(e, hosted, ino, stars);
    NewLinkCounts(RefsOf(stars), NLink(name, e, ino));
    r := Got(AnEntry(NLink(name, e, ino)), f.pos);
  }

  /** The first link of an etiquette. */
  lemma NewLinkCounts(refs: map<nat, nat>, n: Node)
    requires n.NLink? && n.etiquette !in refs
    ensures var keys := refs.Keys + {n.etiquette};
            Plus(refs, keys, [n]) == refs[n.etiquette := 1] && NoOther([n], keys)
  {
    CountLink(n);
  }

  /** An entry without links below it leaves the counts as they are. */
  lemma NothingCounted(refs: map<nat, nat>, k: seq<Node>)
    requires forall e :: Count(k, e) == 0
    ensures Plus(refs, refs.Keys, k) == refs
  {
  }

  lemma LeafCounts(l: Leaf)
    ensures forall e {:trigger Count([NLeaf(l)], e)} :: Count([NLeaf(l)], e) == 0
  {
    forall e {:trigger Count([NLeaf(l)], e)} ensures Count([NLeaf(l)], e) == 0 {
      CountOne(NLeaf(l), e);
    }
  }

  method ReadDetruit(f: TokenFile, s: SavedStatus, stars: Stars) returns (r: Parsed<Item>)
    requires Etiquetted(stars)
    modifies f`pos
    ensures ReadsItem(f, old(ParseDetruit(f.data, f.pos, s, CorresMap(stars))), r, stars, stars)
  {
    if s != Saved {
      return Fail(CorruptedFile);
    }
    var name :- f.ReadStr();
    var signe :- f.ReadByte();
    var date :- f.ReadNum();
    var l := Detruit(name.0, signe.0, date.0);
    LeafCounts(l);
    NothingCounted(RefsOf(stars), [NLeaf(l)]);
    r := Got(AnEntry(NLeaf(l)), f.pos);
  }

  method ReadPlain(f: TokenFile, base: bv8, s: SavedStatus, stars: Stars, m: ReadMode) returns (r: Parsed<Item>)
    requires Etiquetted(stars)
    modifies f`pos
    ensures ReadsItem(f, old(ParseInode(f.data, f.pos, base, s, CorresMap(stars), m)), r, stars, stars)
  {
    var k := KindByLetter(base);
    if k.None? {
      return Fail(UnknownType);
    }
    var h :- ReadInode(f, k.value, s, m.algo);
    var l := Plain(h.0.name, h.0.ino);
    LeafCounts(l);
    NothingCounted(RefsOf(stars), [NLeaf(l)]);
    r := Got(AnEntry(NLeaf(l)), f.pos);
  }

  method ReadOldLink(f: TokenFile, stars: Stars) returns (r: Parsed<Item>)
    requires Etiquetted(stars)
    modifies f`pos, stars.Values
    ensures ReadsItem(f, old(ParseOldLink(f.data, f.pos, CorresMap(stars))), r, stars, stars)
  {
    var name :- f.ReadStr();
    var e :- f.ReadNum();
    r := ReadBareLink(f, name.0, e.0, stars);
  }

  method ReadOldStar(f: TokenFile, s: SavedStatus, stars: Stars, m: ReadMode) returns (r: Parsed<Item>, later: Stars)
    requires Etiquetted(stars)
    modifies f`pos
    ensures ReadsItem(f, old(ParseOldStar(f.data, f.pos, s, CorresMap(stars), m)), r, stars, later)
  {
    later := stars;
    ghost var c, refs, p := CorresMap(stars), RefsOf(stars), ParseOldStar(f.data, f.pos, s, CorresMap(stars), m);
    var h :- ReadInode(f, KFile, s, m.algo);
    var e :- f.ReadNum();
    assert CorresMap(stars) == c && RefsOf(stars) == refs;
    assert p == NewStar(f.pos, h.0.name, e.0, Hosted("", h.0.ino), c);
    r, later := ReadNewStar(f, h.0.name, e.0, "", h.0.ino, stars);
  }

  lemma PlusPlain(refs: map<nat, nat>, k1: set<nat>, k2: set<nat>, l: Leaf, n: Node)
    requires refs.Keys <= k1 <= k2
    ensures Plus(Plus(refs, k1, [NLeaf(l)]), k2, [n]) == Plus(refs, k2, [n])
  {
    LeafCounts(l);
  }

  /** The second of two readings, the first one being that of a plain inode. */
  method ReadHosted(f: TokenFile, name: string, e: nat, stars: Stars, m: ReadMode)
    returns (r: Parsed<Item>, later: Stars)
    requires Etiquetted(stars) && f.pos <= |f.data|
    modifies f`pos, stars.Values
    ensures ReadsItem(f, old(ParseHosted(f.data, f.pos, name, e, CorresMap(stars), m)), r, stars, later)
    decreases |f.data| - f.pos, 3
  {
    ghost var refs := RefsOf(stars);
    r, later := ReadEntry(f, stars, m);
    if r.Fail? {
      return;
    }
    match r.value
    case AnEntry(NLeaf(Plain(hosted, ino))) =>
      ghost var keys := later.Keys;
      r, later := ReadNewStar(f, name, e, hosted, ino, later);
      if r.Got? {
        PlusPlain(refs, keys, later.Keys, Plain(hosted, ino), r.value.node);
      }
    case _ =>
      r := Fail(NotAnInode);
  }

  method ReadLink(f: TokenFile, stars: Stars, m: ReadMode) returns (r: Parsed<Item>, later: Stars)
    requires Etiquetted(stars) && f.pos <= |f.data|
    modifies f`pos, stars.Values
    ensures ReadsItem(f, old(ParseLink(f.data, f.pos, CorresMap(stars), m)), r, stars, later)
    decreases |f.data| - f.pos, 1
  {
    later := stars;
    ghost var c, refs, p := CorresMap(stars), RefsOf(stars), ParseLink(f.data, f.pos, CorresMap(stars), m);
    var name :- f.ReadStr();
    var e :- f.ReadNum();
    var flag :- f.ReadByte();
    assert CorresMap(stars) == c && RefsOf(stars) == refs;
    if flag.0 == MIRAGE_ALONE {
      assert p == ParseBareLink(f.pos, name.0, e.0, c);
      r := ReadBareLink(f, name.0, e.0, stars);
    } else if flag.0 == MIRAGE_WITH_INODE {
      assert p == ParseHosted(f.data, f.pos, name.0, e.0, c, m);
      r, later := ReadHosted(f, name.0, e.0, stars, m);
    } else {
      r := Fail(UnknownLinkFlag);
    }
  }

  method ReadEntry(f: TokenFile, stars: Stars, m: ReadMode) returns (r: Parsed<Item>, later: Stars)
    requires Etiquetted(stars) && f.pos <= |f.data|
    modifies f`pos, stars.Values
    ensures ReadsItem(f, old(ParseEntry(f.data, f.pos, CorresMap(stars), m)), r, stars, later)
    decreases |f.data| - f.pos, 2
  {
    later := stars;
    if f.pos >= |f.data| {
      NothingCounted(RefsOf(stars), []);
      r := Got(Eof, f.pos);
      return;
    }
    if !f.data[f.pos].Byte? || ExtractBase(f.data[f.pos].b).None? {
      r := Fail(CorruptedFile);
      return;
    }
    var (base, s) := ExtractBase(f.data[f.pos].b).value;
    ghost var c, refs, p := CorresMap(stars), RefsOf(stars), ParseEntry(f.data, f.pos, CorresMap(stars), m);
    f.pos := f.pos + 1;
    assert CorresMap(stars) == c && RefsOf(stars) == refs && p == ParseTyped(f.data, f.pos, base, s, c, m);
    r, later := ReadTyped(f, base, s, stars, m);
  }

  method ReadTyped(f: TokenFile, base: bv8, s: SavedStatus, stars: Stars, m: ReadMode)
    returns (r: Parsed<Item>, later: Stars)
    requires Etiquetted(stars) && f.pos <= |f.data|
    modifies f`pos, stars.Values
    ensures ReadsItem(f, old(ParseTyped(f.data, f.pos, base, s, CorresMap(stars), m)), r, stars, later)
    decreases |f.data| - f.pos, 5
  {
    if base == LETTER_DIR {
      r, later := ReadDirectory(f, s, stars, m);
    } else if base == LETTER_MIRAGE {
      r, later := ReadLink(f, stars, m);
    } else {
      r, later := ReadSimple(f, base, s, stars, m);
    }
  }

  /** The entries that hold no other. */
  method ReadSimple(f: TokenFile, base: bv8, s: SavedStatus, stars: Stars, m: ReadMode)
    returns (r: Parsed<Item>, later: Stars)
    requires Etiquetted(stars)
    modifies f`pos, stars.Values
    ensures ReadsItem(f, old(ParseSimple(f.data, f.pos, base, s, CorresMap(stars), m)), r, stars, later)
  {
    later := stars;
    if base == LETTER_OLD_LINK {
      r := ReadOldLink(f, stars);
    } else if base == LETTER_OLD_STAR {
      r, later := ReadOldStar(f, s, stars, m);
    } else if base == LETTER_EOD {
      NothingCounted(RefsOf(stars), []);
      r := if s == Saved then Got(Fin, f.pos) else Fail(CorruptedFile);
    } else if base == LETTER_DETRUIT {
      r := ReadDetruit(f, s, stars);
    } else {
      r := ReadPlain(f, base, s, stars, m);
    }
  }

  lemma DirCounts(name: string, ino: Inode, kids: seq<Node>)
    ensures forall e {:trigger Count([NDir(name, ino, kids)], e)} :: Count([NDir(name, ino, kids)], e) == Count(kids, e)
  {
    forall e {:trigger Count([NDir(name, ino, kids)], e)} ensures Count([NDir(name, ino, kids)], e) == Count(kids, e) {
      CountOne(NDir(name, ino, kids), e);
    }
  }

  method ReadDirectory(f: TokenFile, s: SavedStatus, stars: Stars, m: ReadMode) returns (r: Parsed<Item>, later: Stars)
    requires Etiquetted(stars) && f.pos <= |f.data|
    modifies f`pos, stars.Values
    ensures ReadsItem(f, old(ParseDirectory(f.data, f.pos, s, CorresMap(stars), m)), r, stars, later)
    decreases |f.data| - f.pos, 1
  {
    later := stars;
    var h :- ReadInode(f, KDir, s, m.algo);
    r, later := ReadContents(f, h.0, stars, m);
  }

  method ReadContents(f: TokenFile, h: Named, stars: Stars, m: ReadMode) returns (r: Parsed<Item>, later: Stars)
    requires Etiquetted(stars) && f.pos <= |f.data|
    modifies f`pos, stars.Values
    ensures ReadsItem(f, old(ParseContents(f.data, f.pos, h, CorresMap(stars), m)), r, stars, later)
    decreases |f.data| - f.pos, 5
  {
    var kids;
    kids, later := ReadKids(f, stars, m);
    if kids.Fail? {
      r := Fail(kids.error);
    } else {
      DirCounts(h.name, h.ino, kids.value);
      r := Got(AnEntry(NDir(h.name, h.ino, kids.value)), f.pos);
    }
  }

  /** What has been read of the entries of a directory, and what remains. */
  ghost predicate KidsSoFar(f: TokenFile, p: Parsed<(seq<Node>, Corres)>, refs: map<nat, nat>, kids: seq<Node>,
                            stars: Stars, m: ReadMode)
    reads f, stars.Values
  {
    && p == Then(kids, ParseKids(f.data, f.pos, CorresMap(stars), m)) && f.pos <= |f.data|
    && CountsSoFar(refs, kids, stars)
  }

  ghost predicate CountsSoFar(refs: map<nat, nat>, kids: seq<Node>, stars: Stars)
    reads stars.Values
  {
    refs.Keys <= stars.Keys && RefsOf(stars) == Plus(refs, stars.Keys, kids) && NoOther(kids, stars.Keys)
  }

  /** One more entry, or the end of the directory. */
  method ReadNext(f: TokenFile, kids: seq<Node>, stars: Stars, m: ReadMode, ghost p: Parsed<(seq<Node>, Corres)>,
                  ghost refs: map<nat, nat>)
    returns (r: Parsed<seq<Node>>, done: bool, later: Stars)
    requires Etiquetted(stars) && KidsSoFar(f, p, refs, kids, stars, m)
    modifies f`pos, stars.Values
    ensures r.Fail? ==> p == Fail(r.error)
    ensures r.Got? ==> Grown(stars, later) && CountsSoFar(refs, r.value, later)
    ensures r.Got? && done ==> p == Got((r.value, CorresMap(later)), f.pos) && r.next == f.pos
    ensures r.Got? && !done ==> KidsSoFar(f, p, refs, r.value, later, m) && f.pos > old(f.pos)
    decreases |f.data| - f.pos, 3
  {
    ghost var pos, c, keys := f.pos, CorresMap(stars), stars.Keys;
    done := true;
    var item;
    item, later := ReadEntry(f, stars, m);
    if item.Fail? {
      KidsFail(f.data, pos, c, m, item.error);
      r := Fail(item.error);
      return;
    }
    match item.value
    case Eof =>
      r := Fail(MissingData);
    case Fin =>
      KidsEnd(f.data, pos, c, m, CorresMap(later), f.pos, kids);
      NothingMore(refs, keys, later.Keys, kids);
      r := Got(kids, f.pos);
    case AnEntry(n) =>
      KidsAdvance(f.data, pos, c, m, n, CorresMap(later), f.pos, kids, p);
      PlusStep(refs, keys, later.Keys, kids, n, m);
      NoOtherStep(kids, keys, later.Keys, n, m);
      r, done := Got(kids + Kept(n, m), f.pos), false;
  }

  lemma NothingMore(refs: map<nat, nat>, k1: set<nat>, k2: set<nat>, kids: seq<Node>)
    requires refs.Keys <= k1 <= k2 && NoOther(kids, k1)
    ensures Plus(Plus(refs, k1, kids), k2, []) == Plus(refs, k2, kids) && NoOther(kids, k2)
  {
  }

  method ReadKids(f: TokenFile, stars: Stars, m: ReadMode) returns (r: Parsed<seq<Node>>, later: Stars)
    requires Etiquetted(stars) && f.pos <= |f.data|
    modifies f`pos, stars.Values
    ensures ReadsKids(f, old(ParseKids(f.data, f.pos, CorresMap(stars), m)), r, stars, later)
    decreases |f.data| - f.pos, 4
  {
    ghost var p, refs := ParseKids(f.data, f.pos, CorresMap(stars), m), RefsOf(stars);
    later := stars;
    ThenNothing(p);
    NothingCounted(refs, []);
    r := Got([], f.pos);
    var done := false;
    while !done
      invariant Grown(stars, later) && old(f.pos) <= f.pos
      invariant if r.Fail? then done && p == Fail(r.error) else CountsSoFar(refs, r.value, later)
      invariant r.Got? && done ==> p == Got((r.value, CorresMap(later)), f.pos) && r.next == f.pos
      invariant !done ==> KidsSoFar(f, p, refs, r.value, later, m)
      decreases !done, |f.data| - f.pos
    {
      var next, grown;
      next, done, grown := ReadNext(f, r.value, later, m, p, refs);
      r := next;
      if next.Fail? {
        return;
      }
      later := grown;
    }
  }

  lemma KidsEnd(f: seq<Token>, p: nat, c: Corres, m: ReadMode, c2: Corres, q: nat, kids: seq<Node>)
    requires ParseEntry(f, p, c, m) == Got((Fin, c2), q)
    ensures Then(kids, ParseKids(f, p, c, m)) == Got((kids, c2), q)
  {
    assert kids + [] == kids;
  }

  lemma KidsAdvance(f: seq<Token>, p: nat, c: Corres, m: ReadMode, n: Node, c2: Corres, q: nat, kids: seq<Node>,
                    whole: Parsed<(seq<Node>, Corres)>)
    requires ParseEntry(f, p, c, m) == Got((AnEntry(n), c2), q)
    requires whole == Then(kids, ParseKids(f, p, c, m))
    ensures whole == Then(kids + Kept(n, m), ParseKids(f, q, c2, m))
  {
    KidsEntry(f, p, c, m, n, c2, q);
    ThenThen(kids, Kept(n, m), ParseKids(f, q, c2, m));
  }

  lemma NoOtherStep(kids: seq<Node>, k1: set<nat>, k2: set<nat>, n: Node, m: ReadMode)
    requires NoOther(kids, k1) && k1 <= k2 && NoOther([n], k2)
    ensures NoOther(kids + Kept(n, m), k2)
  {
    forall e | e !in k2 ensures Count(kids + Kept(n, m), e) == 0 {
      CountAppend(kids, Kept(n, m), e);
      assert Count([n], e) == 0;
    }
  }

  method ReadRoot(f: TokenFile) returns (r: Parsed<SavedStatus>)
    modifies f`pos
    ensures r == TakeRoot(f.data, old(f.pos)) && (r.Got? ==> f.pos == r.next)
  {
    var b :- f.ReadByte();
    r := match ExtractBase(b.0)
      case Some((base, s)) => if base == LETTER_DIR then Got(s, f.pos) else Fail(IncoherentCatalogue)
      case None => Fail(IncoherentCatalogue);
  }

  /** Every link, at all levels, has an etoile, which hosts its inode. */
  ghost predicate AllOnStars(k: seq<Node>, stars: Stars)
    decreases k, 1
  {
    forall i {:trigger k[i]} :: 0 <= i < |k| ==> OnStar(k[i], stars)
  }

  ghost predicate OnStar(n: Node, stars: Stars)
    decreases n, 0
  {
    match n
    case NDir(_, _, kids) => AllOnStars(kids, stars)
    case NLink(_, e, ino) => e in stars && stars[e].ino == ino
    case NLeaf(_) => true
  }

  /** Every etoile has links, and knows how many. */
  ghost predicate AllCounted(k: seq<Node>, stars: Stars)
    reads stars.Values
  {
    forall e {:trigger stars[e]} :: e in stars ==> stars[e].refs == Count(k, e) > 0
  }

  lemma {:induction false} LinkedOnStars(k: seq<Node>, stars: Stars)
    requires Linked(k, CorresMap(stars))
    ensures AllOnStars(k, stars)
    decreases k, 1
  {
    forall i {:trigger k[i]} | 0 <= i < |k| ensures OnStar(k[i], stars) {
      LinkedOnStar(k[i], stars);
    }
  }

  lemma {:induction false} LinkedOnStar(n: Node, stars: Stars)
    requires LinkedNode(n, CorresMap(stars))
    ensures OnStar(n, stars)
    decreases n, 0
  {
    if n.NDir? {
      LinkedOnStars(n.kids, stars);
    }
  }

  /** What has been read of the root is on the etoiles read. */
  lemma StarsLinked(f: seq<Token>, p: nat, kids: seq<Node>, stars: Stars, m: ReadMode)
    requires var r := ParseKids(f, p, map[], m); r.Got? && r.value == (kids, CorresMap(stars))
    ensures AllOnStars(kids, stars) && forall e {:trigger stars[e]} :: e in stars ==> Count(kids, e) > 0
  {
    KidsLinks(f, p, map[], m);
    LinkedOnStars(kids, stars);
    assert forall e {:trigger stars[e]} :: e in stars ==> e in CorresMap(stars);
  }

  /** The entries of the root, and the checksum of all that precedes it. */
  method ReadBody(f: TokenFile, dataName: seq<bv8>, root: Named, m: ReadMode, sum: seq<Token> -> seq<bv8>)
    returns (r: Parsed<Section>, stars: Stars)
    requires f.pos <= |f.data|
    modifies f`pos
    ensures r == ParseBody(f.data, old(f.pos), dataName, root, m, sum)
    ensures r.Got? && !m.onlyDetruit ==> AllOnStars(r.value.kids, stars) && AllCounted(r.value.kids, stars)
    ensures Etiquetted(stars) && forall e :: e in stars ==> fresh(stars[e])
  {
    stars := map[];
    assert CorresMap(stars) == map[];
    var kids, later := ReadKids(f, stars, m);
    if kids.Fail? {
      r := Fail(kids.error);
      return;
    }
    stars := later;
    StarsLinked(f.data, old(f.pos), kids.value, stars, m);
    assert forall e {:trigger stars[e]} :: e in stars ==> RefsOf(stars)[e] == Count(kids.value, e);
    var q := f.pos;
    var crc :- f.ReadSum();
    if crc.0 != sum(f.data[..q]) {
      r := Fail(WrongChecksum);
      return;
    }
    r := Got(Section(dataName, root, if m.onlyDetruit then Prune(kids.value) else kids.value), f.pos);
  }

  /** The catalogue built from a section: every etoile is new and knows how many links it
      has. */
  method ReadCatalogue(f: TokenFile, m: ReadMode, sum: seq<Token> -> seq<bv8>)
    returns (r: Parsed<Section>, stars: Stars)
    requires f.pos == 0
    modifies f`pos
    ensures r == ParseSection(f.data, m, sum) && FindsSection(f.data, m, sum, r)
    ensures r.Got? && !m.onlyDetruit ==> AllOnStars(r.value.kids, stars) && AllCounted(r.value.kids, stars)
    ensures Etiquetted(stars) && forall e :: e in stars ==> fresh(stars[e])
  {
    SectionFound(f.data, m, sum);
    stars := map[];
    var dataName := TakeLabel(f.data, f.pos);
    if dataName.Fail? {
      r := Fail(dataName.error);
      return;
    }
    f.pos := dataName.next;
    var s :- ReadRoot(f);
    var root :- ReadInode(f, KDir, s.0, m.algo);
    r, stars := ReadBody(f, dataName.value, root.0, m, sum);
  }
}
