/** The links of what is read: how many there are of each etiquette, and the etoile of each. */
module LinkCounts {
  import opened Entries
  import opened ValueTrees
  import opened Tokens
  import opened InodeCodec
  import opened Archives

  /** How many links of that etiquette a list of nodes has, at all levels. */
  function Count(f: seq<Node>, e: nat): nat {
    if f == [] then 0 else CountNode(f[0], e) + Count(f[1..], e)
  }

  function CountNode(n: Node, e: nat): nat {
    match n
    case NDir(_, _, kids) => Count(kids, e)
    case NLink(_, etiquette, _) => if etiquette == e then 1 else 0
    case NLeaf(_) => 0
  }

  lemma {:induction false} CountAppend(a: seq<Node>, b: seq<Node>, e: nat)
    ensures Count(a + b, e) == Count(a, e) + Count(b, e)
  {
    if a == [] {
      assert a + b == b;
    } else {
      assert (a + b)[0] == a[0] && (a + b)[1..] == a[1..] + b;
      CountAppend(a[1..], b, e);
    }
  }

  lemma CountOne(n: Node, e: nat)
    ensures Count([n], e) == CountNode(n, e)
  {
    assert [n][1..] == [];
  }

  /** Every link, at all levels, has the inode of its etiquette. */
  ghost predicate Linked(k: seq<Node>, c: Corres)
    decreases k, 1
  {
    forall i {:trigger k[i]} :: 0 <= i < |k| ==> LinkedNode(k[i], c)
  }

  ghost predicate LinkedNode(n: Node, c: Corres)
    decreases n, 0
  {
    match n
    case NDir(_, _, kids) => Linked(kids, c)
    case NLink(_, e, ino) => e in c && c[e].ino == ino
    case NLeaf(_) => true
  }

  ghost predicate Grew(a: Corres, b: Corres) {
    forall e {:trigger e in b} {:trigger b[e]} :: e in a ==> e in b && b[e] == a[e]
  }

  lemma {:induction false} LinkedMore(k: seq<Node>, a: Corres, b: Corres)
    requires Linked(k, a) && Grew(a, b)
    ensures Linked(k, b)
    decreases k, 1
  {
    forall i {:trigger k[i]} | 0 <= i < |k| ensures LinkedNode(k[i], b) {
      LinkedNodeMore(k[i], a, b);
    }
  }

  lemma {:induction false} LinkedNodeMore(n: Node, a: Corres, b: Corres)
    requires LinkedNode(n, a) && Grew(a, b)
    ensures LinkedNode(n, b)
    decreases n, 0
  {
    if n.NDir? {
      LinkedMore(n.kids, a, b);
    }
  }

  /** From a to b the etoiles have grown; the links of what was read are on those of b, and
      each new one has such a link. */
  ghost predicate LinksItem(item: Item, a: Corres, b: Corres) {
    && Grew(a, b)
    && (item.AnEntry? ==> LinkedNode(item.node, b))
    && forall e {:trigger e in b} :: e in b && e !in a ==> item.AnEntry? && CountNode(item.node, e) > 0
  }

  ghost predicate LinksKids(k: seq<Node>, a: Corres, b: Corres) {
    && Grew(a, b) && Linked(k, b)
    && forall e {:trigger e in b} :: e in b && e !in a ==> Count(k, e) > 0
  }

  ghost predicate LinksParsed(r: Parsed<(Item, Corres)>, a: Corres) {
    r.Got? ==> LinksItem(r.value.0, a, r.value.1)
  }

  lemma SimpleLinks(f: seq<Token>, p: nat, base: bv8, s: SavedStatus, corres: Corres, m: ReadMode)
    ensures LinksParsed(ParseSimple(f, p, base, s, corres, m), corres)
  {
  }

  lemma {:induction false} EntryLinks(f: seq<Token>, p: nat, corres: Corres, m: ReadMode)
    ensures LinksParsed(ParseEntry(f, p, corres, m), corres)
    decreases |f| - p, 2
  {
    if p < |f| && f[p].Byte? && ExtractBase(f[p].b).Some? {
      var (base, s) := ExtractBase(f[p].b).value;
      TypedLinks(f, p + 1, base, s, corres, m);
    }
  }

  lemma {:induction false} TypedLinks(f: seq<Token>, p: nat, base: bv8, s: SavedStatus, corres: Corres, m: ReadMode)
    ensures LinksParsed(ParseTyped(f, p, base, s, corres, m), corres)
    decreases |f| - p, 5
  {
    if base == LETTER_DIR {
      DirectoryLinks(f, p, s, corres, m);
    } else if base == LETTER_MIRAGE {
      LinkLinks(f, p, corres, m);
    } else {
      SimpleLinks(f, p, base, s, corres, m);
    }
  }

  lemma {:induction false} LinkLinks(f: seq<Token>, p: nat, corres: Corres, m: ReadMode)
    ensures LinksParsed(ParseLink(f, p, corres, m), corres)
    decreases |f| - p, 1
  {
    var name := TakeStr(f, p);
    if name.Got? {
      var e := TakeNum(f, name.next);
      if e.Got? {
        var flag := TakeByte(f, e.next);
        if flag.Got? && flag.value == MIRAGE_WITH_INODE {
          HostedLinks(f, flag.next, name.value, e.value, corres, m);
        }
      }
    }
  }

  lemma {:induction false} HostedLinks(f: seq<Token>, p: nat, name: string, e: nat, corres: Corres, m: ReadMode)
    ensures LinksParsed(ParseHosted(f, p, name, e, corres, m), corres)
    decreases |f| - p, 3
  {
    EntryLinks(f, p, corres, m);
  }

  lemma {:induction false} DirectoryLinks(f: seq<Token>, p: nat, s: SavedStatus, corres: Corres, m: ReadMode)
    ensures LinksParsed(ParseDirectory(f, p, s, corres, m), corres)
    decreases |f| - p, 1
  {
    var h := TakeInode(f, p, KDir, s, m.algo);
    if h.Got? {
      KidsLinks(f, h.next, corres, m);
    }
  }

  lemma {:induction false} KidsLinks(f: seq<Token>, p: nat, corres: Corres, m: ReadMode)
    ensures var r := ParseKids(f, p, corres, m); r.Got? ==> LinksKids(r.value.0, corres, r.value.1)
    decreases |f| - p, 3
  {
    EntryLinks(f, p, corres, m);
    var entry := ParseEntry(f, p, corres, m);
    if entry.Got? && entry.value.0.AnEntry? {
      var n, c := entry.value.0.node, entry.value.1;
      KidsLinks(f, entry.next, c, m);
      var rest := ParseKids(f, entry.next, c, m);
      if rest.Got? {
        LinksCons(n, rest.value.0, corres, c, rest.value.1, m);
      }
    }
  }

  lemma LinksCons(n: Node, rest: seq<Node>, a: Corres, b: Corres, c: Corres, m: ReadMode)
    requires LinksItem(AnEntry(n), a, b) && LinksKids(rest, b, c)
    ensures LinksKids(Kept(n, m) + rest, a, c)
  {
    LinkedNodeMore(n, b, c);
    forall e {:trigger e in c} | e in c && e !in a ensures Count(Kept(n, m) + rest, e) > 0 {
      CountAppend(Kept(n, m), rest, e);
      CountOne(n, e);
      assert e in b ==> CountNode(n, e) > 0;
    }
  }
}
