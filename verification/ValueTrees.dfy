/** What a catalogue means: an ordered tree of values. A hard link shows the etiquette of
    its etoile and the hosted inode, so two links are the same file iff etiquettes agree. */
module ValueTrees {
  import opened Entries

  datatype Node =
    | NDir(name: string, ino: Inode, kids: seq<Node>)
    | NLink(name: string, etiquette: nat, ino: Inode)
    | NLeaf(leaf: Leaf)
  {
    function Name(): string {
      match this
      case NDir(n, _, _) => n
      case NLink(n, _, _) => n
      case NLeaf(l) => l.leafName
    }
  }

  /** One item of the sequential reading: an entry, or the end of a directory. */
  datatype Mark = Open(name: string, ino: Inode) | One(node: Node) | Close

  /** The bracketed preorder of a forest. */
  function Bracket(f: seq<Node>): seq<Mark> {
    if f == [] then [] else BracketNode(f[0]) + Bracket(f[1..])
  }

  function BracketNode(n: Node): seq<Mark> {
    match n
    case NDir(name, ino, kids) => [Open(name, ino)] + Bracket(kids) + [Close]
    case _ => [One(n)]
  }

  function Closes(n: nat): (r: seq<Mark>)
    ensures |r| == n && forall i :: 0 <= i < n ==> r[i] == Close
  {
    seq(n, _ => Close)
  }

  lemma {:induction false} BracketAppend(a: seq<Node>, b: seq<Node>)
    ensures Bracket(a + b) == Bracket(a) + Bracket(b)
  {
    if a == [] {
      assert a + b == b;
    } else {
      assert (a + b)[1..] == a[1..] + b;
      BracketAppend(a[1..], b);
    }
  }

  lemma Assoc<T>(a: seq<T>, b: seq<T>, c: seq<T>)
    ensures a + (b + c) == a + b + c
  {
  }

  /** What follows the first mark of a non-empty forest's stream continued by x. */
  function AfterHead(a: seq<Node>, x: seq<Mark>): seq<Mark>
    requires a != []
  {
    match a[0]
    case NDir(_, _, kids) => Bracket(kids) + ([Close] + (Bracket(a[1..]) + x))
    case _ => Bracket(a[1..]) + x
  }

  lemma BracketHead(a: seq<Node>, x: seq<Mark>)
    requires a != []
    ensures Bracket(a) + x == [if a[0].NDir? then Open(a[0].name, a[0].ino) else One(a[0])] + AfterHead(a, x)
  {
  }

  lemma SameHead(p: Mark, u: seq<Mark>, q: Mark, v: seq<Mark>)
    requires [p] + u == [q] + v
    ensures p == q && u == v
  {
    assert ([p] + u)[0] == p && ([q] + v)[0] == q;
    assert ([p] + u)[1..] == u && ([q] + v)[1..] == v;
  }

  /** The stream determines the tree: two forests with the same bracketed preorder,
      each followed by a Close or by nothing, are equal. */
  lemma {:induction false} BracketPrefix(a: seq<Node>, x: seq<Mark>, b: seq<Node>, y: seq<Mark>)
    requires Bracket(a) + x == Bracket(b) + y
    requires (x == [] || x[0] == Close) && (y == [] || y[0] == Close)
    ensures a == b && x == y
    decreases a
  {
    if a != [] { BracketHead(a, x); }
    if b != [] { BracketHead(b, y); }
    if a == [] || b == [] {
      assert Bracket([]) + x == x && Bracket([]) + y == y;
    } else {
      SameHead(if a[0].NDir? then Open(a[0].name, a[0].ino) else One(a[0]), AfterHead(a, x),
               if b[0].NDir? then Open(b[0].name, b[0].ino) else One(b[0]), AfterHead(b, y));
      if a[0].NDir? {
        var ta, tb := Bracket(a[1..]) + x, Bracket(b[1..]) + y;
        BracketPrefix(a[0].kids, [Close] + ta, b[0].kids, [Close] + tb);
        SameHead(Close, ta, Close, tb);
      }
      BracketPrefix(a[1..], x, b[1..], y);
    }
  }

  lemma BracketInjective(a: seq<Node>, b: seq<Node>)
    requires Bracket(a) == Bracket(b)
    ensures a == b
  {
    assert Bracket(a) + [] == Bracket(b) + [];
    BracketPrefix(a, [], b, []);
  }

  /** The last mark of a node, and what follows u before it. */
  function LastMark(n: Node): Mark {
    if n.NDir? then Close else One(n)
  }

  function BeforeLast(u: seq<Mark>, n: Node): seq<Mark> {
    if n.NDir? then u + [Open(n.name, n.ino)] + Bracket(n.kids) else u
  }

  lemma BracketLast(x: seq<Mark>, a: seq<Node>)
    requires a != []
    ensures var n, f := a[|a| - 1], a[..|a| - 1];
            x + Bracket(a) == BeforeLast(x + Bracket(f), n) + [LastMark(n)]
  {
    var n, f := a[|a| - 1], a[..|a| - 1];
    assert a == f + [n];
    BracketAppend(f, [n]);
    assert Bracket([n]) == BracketNode(n) + [] == BracketNode(n);
    if n.NDir? {
      NestAfter(x, Bracket(f), [Open(n.name, n.ino)], Bracket(n.kids), [Close]);
    } else {
      Assoc(x, Bracket(f), [One(n)]);
    }
  }

  lemma NestAfter<T>(x: seq<T>, b: seq<T>, o: seq<T>, k: seq<T>, c: seq<T>)
    ensures x + (b + (o + k + c)) == x + b + o + k + c
  {
  }

  lemma SameLast(u: seq<Mark>, p: Mark, v: seq<Mark>, q: Mark)
    requires u + [p] == v + [q]
    ensures p == q && u == v
  {
    var l := u + [p];
    assert l[|l| - 1] == p && l[|l| - 1] == q;
    assert l[..|l| - 1] == u && l[..|l| - 1] == v;
  }

  lemma SameLastMark(u: seq<Mark>, n: Node, v: seq<Mark>, m: Node)
    requires BeforeLast(u, n) + [LastMark(n)] == BeforeLast(v, m) + [LastMark(m)]
    ensures BeforeLast(u, n) == BeforeLast(v, m) && n.NDir? == m.NDir? && (!n.NDir? ==> n == m)
  {
    SameLast(BeforeLast(u, n), LastMark(n), BeforeLast(v, m), LastMark(m));
  }

  lemma LastSplit(a: seq<Node>)
    requires a != []
    ensures a[..|a| - 1] + [a[|a| - 1]] == a && a[|a| - 1] in a
  {
  }

  /** The same from the other end: what was read since the last unclosed Open determines
      the entries read in that directory. */
  lemma {:induction false} BracketSuffix(x: seq<Mark>, a: seq<Node>, y: seq<Mark>, b: seq<Node>)
    requires x + Bracket(a) == y + Bracket(b)
    requires (x == [] || x[|x| - 1].Open?) && (y == [] || y[|y| - 1].Open?)
    ensures a == b && x == y
    decreases a, 1
  {
    if a == [] {
      SuffixEmpty(x, y, b);
    } else if b == [] {
      SuffixEmpty(y, x, a);
    } else {
      var n, f, m, g := a[|a| - 1], a[..|a| - 1], b[|b| - 1], b[..|b| - 1];
      BracketLast(x, a);
      BracketLast(y, b);
      LastSplit(a);
      LastSplit(b);
      SameLastNode(x + Bracket(f), n, y + Bracket(g), m);
      BracketSuffix(x, f, y, g);
    }
  }

  lemma {:induction false} SameLastNode(u: seq<Mark>, n: Node, v: seq<Mark>, m: Node)
    requires BeforeLast(u, n) + [LastMark(n)] == BeforeLast(v, m) + [LastMark(m)]
    ensures n == m && u == v
    decreases n, 0
  {
    SameLastMark(u, n, v, m);
    if n.NDir? {
      BracketSuffix(u + [Open(n.name, n.ino)], n.kids, v + [Open(m.name, m.ino)], m.kids);
      SameLast(u, Open(n.name, n.ino), v, Open(m.name, m.ino));
    }
  }

  lemma SuffixEmpty(x: seq<Mark>, y: seq<Mark>, b: seq<Node>)
    requires x + Bracket([]) == y + Bracket(b)
    requires x == [] || x[|x| - 1].Open?
    ensures b == [] && x == y
  {
    assert x + Bracket([]) == x;
    if b != [] {
      BracketLast(y, b);
      LastNotOpen(x, BeforeLast(y + Bracket(b[..|b| - 1]), b[|b| - 1]), LastMark(b[|b| - 1]));
    }
    assert b == [] ==> y + Bracket(b) == y;
  }

  lemma LastNotOpen(x: seq<Mark>, u: seq<Mark>, p: Mark)
    requires x == [] || x[|x| - 1].Open?
    requires !p.Open?
    ensures x != u + [p]
  {
    assert (u + [p])[|u|] == p;
  }

  /** Directories below and in a forest. */
  function Dirs(f: seq<Node>): nat {
    if f == [] then 0
    else (match f[0] case NDir(_, _, kids) => 1 + Dirs(kids) case _ => 0) + Dirs(f[1..])
  }

  /** Opened and not yet closed directories after a stream. */
  function Depth(m: seq<Mark>): int {
    if m == [] then 0
    else Depth(m[..|m| - 1]) + (match m[|m| - 1] case Open(_, _) => 1 case Close => -1 case One(_) => 0)
  }

  function Ends(m: seq<Mark>): nat {
    if m == [] then 0 else Ends(m[..|m| - 1]) + (if m[|m| - 1].Close? then 1 else 0)
  }

  lemma {:induction false} DepthAppend(a: seq<Mark>, b: seq<Mark>)
    ensures Depth(a + b) == Depth(a) + Depth(b)
    ensures Ends(a + b) == Ends(a) + Ends(b)
    decreases |b|
  {
    if b == [] {
      assert a + b == a;
    } else {
      assert (a + b)[..|a + b| - 1] == a + b[..|b| - 1];
      DepthAppend(a, b[..|b| - 1]);
    }
  }

  /** Never closes more than it opened, and closes all it opened. */
  ghost predicate Balanced(m: seq<Mark>) {
    Depth(m) == 0 && forall k :: 0 <= k <= |m| ==> Depth(m[..k]) >= 0
  }

  lemma BalancedConcat(a: seq<Mark>, b: seq<Mark>)
    requires Balanced(a) && Balanced(b)
    ensures Balanced(a + b)
  {
    DepthAppend(a, b);
    forall k | 0 <= k <= |a + b| ensures Depth((a + b)[..k]) >= 0 {
      if k <= |a| {
        assert (a + b)[..k] == a[..k];
      } else {
        assert (a + b)[..k] == a + b[..k - |a|];
        DepthAppend(a, b[..k - |a|]);
      }
    }
  }

  lemma BalancedNest(name: string, ino: Inode, b: seq<Mark>)
    requires Balanced(b)
    ensures Balanced([Open(name, ino)] + b + [Close])
    ensures Ends([Open(name, ino)] + b + [Close]) == Ends(b) + 1
  {
    var o := [Open(name, ino)];
    var h := o + b + [Close];
    assert Depth(o) == 1 && Depth([Close]) == -1;
    DepthAppend(o, b);
    DepthAppend(o + b, [Close]);
    forall k | 0 <= k <= |h| ensures Depth(h[..k]) >= 0 {
      if 0 < k < |h| {
        assert h[..k] == o + b[..k - 1];
        DepthAppend(o, b[..k - 1]);
      } else if k == |h| {
        assert h[..k] == h;
      }
    }
  }

  lemma BalancedOne(m: Mark)
    requires m.One?
    ensures Balanced([m]) && Ends([m]) == 0
  {
    assert [m][..0] == [] && [m][..1] == [m];
    assert Depth([m]) == 0;
  }

  /** A sequential reading is well bracketed: it never closes more than it opened, ends
      balanced, and has exactly one Close for each directory. */
  lemma {:induction false} BracketBalanced(f: seq<Node>)
    ensures Balanced(Bracket(f)) && Ends(Bracket(f)) == Dirs(f)
  {
    if f != [] {
      BracketBalanced(f[1..]);
      if f[0].NDir? {
        BracketBalanced(f[0].kids);
        BalancedNest(f[0].name, f[0].ino, Bracket(f[0].kids));
      } else {
        BalancedOne(One(f[0]));
      }
      BalancedConcat(BracketNode(f[0]), Bracket(f[1..]));
      DepthAppend(BracketNode(f[0]), Bracket(f[1..]));
    }
  }
}
