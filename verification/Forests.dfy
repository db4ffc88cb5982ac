/** Lists of named value nodes: search, replacement and size. */
module Forests {
  import opened Entries
  import opened ValueTrees

  ghost predicate Unique(f: seq<Node>) {
    forall i, j :: 0 <= i < j < |f| ==> f[i].Name() != f[j].Name()
  }

  /** Unique names at every level. */
  ghost predicate AllUnique(f: seq<Node>) {
    Unique(f) && forall i :: 0 <= i < |f| && f[i].NDir? ==> AllUnique(f[i].kids)
  }

  function IndexOf(f: seq<Node>, n: string): (r: Option<nat>)
    ensures r.Some? ==> r.value < |f| && f[r.value].Name() == n
    ensures r.Some? ==> forall j :: 0 <= j < r.value ==> f[j].Name() != n
    ensures r.None? <==> forall j :: 0 <= j < |f| ==> f[j].Name() != n
  {
    if f == [] then None
    else if f[0].Name() == n then Some(0)
    else
      var r := IndexOf(f[1..], n);
      assert forall j :: 1 <= j < |f| ==> f[j] == f[1..][j - 1];
      if r.Some? then Some(r.value + 1) else None
  }

  lemma IndexOfUnique(f: seq<Node>, n: string, i: nat)
    requires i < |f| && f[i].Name() == n && forall j :: 0 <= j < i ==> f[j].Name() != n
    ensures IndexOf(f, n) == Some(i)
  {
  }

  lemma IndexOfSameNames(a: seq<Node>, b: seq<Node>, n: string)
    requires |a| <= |b| && forall i :: 0 <= i < |a| ==> a[i].Name() == b[i].Name()
    requires forall i :: |a| <= i < |b| ==> b[i].Name() != n
    ensures IndexOf(a, n) == IndexOf(b, n)
  {
    match IndexOf(b, n)
    case Some(i) => IndexOfUnique(a, n, i);
    case None =>
      assert forall j :: 0 <= j < |a| ==> b[j].Name() != n;
  }

  /** The forest with the children of the directory of that name replaced. */
  function SetKids(f: seq<Node>, n: string, kids: seq<Node>): (r: seq<Node>)
    ensures |r| == |f| && forall i :: 0 <= i < |f| ==> r[i].Name() == f[i].Name()
  {
    var i := IndexOf(f, n);
    if i.Some? && f[i.value].NDir? then f[i.value := NDir(f[i.value].name, f[i.value].ino, kids)] else f
  }

  lemma SetKidsAgain(f: seq<Node>, n: string, i: nat, a: seq<Node>, b: seq<Node>)
    requires IndexOf(f, n) == Some(i) && f[i].NDir?
    ensures SetKids(f[i := NDir(f[i].name, f[i].ino, a)], n, b) == SetKids(f, n, b)
  {
    IndexOfUnique(f[i := NDir(f[i].name, f[i].ino, a)], n, i);
  }

  function Size(f: seq<Node>): nat {
    if f == [] then 0 else SizeNode(f[0]) + Size(f[1..])
  }

  function SizeNode(n: Node): nat {
    1 + match n case NDir(_, _, kids) => Size(kids) case _ => 0
  }

  lemma {:induction false} SizeAppend(a: seq<Node>, b: seq<Node>)
    ensures Size(a + b) == Size(a) + Size(b)
  {
    if a == [] {
      assert a + b == b;
    } else {
      assert (a + b)[1..] == a[1..] + b;
      SizeAppend(a[1..], b);
    }
  }

  lemma SizeUpdate(f: seq<Node>, i: nat, n: Node)
    requires i < |f|
    ensures Size(f[i := n]) + SizeNode(f[i]) == Size(f) + SizeNode(n)
  {
    assert f == f[..i] + [f[i]] + f[i + 1..];
    assert f[i := n] == f[..i] + [n] + f[i + 1..];
    SizeAppend(f[..i] + [f[i]], f[i + 1..]);
    SizeAppend(f[..i] + [n], f[i + 1..]);
    SizeAppend(f[..i], [f[i]]);
    SizeAppend(f[..i], [n]);
    assert Size([n]) == SizeNode(n) && Size([f[i]]) == SizeNode(f[i]);
  }
}
