/** A virtual file made of pieces of another one. */
module Pieces {

  /** debut is the place in the other file, offset the place in the virtual one. */
  datatype Partie = Partie(debut: nat, longueur: nat, offset: nat)
  {
    function Fin(): (q: nat)
      ensures q >= debut
    {
      debut + longueur
    }
  }

  function Total(m: seq<Partie>): nat {
    if m == [] then 0 else m[|m| - 1].offset + m[|m| - 1].longueur
  }

  /** No empty piece, each after the previous one, offsets following each other, all within
      a file of n bytes. */
  ghost predicate Good(m: seq<Partie>, n: nat) {
    m == [] ||
    (var f, k := m[..|m| - 1], m[|m| - 1];
     Good(f, n) && k.longueur > 0 && k.Fin() <= n && k.offset == Total(f) && EndOf(f) <= k.debut)
  }

  /** Where the last piece ends in the other file. */
  function EndOf(m: seq<Partie>): nat {
    if m == [] then 0 else m[|m| - 1].Fin()
  }

  lemma {:induction false} GoodTake(m: seq<Partie>, n: nat, k: nat)
    requires Good(m, n) && k <= |m|
    ensures Good(m[..k], n)
    decreases |m|
  {
    if k < |m| {
      GoodTake(m[..|m| - 1], n, k);
      assert m[..|m| - 1][..k] == m[..k];
    } else {
      assert m[..k] == m;
    }
  }

  /** A piece among the others. */
  lemma PieceAt(m: seq<Partie>, n: nat, i: nat)
    requires Good(m, n) && i < |m|
    ensures Good(m[..i], n) && Good(m[..i + 1], n)
    ensures m[i].longueur > 0 && m[i].Fin() <= n && m[i].offset == Total(m[..i]) && EndOf(m[..i]) <= m[i].debut
    ensures Total(m[..i + 1]) == m[i].offset + m[i].longueur && EndOf(m[..i + 1]) == m[i].Fin()
  {
    GoodTake(m, n, i + 1);
    var t := m[..i + 1];
    assert t[..|t| - 1] == m[..i] && t[|t| - 1] == m[i];
  }

  /** Pieces follow each other. */
  lemma {:induction false} Ordered(m: seq<Partie>, n: nat, i: nat, j: nat)
    requires Good(m, n) && i < j < |m|
    ensures m[i].Fin() <= m[j].debut && m[i].offset + m[i].longueur <= m[j].offset
    decreases j
  {
    PieceAt(m, n, j);
    if i + 1 == j {
      PieceAt(m, n, i);
    } else {
      Ordered(m, n, i, j - 1);
      PieceAt(m, n, j - 1);
    }
  }

  function Cut(s: seq<char>, p: nat, q: nat): seq<char>
    requires p <= q
  {
    if q <= |s| then s[p..q] else []
  }

  /** The bytes of the virtual file. */
  function Virtual(m: seq<Partie>, s: seq<char>): seq<char> {
    if m == [] then []
    else Virtual(m[..|m| - 1], s) + Cut(s, m[|m| - 1].debut, m[|m| - 1].Fin())
  }

  lemma {:induction false} VirtualLength(m: seq<Partie>, s: seq<char>)
    requires Good(m, |s|)
    ensures |Virtual(m, s)| == Total(m)
    decreases |m|
  {
    if m != [] {
      VirtualLength(m[..|m| - 1], s);
    }
  }

  lemma InFirst(x: seq<char>, y: seq<char>, i: nat)
    requires i < |x|
    ensures i < |x + y| && (x + y)[i] == x[i]
  {
  }

  lemma InSecond(x: seq<char>, s: seq<char>, p: nat, q: nat, r: nat)
    requires p + r < q <= |s|
    ensures |x| + r < |x + s[p..q]| && (x + s[p..q])[|x| + r] == s[p + r]
  {
  }

  /** The last piece comes after the others. */
  lemma VirtualEnds(m: seq<Partie>, s: seq<char>)
    requires Good(m, |s|) && m != []
    ensures var f, k := m[..|m| - 1], m[|m| - 1];
            && Good(f, |s|) && k.Fin() <= |s| && k.offset == |Virtual(f, s)|
            && Virtual(m, s) == Virtual(f, s) + s[k.debut..k.Fin()]
  {
    VirtualLength(m[..|m| - 1], s);
  }

  /** v holds the r-th byte of the piece x of s where it should. */
  ghost predicate Shows(v: seq<char>, s: seq<char>, x: Partie, r: nat) {
    x.debut + r < x.Fin() <= |s| && x.offset + r < |v| && v[x.offset + r] == s[x.debut + r]
  }

  lemma InLastPiece(m: seq<Partie>, s: seq<char>, r: nat)
    requires Good(m, |s|) && m != [] && r < m[|m| - 1].longueur
    ensures Shows(Virtual(m, s), s, m[|m| - 1], r)
  {
    VirtualEnds(m, s);
    var k := m[|m| - 1];
    InSecond(Virtual(m[..|m| - 1], s), s, k.debut, k.Fin(), r);
  }

  lemma InEarlierPiece(m: seq<Partie>, s: seq<char>, x: Partie, r: nat)
    requires Good(m, |s|) && m != [] && Shows(Virtual(m[..|m| - 1], s), s, x, r)
    ensures Shows(Virtual(m, s), s, x, r)
  {
    VirtualEnds(m, s);
    var k := m[|m| - 1];
    InFirst(Virtual(m[..|m| - 1], s), s[k.debut..k.Fin()], x.offset + r);
  }

  /** The byte at an offset of the virtual file is that of its piece. */
  lemma {:induction false} VirtualAt(m: seq<Partie>, s: seq<char>, i: nat, r: nat)
    requires Good(m, |s|) && i < |m| && r < m[i].longueur
    ensures Shows(Virtual(m, s), s, m[i], r)
    decreases |m|
  {
    var f := m[..|m| - 1];
    if i < |m| - 1 {
      assert f[i] == m[i];
      VirtualAt(f, s, i, r);
      InEarlierPiece(m, s, m[i], r);
    } else {
      InLastPiece(m, s, r);
    }
  }

  /** A piece put after the others. */
  function Append(m: seq<Partie>, debut: nat, fin: nat): seq<Partie>
    requires debut <= fin
  {
    m + [Partie(debut, fin - debut, Total(m))]
  }

  /** The last piece made longer. */
  function ExtendLast(m: seq<Partie>, fin: nat): seq<Partie>
    requires m != [] && m[|m| - 1].debut <= fin
  {
    m[|m| - 1 := m[|m| - 1].(longueur := fin - m[|m| - 1].debut)]
  }

  lemma GoodAppend(m: seq<Partie>, n: nat, debut: nat, fin: nat)
    requires Good(m, n) && EndOf(m) <= debut < fin <= n
    ensures Good(Append(m, debut, fin), n) && EndOf(Append(m, debut, fin)) == fin
    ensures Append(m, debut, fin)[..|m|] == m
  {
    assert Append(m, debut, fin)[..|m|] == m;
  }

  lemma GoodExtend(m: seq<Partie>, n: nat, fin: nat)
    requires Good(m, n) && m != [] && m[|m| - 1].debut < fin <= n
    ensures Good(ExtendLast(m, fin), n) && EndOf(ExtendLast(m, fin)) == fin
  {
    assert ExtendLast(m, fin)[..|m| - 1] == m[..|m| - 1];
  }

  lemma VirtualAppend(m: seq<Partie>, s: seq<char>, debut: nat, fin: nat)
    requires Good(m, |s|) && debut <= fin <= |s|
    ensures Virtual(Append(m, debut, fin), s) == Virtual(m, s) + s[debut..fin]
  {
    assert Append(m, debut, fin)[..|m|] == m;
  }

  // ----- a place in a virtual file

  /** A piece, and a place in it. */
  datatype Cursor = Cursor(index: nat, relicat: nat)

  ghost predicate CursorOk(m: seq<Partie>, c: Cursor) {
    c.index < |m| ==> c.relicat < m[c.index].longueur
  }

  function PositionOf(m: seq<Partie>, c: Cursor): nat {
    if c.index < |m| then m[c.index].offset + c.relicat else Total(m)
  }

  /** Where reading one byte leaves the cursor. */
  function Advance(m: seq<Partie>, c: Cursor): Cursor
    requires c.index < |m|
  {
    if c.relicat + 1 >= m[c.index].longueur then Cursor(c.index + 1, 0) else Cursor(c.index, c.relicat + 1)
  }

  lemma NextOffset(m: seq<Partie>, n: nat, i: nat)
    requires Good(m, n) && i < |m|
    ensures (if i + 1 < |m| then m[i + 1].offset else Total(m)) == m[i].offset + m[i].longueur
    ensures i + 1 < |m| ==> m[i + 1].longueur > 0
  {
    PieceAt(m, n, i);
    if i + 1 < |m| {
      PieceAt(m, n, i + 1);
    }
  }

  lemma AdvanceIsNext(m: seq<Partie>, s: seq<char>, c: Cursor)
    requires Good(m, |s|) && CursorOk(m, c) && c.index < |m|
    ensures CursorOk(m, Advance(m, c)) && PositionOf(m, Advance(m, c)) == PositionOf(m, c) + 1
  {
    NextOffset(m, |s|, c.index);
  }

  lemma ByteAtCursor(m: seq<Partie>, s: seq<char>, c: Cursor)
    requires Good(m, |s|) && CursorOk(m, c) && c.index < |m|
    ensures PositionOf(m, c) < |Virtual(m, s)| && m[c.index].debut + c.relicat < |s|
    ensures Virtual(m, s)[PositionOf(m, c)] == s[m[c.index].debut + c.relicat]
  {
    VirtualAt(m, s, c.index, c.relicat);
  }

  lemma EndOfVirtual(m: seq<Partie>, s: seq<char>, c: Cursor)
    requires Good(m, |s|) && c.index >= |m|
    ensures PositionOf(m, c) == |Virtual(m, s)|
  {
    VirtualLength(m, s);
  }
}
