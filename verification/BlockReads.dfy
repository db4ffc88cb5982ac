/** Reading several bytes at once from a file made of pieces: the bytes are right, but the
    place in the last piece is counted from the beginning of the read. */
module BlockReads {
  import opened Pieces

  /** The read begins before the piece k and ends strictly inside it. */
  ghost predicate EndsIn(m: seq<Partie>, c: Cursor, size: nat, k: nat)
    requires k < |m|
  {
    c.index < k && m[k].offset < PositionOf(m, c) + size < m[k].offset + m[k].longueur
  }

  /** The read begins in a piece and ends strictly inside a later one. */
  ghost predicate EndsInLaterPiece(m: seq<Partie>, c: Cursor, size: nat) {
    exists k :: 0 <= k < |m| && EndsIn(m, c, size, k)
  }

  /** Where the cursor is then left: as far in the piece as all the bytes read, those of the
      pieces before included, or after the piece. */
  function Misplaced(k: Partie, size: nat): nat {
    k.offset + if size < k.longueur then size else k.longueur
  }

  /** The bytes of a file from a position, at most n. */
  function Bytes(v: seq<char>, p: nat, n: nat): seq<char> {
    if p >= |v| then [] else if p + n <= |v| then v[p..p + n] else v[p..]
  }

  lemma SlicePrefix(x: seq<char>, y: seq<char>, p: nat, q: nat)
    requires x <= y && p <= q <= |x|
    ensures y[p..q] == x[p..q]
  {
  }

  lemma {:induction false} VirtualPrefix(m: seq<Partie>, s: seq<char>, k: nat)
    requires k <= |m|
    ensures Virtual(m[..k], s) <= Virtual(m, s)
    decreases |m|
  {
    if k == |m| {
      assert m[..k] == m;
    } else {
      assert m[..|m| - 1][..k] == m[..k];
      VirtualPrefix(m[..|m| - 1], s, k);
    }
  }

  lemma SliceSecond(x: seq<char>, s: seq<char>, d: nat, e: nat, r: nat, n: nat)
    requires d + r + n <= e <= |s|
    ensures |x| + r + n <= |x + s[d..e]| && (x + s[d..e])[|x| + r..|x| + r + n] == s[d + r..d + r + n]
  {
    var y := x + s[d..e];
    var a, b := y[|x| + r..|x| + r + n], s[d + r..d + r + n];
    forall t | 0 <= t < n ensures a[t] == b[t] {
      assert y[|x| + r + t] == s[d..e][r + t];
    }
  }

  /** The virtual file up to a piece ends with the bytes of that piece. */
  lemma UpTo(m: seq<Partie>, below: seq<char>, i: nat)
    requires Good(m, |below|) && i < |m|
    ensures m[i].Fin() <= |below| && |Virtual(m[..i], below)| == m[i].offset
    ensures Virtual(m[..i + 1], below) == Virtual(m[..i], below) + below[m[i].debut..m[i].Fin()]
  {
    PieceAt(m, |below|, i);
    VirtualLength(m[..i], below);
    assert m[..i + 1][..i] == m[..i];
  }

  lemma Glue(x: seq<char>, v: seq<char>, s: seq<char>, d: nat, e: nat, r: nat, n: nat, q: nat)
    requires d + r + n <= e <= |s| && q == |x| + r && x + s[d..e] <= v
    ensures q + n <= |v| && v[q..q + n] == s[d + r..d + r + n]
  {
    SliceSecond(x, s, d, e, r, n);
    SlicePrefix(x + s[d..e], v, q, q + n);
  }

  lemma PieceBytes(m: seq<Partie>, below: seq<char>, i: nat, r: nat, n: nat, q: nat)
    requires Good(m, |below|) && i < |m| && r + n <= m[i].longueur && q == m[i].offset + r
    ensures m[i].Fin() <= |below| && q + n <= |Virtual(m, below)|
    ensures Virtual(m, below)[q..q + n] == below[m[i].debut + r..m[i].debut + r + n]
  {
    UpTo(m, below, i);
    VirtualPrefix(m, below, i + 1);
    Glue(Virtual(m[..i], below), Virtual(m, below), below, m[i].debut, m[i].Fin(), r, n, q);
  }

  lemma PositionWithin(m: seq<Partie>, below: seq<char>, c: Cursor)
    requires Good(m, |below|) && CursorOk(m, c)
    ensures PositionOf(m, c) <= |Virtual(m, below)|
  {
    if c.index < |m| {
      VirtualAt(m, below, c.index, c.relicat);
    } else {
      VirtualLength(m, below);
    }
  }

  lemma ChunkOf(m: seq<Partie>, below: seq<char>, v: seq<char>, c: Cursor, n: nat)
    requires Good(m, |below|) && v == Virtual(m, below) && CursorOk(m, c) && c.index < |m|
    requires c.relicat + n <= m[c.index].longueur
    ensures var from := m[c.index].debut + c.relicat;
            && from + n <= |below| && PositionOf(m, c) + n <= |v|
            && below[from..from + n] == Bytes(v, PositionOf(m, c), n)
  {
    PieceBytes(m, below, c.index, c.relicat, n, PositionOf(m, c));
  }

  /** The bytes of one piece. */
  method ReadPiece(m: seq<Partie>, below: seq<char>, ghost v: seq<char>, c: Cursor, size: nat)
    returns (chunk: seq<char>)
    requires Good(m, |below|) && v == Virtual(m, below) && CursorOk(m, c) && c.index < |m| && size > 0
    ensures chunk != [] && |chunk| <= size && c.relicat + |chunk| <= m[c.index].longueur
    ensures |chunk| < size ==> c.relicat + |chunk| == m[c.index].longueur
    ensures chunk == Bytes(v, PositionOf(m, c), |chunk|) && PositionOf(m, c) + |chunk| <= |v|
  {
    var k := m[c.index];
    var maxlire := k.longueur - c.relicat;
    maxlire := if maxlire > size then size else maxlire;
    ChunkOf(m, below, v, c, maxlire);
    chunk := below[k.debut + c.relicat..k.debut + c.relicat + maxlire];
  }

  /** The cursor after n bytes of its piece, lu bytes having been read before. */
  function After(m: seq<Partie>, c: Cursor, lu: nat, n: nat): Cursor
    requires c.index < |m|
  {
    var relicat := c.relicat + (lu + n);
    if relicat >= m[c.index].longueur then Cursor(c.index + 1, 0) else Cursor(c.index, relicat)
  }

  lemma AfterPlace(m: seq<Partie>, below: seq<char>, c: Cursor, lu: nat, n: nat)
    requires Good(m, |below|) && CursorOk(m, c) && c.index < |m| && (lu > 0 ==> c.relicat == 0)
    requires c.relicat + n <= m[c.index].longueur
    ensures var d, k := After(m, c, lu, n), m[c.index];
            && CursorOk(m, d)
            && (PositionOf(m, d) == PositionOf(m, c) + n <==> lu == 0 || c.relicat + n == k.longueur)
            && (c.relicat + n == k.longueur ==> d == Cursor(c.index + 1, 0))
            && (c.relicat == 0 ==> PositionOf(m, d) == Misplaced(k, lu + n))
  {
    NextOffset(m, |below|, c.index);
  }

  /** One pass of the loop, lu bytes having been read. */
  method ReadChunk(m: seq<Partie>, below: seq<char>, ghost v: seq<char>, c: Cursor, size: nat, lu: nat)
    returns (chunk: seq<char>, d: Cursor)
    requires Good(m, |below|) && v == Virtual(m, below) && CursorOk(m, c) && c.index < |m| && lu < size
    requires lu > 0 ==> c.relicat == 0
    ensures chunk != [] && lu + |chunk| <= size && d == After(m, c, lu, |chunk|)
    ensures chunk == Bytes(v, PositionOf(m, c), |chunk|) && PositionOf(m, c) + |chunk| <= |v|
    ensures c.relicat + |chunk| <= m[c.index].longueur
    ensures lu + |chunk| < size ==> c.relicat + |chunk| == m[c.index].longueur
  {
    chunk := ReadPiece(m, below, v, c, size - lu);
    d := After(m, c, lu, |chunk|);
  }

  lemma BytesTwice(v: seq<char>, p: nat, a: nat, b: nat)
    requires p + a + b <= |v|
    ensures Bytes(v, p, a) + Bytes(v, p + a, b) == Bytes(v, p, a + b)
  {
  }

  /** What has been read from c, and where the cursor is. */
  ghost predicate Reading(m: seq<Partie>, v: seq<char>, c: Cursor, size: nat, bytes: seq<char>, d: Cursor) {
    && CursorOk(m, c) && CursorOk(m, d) && c.index <= d.index && (bytes == [] ==> d == c)
    && |bytes| <= size && PositionOf(m, c) + |bytes| <= |v| && bytes == Bytes(v, PositionOf(m, c), |bytes|)
    && if |bytes| == size then Stopped(m, c, size, d) else Going(m, c, |bytes|, d)
  }

  /** Some pieces have been read to their end. */
  ghost predicate Going(m: seq<Partie>, c: Cursor, lu: nat, d: Cursor) {
    PositionOf(m, d) == PositionOf(m, c) + lu && (lu > 0 ==> d.relicat == 0 && c.index < d.index)
  }

  /** Where the cursor is left by a read of that size that is not cut short. */
  ghost predicate Stopped(m: seq<Partie>, c: Cursor, size: nat, d: Cursor) {
    && (PositionOf(m, d) == PositionOf(m, c) + size <==> !EndsInLaterPiece(m, c, size))
    && forall k {:trigger EndsIn(m, c, size, k)} ::
         0 <= k < |m| && EndsIn(m, c, size, k) ==> PositionOf(m, d) == Misplaced(m[k], size)
  }

  lemma LastStop(m: seq<Partie>, below: seq<char>, c: Cursor, e: Cursor, size: nat, lu: nat, chunk: nat)
    requires Good(m, |below|) && CursorOk(m, c) && CursorOk(m, e) && c.index <= e.index < |m|
    requires lu + chunk == size && chunk > 0 && e.relicat + chunk <= m[e.index].longueur
    requires Going(m, c, lu, e) && (lu == 0 ==> e == c)
    ensures Stopped(m, c, size, After(m, e, lu, chunk))
  {
    AfterPlace(m, below, e, lu, chunk);
    LastChunk(m, |below|, c, e, size, lu, chunk);
  }

  lemma ReadingStarts(m: seq<Partie>, below: seq<char>, c: Cursor, size: nat)
    requires Good(m, |below|) && CursorOk(m, c)
    ensures Reading(m, Virtual(m, below), c, size, [], c)
  {
    PositionWithin(m, below, c);
    if size == 0 && EndsInLaterPiece(m, c, 0) {
      var k :| 0 <= k < |m| && EndsIn(m, c, 0, k);
      Ordered(m, |below|, c.index, k);
    }
  }

  lemma StillReading(m: seq<Partie>, v: seq<char>, c: Cursor, size: nat, bytes: seq<char>, d: Cursor, chunk: seq<char>,
                     e: Cursor)
    requires Reading(m, v, c, size, bytes, d) && d.index < |m| && chunk != [] && |bytes| + |chunk| <= size
    requires chunk == Bytes(v, PositionOf(m, d), |chunk|) && PositionOf(m, d) + |chunk| <= |v|
    requires CursorOk(m, e) && (e == Cursor(d.index + 1, 0) || e.index == d.index)
    requires if |bytes| + |chunk| == size then Stopped(m, c, size, e) else Going(m, c, |bytes| + |chunk|, e)
    ensures Reading(m, v, c, size, bytes + chunk, e)
  {
    BytesTwice(v, PositionOf(m, c), |bytes|, |chunk|);
  }

  method ReadStep(m: seq<Partie>, below: seq<char>, ghost v: seq<char>, ghost c: Cursor, size: nat, bytes: seq<char>,
                  d: Cursor)
    returns (more: seq<char>, e: Cursor)
    requires Good(m, |below|) && v == Virtual(m, below)
    requires Reading(m, v, c, size, bytes, d) && |bytes| < size && d.index < |m|
    ensures Reading(m, v, c, size, more, e) && |bytes| < |more|
  {
    var chunk;
    chunk, e := ReadChunk(m, below, v, d, size, |bytes|);
    more := bytes + chunk;
    AfterPlace(m, below, d, |bytes|, |chunk|);
    if |more| == size {
      LastStop(m, below, c, d, size, |bytes|, |chunk|);
    }
    StillReading(m, v, c, size, bytes, d, chunk, e);
  }

  /** inherited_read: the bytes are those of the virtual file, and the place is right after
      them unless the read ended inside a later piece than the one where it began. */
  method Read(m: seq<Partie>, below: seq<char>, c: Cursor, size: nat) returns (bytes: seq<char>, d: Cursor)
    requires Good(m, |below|) && CursorOk(m, c)
    ensures CursorOk(m, d)
    ensures bytes == Bytes(Virtual(m, below), PositionOf(m, c), size)
    ensures PositionOf(m, d) == PositionOf(m, c) + |bytes| <==> !EndsInLaterPiece(m, c, size)
    ensures forall k {:trigger EndsIn(m, c, size, k)} ::
              0 <= k < |m| && EndsIn(m, c, size, k) ==> PositionOf(m, d) == Misplaced(m[k], size)
  {
    ghost var v := Virtual(m, below);
    bytes, d := [], c;
    ReadingStarts(m, below, c, size);
    while |bytes| < size && d.index < |m|
      invariant Reading(m, v, c, size, bytes, d)
    {
      bytes, d := ReadStep(m, below, v, c, size, bytes, d);
    }
    if |bytes| < size {
      AtTheEnd(m, below, c, size, |bytes|, d);
    }
  }

  /** Three bytes read over two pieces: the place is then 5 instead of 3, and two bytes are
      never read. */
  method SkippedBytes(below: seq<char>) returns (bytes: seq<char>, d: Cursor)
    requires |below| == 7
    ensures var m := [Partie(0, 2, 0), Partie(3, 4, 2)];
            && Good(m, |below|) && CursorOk(m, Cursor(0, 0)) && PositionOf(m, Cursor(0, 0)) == 0
            && bytes == Virtual(m, below)[..3] && PositionOf(m, d) == 5
  {
    var m := [Partie(0, 2, 0), Partie(3, 4, 2)];
    TwoPieces(below);
    bytes, d := Read(m, below, Cursor(0, 0), 3);
    assert EndsIn(m, Cursor(0, 0), 3, 1);
  }

  lemma TwoPieces(below: seq<char>)
    requires |below| == 7
    ensures var m := [Partie(0, 2, 0), Partie(3, 4, 2)];
            && Good(m, |below|) && CursorOk(m, Cursor(0, 0)) && PositionOf(m, Cursor(0, 0)) == 0
            && |Virtual(m, below)| == 6 && EndsIn(m, Cursor(0, 0), 3, 1)
  {
    var m := [Partie(0, 2, 0), Partie(3, 4, 2)];
    var f := m[..1];
    assert f == [Partie(0, 2, 0)] && f[..|f| - 1] == [] && Good([], |below|);
    assert Good(f, |below|) && Total(f) == 2 && EndOf(f) == 2;
    assert m[..|m| - 1] == f;
    VirtualLength(m, below);
  }

  /** Where the read ends, seen from its last pass. */
  lemma LastChunk(m: seq<Partie>, n: nat, c: Cursor, e: Cursor, size: nat, lu: nat, chunk: nat)
    requires Good(m, n) && CursorOk(m, c) && c.index <= e.index < |m| && lu + chunk == size && chunk > 0
    requires PositionOf(m, e) == PositionOf(m, c) + lu && e.relicat + chunk <= m[e.index].longueur
    requires if lu == 0 then e == c else e.relicat == 0 && c.index < e.index
    ensures EndsIn(m, c, size, e.index) <==> lu > 0 && e.relicat + chunk < m[e.index].longueur
    ensures forall k {:trigger EndsIn(m, c, size, k)} :: 0 <= k < |m| && EndsIn(m, c, size, k) ==> k == e.index
  {
    assert PositionOf(m, c) + size == m[e.index].offset + e.relicat + chunk;
    forall k {:trigger EndsIn(m, c, size, k)} | 0 <= k < |m| && k != e.index ensures !EndsIn(m, c, size, k) {
      if k < e.index {
        Ordered(m, n, k, e.index);
      } else {
        Ordered(m, n, e.index, k);
      }
    }
  }

  lemma AtTheEnd(m: seq<Partie>, below: seq<char>, c: Cursor, size: nat, lu: nat, d: Cursor)
    requires Good(m, |below|) && CursorOk(m, c) && d.index >= |m| && PositionOf(m, d) == PositionOf(m, c) + lu
               && lu < size
    ensures PositionOf(m, c) + lu == |Virtual(m, below)| && !EndsInLaterPiece(m, c, size)
    ensures var v := Virtual(m, below); Bytes(v, PositionOf(m, c), size) == Bytes(v, PositionOf(m, c), lu)
  {
    EndOfVirtual(m, below, d);
    forall k | c.index < k < |m| ensures m[k].offset + m[k].longueur <= Total(m) {
      if k < |m| - 1 {
        Ordered(m, |below|, k, |m| - 1);
      }
    }
  }
}
