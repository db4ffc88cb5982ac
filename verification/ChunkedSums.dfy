/** Checksums of streams given in pieces: independence of the cutting and of the order, and
    which differences are always detected. */
module ChunkedSums {
  import opened CyclicSums
  import opened Checksums

  /** A piece of a stream, given with its offset. */
  datatype Chunk = Chunk(offset: nat, bytes: seq<bv8>)

  ghost predicate PieceOf(stream: seq<bv8>, ch: Chunk) {
    ch.offset + |ch.bytes| <= |stream| && stream[ch.offset..ch.offset + |ch.bytes|] == ch.bytes
  }

  /** The cells after all the pieces, in the order of the calls. */
  function AbsorbAll(c: seq<bv8>, chunks: seq<Chunk>): (r: seq<bv8>)
    requires c != []
    ensures |r| == |c|
  {
    if chunks == [] then c
    else
      var ch := chunks[|chunks| - 1];
      Absorb(AbsorbAll(c, chunks[..|chunks| - 1]), ch.offset % |c|, ch.bytes)
  }

  /** How many pieces hold the position t. */
  function Cover(chunks: seq<Chunk>, t: nat): nat {
    if chunks == [] then 0
    else
      var ch := chunks[|chunks| - 1];
      Cover(chunks[..|chunks| - 1], t) + if ch.offset <= t < ch.offset + |ch.bytes| then 1 else 0
  }

  /** What the checksum sees of the stream: the bytes given an odd number of times. */
  function Seen(stream: seq<bv8>, chunks: seq<Chunk>): (r: seq<bv8>)
    ensures |r| == |stream|
  {
    seq(|stream|, t requires 0 <= t < |stream| => if Cover(chunks, t) % 2 == 1 then stream[t] else 0)
  }

  /** A piece at its place among zeros. */
  function Placed(n: nat, ch: Chunk): (r: seq<bv8>)
    requires ch.offset + |ch.bytes| <= n
    ensures |r| == n
  {
    Zeros(ch.offset) + ch.bytes + Zeros(n - ch.offset - |ch.bytes|)
  }

  lemma XorOfZeros(n: nat, w: nat, s: nat, i: nat)
    requires w > 0
    ensures XorAt(Zeros(n), w, s, i) == 0
  {
    XorOnly(Zeros(n), w, s, i, n);
  }

  lemma XorOfPlaced(n: nat, ch: Chunk, w: nat, i: nat)
    requires w > 0 && ch.offset + |ch.bytes| <= n
    ensures XorAt(Placed(n, ch), w, 0, i) == XorAt(ch.bytes, w, ch.offset % w, i)
  {
    var a, b, z := Zeros(ch.offset), ch.bytes, Zeros(n - ch.offset - |ch.bytes|);
    XorConcat(a + b, z, w, 0, i);
    XorConcat(a, b, w, 0, i);
    XorOfZeros(ch.offset, w, 0, i);
    XorOfZeros(|z|, w, Cell(0, |a + b|, w), i);
    var m := XorAt(b, w, ch.offset % w, i);
    XorLaws(m, 0, 0);
    XorLaws(0, m, 0);
  }

  lemma SeenMore(stream: seq<bv8>, chunks: seq<Chunk>, ch: Chunk)
    requires PieceOf(stream, ch)
    ensures Seen(stream, chunks + [ch]) == XorBytes(Seen(stream, chunks), Placed(|stream|, ch))
  {
    assert (chunks + [ch])[..|chunks|] == chunks;
    var p := Placed(|stream|, ch);
    forall t | 0 <= t < |stream| ensures Seen(stream, chunks + [ch])[t] == Seen(stream, chunks)[t] ^ p[t] {
      var here := ch.offset <= t < ch.offset + |ch.bytes|;
      assert p[t] == if here then stream[t] else 0 by {
        if here {
          assert stream[ch.offset..ch.offset + |ch.bytes|][t - ch.offset] == stream[t];
        }
      }
      Toggle(Cover(chunks, t), here, stream[t]);
    }
  }

  lemma Toggle(n: nat, more: bool, b: bv8)
    ensures (if (n + if more then 1 else 0) % 2 == 1 then b else 0) ==
              (if n % 2 == 1 then b else 0) ^ (if more then b else 0)
  {
    XorLaws(b, 0, 0);
    XorLaws(0, b, 0);
  }

  /** In any order and with any cutting, the cells only depend on which bytes were given an
      odd number of times. */
  lemma {:induction false} AbsorbAllIsSeen(c: seq<bv8>, stream: seq<bv8>, chunks: seq<Chunk>)
    requires c != [] && forall k :: 0 <= k < |chunks| ==> PieceOf(stream, chunks[k])
    ensures AbsorbAll(c, chunks) == Absorb(c, 0, Seen(stream, chunks))
    decreases |chunks|
  {
    var w := |c|;
    if chunks == [] {
      assert Seen(stream, []) == Zeros(|stream|);
      forall i | 0 <= i < w ensures Absorb(c, 0, Seen(stream, []))[i] == c[i] {
        XorOfZeros(|stream|, w, 0, i);
        XorLaws(c[i], 0, 0);
      }
    } else {
      var n := |chunks| - 1;
      var pre, ch := chunks[..n], chunks[n];
      assert chunks == pre + [ch];
      AbsorbAllIsSeen(c, stream, pre);
      SeenMore(stream, pre, ch);
      forall i | 0 <= i < w ensures AbsorbAll(c, chunks)[i] == Absorb(c, 0, Seen(stream, chunks))[i] {
        XorLinear(Seen(stream, pre), Placed(|stream|, ch), w, 0, i);
        XorOfPlaced(|stream|, ch, w, i);
        XorLaws(c[i], XorAt(Seen(stream, pre), w, 0, i), XorAt(ch.bytes, w, ch.offset % w, i));
      }
    }
  }

  lemma AllSeen(stream: seq<bv8>, chunks: seq<Chunk>)
    requires forall t :: 0 <= t < |stream| ==> Cover(chunks, t) == 1
    ensures Seen(stream, chunks) == stream
  {
  }

  lemma SumOfStream(stream: seq<bv8>, w: nat, i: nat)
    requires i < w
    ensures Absorb(Zeros(w), 0, stream)[i] == XorAt(stream, w, 0, i)
  {
    XorLaws(XorAt(stream, w, 0, i), 0, 0);
  }

  /** Pieces that hold each position of the stream once give the checksum of the stream:
      the cell i is the exclusive or of the bytes at positions congruent to i. */
  lemma TilingGivesTheSum(stream: seq<bv8>, chunks: seq<Chunk>, w: nat, i: nat)
    requires i < w && forall k :: 0 <= k < |chunks| ==> PieceOf(stream, chunks[k])
    requires forall t :: 0 <= t < |stream| ==> Cover(chunks, t) == 1
    ensures AbsorbAll(Zeros(w), chunks)[i] == XorAt(stream, w, 0, i)
  {
    AbsorbAllIsSeen(Zeros(w), stream, chunks);
    AllSeen(stream, chunks);
    SumOfStream(stream, w, i);
  }

  /** Giving all the pieces to the byte-wise object. */
  method SumByBytes(chunks: seq<Chunk>, width: nat) returns (cells: seq<bv8>)
    requires width > 0
    ensures cells == AbsorbAll(Zeros(width), chunks)
  {
    var crc := new CrcI(width);
    for k := 0 to |chunks|
      invariant crc.Valid() && crc.size == width && crc.cyclic == AbsorbAll(Zeros(width), chunks[..k])
    {
      assert chunks[..k + 1][..k] == chunks[..k];
      crc.ComputeAt(chunks[k].offset, chunks[k].bytes);
    }
    assert chunks[..|chunks|] == chunks;
    cells := crc.cyclic;
  }

  /** Giving them to the word-wise object, wherever each buffer is in memory: the same cells. */
  method SumByWords(chunks: seq<Chunk>, addresses: seq<nat>, width: nat) returns (cells: seq<bv8>)
    requires width > 0 && |addresses| == |chunks|
    ensures cells == AbsorbAll(Zeros(width), chunks)
  {
    var crc := new CrcN(width);
    for k := 0 to |chunks|
      invariant crc.Valid() && crc.size == width && crc.cyclic[..] == AbsorbAll(Zeros(width), chunks[..k])
      invariant fresh(crc) && fresh(crc.cyclic)
    {
      assert chunks[..k + 1][..k] == chunks[..k];
      crc.ComputeAt(chunks[k].offset, chunks[k].bytes, addresses[k]);
    }
    assert chunks[..|chunks|] == chunks;
    cells := crc.cyclic[..];
  }

  // ----- which differences are detected

  /** Positions less than a turn apart go to different cells. */
  lemma CellsDiffer(s: nat, t: nat, j: nat, w: nat)
    requires 0 < j < w
    ensures Cell(s, t + j, w) != Cell(s, t, w)
  {
    var c := Cell(s, t, w);
    CellFrom(s, t, j, w);
    if c + j < w {
      CellRun(c, j, w);
    } else {
      assert c + j == w * 1 + (c + j - w);
      ModUnique(c + j, w, 1, c + j - w);
    }
  }

  /** Two streams of one length that differ only inside a window of as many bytes as the
      checksum has never have the same checksum. */
  lemma BurstDetected(c: seq<bv8>, s: nat, a: seq<bv8>, b: seq<bv8>, from: nat)
    requires c != [] && |a| == |b| && a != b
    requires forall t :: 0 <= t < |a| && a[t] != b[t] ==> from <= t < from + |c|
    ensures Absorb(c, s, a) != Absorb(c, s, b)
  {
    var w, d := |c|, XorBytes(a, b);
    var t :| 0 <= t < |a| && a[t] != b[t];
    var i := Cell(s, t, w);
    forall u {:trigger d[u]} | 0 <= u < |d| && u != t && Cell(s, u, w) == i ensures d[u] == 0 {
      XorLaws(a[u], 0, 0);
      if a[u] != b[u] {
        CellsDiffer(s, if u < t then u else t, if u < t then t - u else u - t, w);
      }
    }
    XorOnly(d, w, s, i, t);
    XorLinear(a, b, w, s, i);
    NotEqual(a[t], b[t], XorAt(a, w, s, i), XorAt(b, w, s, i), c[i]);
    assert Absorb(c, s, a)[i] != Absorb(c, s, b)[i];
  }

  lemma NotEqual(x: bv8, y: bv8, p: bv8, q: bv8, c: bv8)
    requires x != y && p ^ q == x ^ y
    ensures c ^ p != c ^ q
  {
  }

  /** The bound is tight: one byte more in the window, and some difference is missed. */
  lemma BurstBoundIsTight(w: nat, s: nat, c: seq<bv8>) returns (a: seq<bv8>, b: seq<bv8>)
    requires w > 0 && |c| == w
    ensures |a| == |b| == w + 1 && a != b && Absorb(c, s, a) == Absorb(c, s, b)
  {
    var z := Zeros(w - 1);
    a, b := [1] + z + [1], Zeros(w + 1);
    assert a[0] != b[0];
    CellFrom(s, 0, w, w);
    FullTurn(s, w);
    forall i | 0 <= i < w ensures Absorb(c, s, a)[i] == Absorb(c, s, b)[i] {
      XorOfZeros(w + 1, w, s, i);
      XorConcat([1] + z, [1], w, s, i);
      XorConcat([1], z, w, s, i);
      XorOfZeros(w - 1, w, Cell(s, 1, w), i);
      XorOfOne(w, s, i);
      XorOfOne(w, Cell(s, w, w), i);
      XorLaws(Into(Cell(s, 0, w), i, 1), 0, 0);
    }
  }

  lemma FullTurn(s: nat, w: nat)
    requires w > 0
    ensures Cell(s, w, w) == Cell(s, 0, w)
  {
    var c := Cell(s, 0, w);
    CellFrom(s, 0, w, w);
    assert c + w == w * 1 + c;
    ModUnique(c + w, w, 1, c);
  }

  lemma XorOfOne(w: nat, s: nat, i: nat)
    requires w > 0
    ensures XorAt([1], w, s, i) == Into(Cell(s, 0, w), i, 1)
  {
    XorPush([], 1, w, s, i);
    assert [] + [1] == [1 as bv8];
    XorLaws(0, Into(Cell(s, 0, w), i, 1), 0);
  }
}
