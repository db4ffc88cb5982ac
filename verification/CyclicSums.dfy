/** The cyclic checksum: what each cell is, as a function of the bytes of a stream. */
module CyclicSums {

  /** The cell of the byte that comes t bytes after the cell s, in a checksum of w cells. */
  function Cell(s: nat, t: nat, w: nat): (c: nat)
    requires w > 0
    ensures c < w
  {
    (s + t) % w
  }

  /** The exclusive or of the bytes that fall in the cell i. */
  function XorAt(x: seq<bv8>, w: nat, s: nat, i: nat): bv8
    requires w > 0
  {
    if x == [] then 0
    else XorAt(x[..|x| - 1], w, s, i) ^ Into(Cell(s, |x| - 1, w), i, x[|x| - 1])
  }

  /** The part of the cell i taken by a byte that goes to the cell c. */
  function Into(c: nat, i: nat, b: bv8): bv8 {
    if c == i then b else 0
  }

  /** The cells c after the bytes x, the first of which goes to the cell s. */
  function Absorb(c: seq<bv8>, s: nat, x: seq<bv8>): (r: seq<bv8>)
    requires c != []
    ensures |r| == |c|
  {
    seq(|c|, i requires 0 <= i < |c| => c[i] ^ XorAt(x, |c|, s, i))
  }

  // ----- arithmetic of cells

  lemma ModUnique(x: nat, w: nat, q: int, r: nat)
    requires w > 0 && x == w * q + r && r < w
    ensures x % w == r
  {
    var d := x / w - q;
    assert x == w * (x / w) + x % w;
    assert w * d == r - x % w;
    Multiples(w, d);
  }

  lemma Multiples(w: nat, d: int)
    ensures d >= 1 ==> w * d >= w
    ensures d <= -1 ==> w * d <= 0 - w
  {
  }

  /** The pointer moves to the next cell, or back to the first. */
  lemma CellNext(s: nat, t: nat, w: nat)
    requires w > 0
    ensures Cell(s, t + 1, w) == if Cell(s, t, w) + 1 == w then 0 else Cell(s, t, w) + 1
  {
    var x, c := s + t, Cell(s, t, w);
    assert x == w * (x / w) + c;
    if c + 1 == w {
      assert w * (x / w + 1) == w * (x / w) + w;
      ModUnique(x + 1, w, x / w + 1, 0);
    } else {
      ModUnique(x + 1, w, x / w, c + 1);
    }
  }

  lemma CellStart(s: nat, w: nat)
    requires w > 0 && s < w
    ensures Cell(s, 0, w) == s
  {
  }

  /** Going on from a cell is the same as going on from where it was reached. */
  lemma {:induction false} CellFrom(s: nat, a: nat, t: nat, w: nat)
    requires w > 0
    ensures Cell(Cell(s, a, w), t, w) == Cell(s, a + t, w)
    decreases t
  {
    if t == 0 {
      CellStart(Cell(s, a, w), w);
    } else {
      CellFrom(s, a, t - 1, w);
      CellNext(Cell(s, a, w), t - 1, w);
      CellNext(s, a + t - 1, w);
    }
  }

  /** Within a turn the cells are consecutive. */
  lemma {:induction false} CellRun(s: nat, j: nat, w: nat)
    requires s + j < w
    ensures Cell(s, j, w) == s + j
    decreases j
  {
    if j == 0 {
      CellStart(s, w);
    } else {
      CellRun(s, j - 1, w);
      CellNext(s, j - 1, w);
    }
  }

  // ----- algebra of exclusive or

  lemma XorLaws(a: bv8, b: bv8, c: bv8)
    ensures a ^ b == b ^ a && (a ^ b) ^ c == a ^ (b ^ c) && a ^ 0 == a && a ^ a == 0
  {
  }

  lemma XorPush(x: seq<bv8>, b: bv8, w: nat, s: nat, i: nat)
    requires w > 0
    ensures XorAt(x + [b], w, s, i) == XorAt(x, w, s, i) ^ Into(Cell(s, |x|, w), i, b)
  {
    assert (x + [b])[..|x|] == x;
  }

  lemma {:induction false} XorConcat(x: seq<bv8>, y: seq<bv8>, w: nat, s: nat, i: nat)
    requires w > 0
    ensures XorAt(x + y, w, s, i) == XorAt(x, w, s, i) ^ XorAt(y, w, Cell(s, |x|, w), i)
    decreases |y|
  {
    if y == [] {
      assert x + y == x;
      XorLaws(XorAt(x, w, s, i), 0, 0);
    } else {
      var n := |y| - 1;
      var f, b := y[..n], y[n];
      assert y == f + [b] && x + y == (x + f) + [b];
      XorConcat(x, f, w, s, i);
      XorPush(x + f, b, w, s, i);
      XorPush(f, b, w, Cell(s, |x|, w), i);
      CellFrom(s, |x|, n, w);
      XorLaws(XorAt(x, w, s, i), XorAt(f, w, Cell(s, |x|, w), i), Into(Cell(s, |x| + n, w), i, b));
    }
  }

  /** Absorbing in two parts, the second from where the first stopped. */
  lemma AbsorbConcat(c: seq<bv8>, s: nat, x: seq<bv8>, y: seq<bv8>)
    requires c != []
    ensures Absorb(Absorb(c, s, x), Cell(s, |x|, |c|), y) == Absorb(c, s, x + y)
  {
    forall i | 0 <= i < |c| ensures Absorb(Absorb(c, s, x), Cell(s, |x|, |c|), y)[i] == Absorb(c, s, x + y)[i] {
      XorConcat(x, y, |c|, s, i);
      XorLaws(c[i], XorAt(x, |c|, s, i), XorAt(y, |c|, Cell(s, |x|, |c|), i));
    }
  }

  lemma AbsorbNothing(c: seq<bv8>, s: nat)
    requires c != []
    ensures Absorb(c, s, []) == c
  {
  }

  /** One byte changes one cell. */
  lemma AbsorbByte(c: seq<bv8>, s: nat, b: bv8)
    requires s < |c|
    ensures Absorb(c, s, [b]) == c[s := c[s] ^ b]
  {
    CellStart(s, |c|);
    forall i | 0 <= i < |c| ensures Absorb(c, s, [b])[i] == c[s := c[s] ^ b][i] {
      assert [b][..0] == [];
      assert XorAt([b], |c|, s, i) == XorAt([], |c|, s, i) ^ (if s == i then b else 0);
    }
  }

  /** The cells with the bytes x combined in place from s on. */
  function Overlay(c: seq<bv8>, s: nat, x: seq<bv8>): (r: seq<bv8>)
    requires s + |x| <= |c|
  {
    seq(|c|, i requires 0 <= i < |c| => if s <= i < s + |x| then c[i] ^ x[i - s] else c[i])
  }

  /** Bytes that fit before the last cell are combined one cell each. */
  lemma {:induction false} AbsorbRun(c: seq<bv8>, s: nat, x: seq<bv8>)
    requires c != [] && s + |x| <= |c|
    ensures Absorb(c, s, x) == Overlay(c, s, x)
    decreases |x|
  {
    if x == [] {
      assert Overlay(c, s, x) == c;
      AbsorbNothing(c, s);
    } else {
      var n := |x| - 1;
      var f, b := x[..n], x[n];
      assert x == f + [b];
      AbsorbRun(c, s, f);
      CellRun(s, n, |c|);
      AbsorbConcat(c, s, f, [b]);
      AbsorbByte(Overlay(c, s, f), s + n, b);
      OverlayPush(c, s, f, b);
    }
  }

  lemma OverlayPush(c: seq<bv8>, s: nat, f: seq<bv8>, b: bv8)
    requires s + |f| < |c|
    ensures Overlay(c, s, f)[s + |f| := Overlay(c, s, f)[s + |f|] ^ b] == Overlay(c, s, f + [b])
  {
  }

  // ----- linearity

  function XorBytes(x: seq<bv8>, y: seq<bv8>): (r: seq<bv8>)
    requires |x| == |y|
    ensures |r| == |x|
  {
    seq(|x|, i requires 0 <= i < |x| => x[i] ^ y[i])
  }

  lemma XorBytesPush(f: seq<bv8>, b: bv8, g: seq<bv8>, c: bv8)
    requires |f| == |g|
    ensures XorBytes(f + [b], g + [c]) == XorBytes(f, g) + [b ^ c]
  {
  }

  lemma XorLinearPush(f: seq<bv8>, b: bv8, g: seq<bv8>, c: bv8, w: nat, s: nat, i: nat)
    requires w > 0 && |f| == |g|
    requires XorAt(XorBytes(f, g), w, s, i) == XorAt(f, w, s, i) ^ XorAt(g, w, s, i)
    ensures XorAt(XorBytes(f + [b], g + [c]), w, s, i) == XorAt(f + [b], w, s, i) ^ XorAt(g + [c], w, s, i)
  {
    XorBytesPush(f, b, g, c);
    XorPush(f, b, w, s, i);
    XorPush(g, c, w, s, i);
    XorPush(XorBytes(f, g), b ^ c, w, s, i);
    IntoLinear(XorAt(f, w, s, i), XorAt(g, w, s, i), Cell(s, |f|, w), i, b, c);
  }

  lemma {:induction false} XorLinear(x: seq<bv8>, y: seq<bv8>, w: nat, s: nat, i: nat)
    requires w > 0 && |x| == |y|
    ensures XorAt(XorBytes(x, y), w, s, i) == XorAt(x, w, s, i) ^ XorAt(y, w, s, i)
    decreases |x|
  {
    if x == [] {
      assert XorBytes(x, y) == [] && y == [];
      XorLaws(0, 0, 0);
    } else {
      var n := |x| - 1;
      var f, g, b, c := x[..n], y[..n], x[n], y[n];
      assert x == f + [b];
      assert y == g + [c];
      XorLinear(f, g, w, s, i);
      XorLinearPush(f, b, g, c, w, s, i);
    }
  }

  lemma IntoLinear(a: bv8, b: bv8, c: nat, i: nat, x: bv8, y: bv8)
    ensures (a ^ b) ^ Into(c, i, x ^ y) == (a ^ Into(c, i, x)) ^ (b ^ Into(c, i, y))
  {
    FourXor(a, b, x, y);
  }

  lemma FourXor(a: bv8, b: bv8, c: bv8, d: bv8)
    ensures (a ^ b) ^ (c ^ d) == (a ^ c) ^ (b ^ d)
    ensures (a ^ b) ^ 0 == (a ^ 0) ^ (b ^ 0)
  {
  }

  function Zeros(n: nat): (r: seq<bv8>)
    ensures |r| == n && forall i :: 0 <= i < n ==> r[i] == 0
  {
    seq(n, _ => 0)
  }

  /** A cell none of whose positions holds a non-zero byte, but maybe t. */
  lemma {:induction false} XorOnly(x: seq<bv8>, w: nat, s: nat, i: nat, t: nat)
    requires w > 0
    requires forall u {:trigger x[u]} :: 0 <= u < |x| && u != t && Cell(s, u, w) == i ==> x[u] == 0
    ensures XorAt(x, w, s, i) == if t < |x| then Into(Cell(s, t, w), i, x[t]) else 0
    decreases |x|
  {
    if x != [] {
      var n := |x| - 1;
      XorOnly(x[..n], w, s, i, t);
      XorLaws(XorAt(x[..n], w, s, i), 0, 0);
      XorLaws(0, Into(Cell(s, n, w), i, x[n]), 0);
    }
  }
}
