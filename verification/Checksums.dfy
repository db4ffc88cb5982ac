/** The checksum objects: the one that works byte by byte, and the one that works on words
    when the buffer happens to be aligned. */
module Checksums {
  import opened CyclicSums

  /** crc_i, over a storage of bytes. */
  class CrcI {
    const size: nat
    var cyclic: seq<bv8>
    var pointer: nat

    ghost predicate Valid()
      reads this
    {
      |cyclic| == size && pointer < size
    }

    constructor (width: nat)
      requires width > 0
      ensures Valid() && size == width && cyclic == Zeros(width) && pointer == 0
    {
      size, cyclic, pointer := width, Zeros(width), 0;
    }

    method Compute(buffer: seq<bv8>)
      requires Valid()
      modifies this
      ensures Valid()
      ensures cyclic == Absorb(old(cyclic), old(pointer), buffer) && pointer == Cell(old(pointer), |buffer|, size)
    {
      ghost var c, s := cyclic, pointer;
      CellStart(s, size);
      AbsorbNothing(c, s);
      for cursor := 0 to |buffer|
        invariant Valid() && cyclic == Absorb(c, s, buffer[..cursor]) && pointer == Cell(s, cursor, size)
      {
        AbsorbNext(c, s, buffer, cursor);
        CellNext(s, cursor, size);
        cyclic := cyclic[pointer := cyclic[pointer] ^ buffer[cursor]];
        pointer := if pointer + 1 == size then 0 else pointer + 1;
      }
      assert buffer[..|buffer|] == buffer;
    }

    /** The same for bytes found at that offset of the stream. */
    method ComputeAt(offset: nat, buffer: seq<bv8>)
      requires Valid()
      modifies this
      ensures Valid() && cyclic == Absorb(old(cyclic), offset % size, buffer)
    {
      pointer := offset % size;
      Compute(buffer);
    }
  }

  lemma AbsorbNext(c: seq<bv8>, s: nat, x: seq<bv8>, n: nat)
    requires s < |c| && n < |x|
    ensures var f, p := Absorb(c, s, x[..n]), Cell(s, n, |c|);
            Absorb(c, s, x[..n + 1]) == f[p := f[p] ^ x[n]]
  {
    assert x[..n + 1] == x[..n] + [x[n]];
    AbsorbConcat(c, s, x[..n], [x[n]]);
    AbsorbByte(Absorb(c, s, x[..n]), Cell(s, n, |c|), x[n]);
  }

  /** Combining one machine word in place. */
  method XorWord(a: array<bv8>, q: nat, word: seq<bv8>)
    requires q + |word| <= a.Length
    modifies a
    ensures a[..] == Overlay(old(a[..]), q, word)
  {
    forall j | q <= j < q + |word| {
      a[j] := a[j] ^ word[j - q];
    }
  }

  lemma WordFits(q: nat, size: nat, k: nat)
    requires k > 0 && q < size && q % k == 0 && size % k == 0
    ensures q + k <= size
    ensures (q + k) % k == 0
  {
    var a, b := q / k, size / k;
    assert q == k * a && size == k * b;
    Multiples(k, b - a);
    assert k * (b - a) == k * b - k * a;
    Multiples(k, a - b);
    assert q + k == k * (a + 1);
    ModUnique(q + k, k, a + 1, 0);
  }

  /** What one word does to the cells and to the pointer. */
  lemma WordStep(c: seq<bv8>, x: seq<bv8>, n: nat, k: nat)
    requires c != [] && 0 < k && n + k <= |x| && Cell(0, n, |c|) + k <= |c|
    ensures Overlay(Absorb(c, 0, x[..n]), Cell(0, n, |c|), x[n..n + k]) == Absorb(c, 0, x[..n + k])
    ensures Cell(0, n + k, |c|) == if Cell(0, n, |c|) + k == |c| then 0 else Cell(0, n, |c|) + k
  {
    var w, q := |c|, Cell(0, n, |c|);
    assert x[..n + k] == x[..n] + x[n..n + k];
    AbsorbConcat(c, 0, x[..n], x[n..n + k]);
    AbsorbRun(Absorb(c, 0, x[..n]), q, x[n..n + k]);
    CellFrom(0, n, k, w);
    CellRun(q, k - 1, w);
    CellNext(q, k - 1, w);
  }

  /** crc_n, over an array of bytes. */
  class CrcN {
    const size: nat
    const cyclic: array<bv8>
    var pointer: nat

    ghost predicate Valid()
      reads this
    {
      cyclic.Length == size && pointer < size
    }

    constructor (width: nat)
      requires width > 0
      ensures Valid() && size == width && cyclic[..] == Zeros(width) && pointer == 0 && fresh(cyclic)
    {
      size, cyclic, pointer := width, new bv8[width](_ => 0), 0;
    }

    /** B_compute_block, on words of k bytes: as many whole words as there are. */
    method ComputeBlock(x: seq<bv8>, k: nat) returns (done: nat)
      requires Valid() && k > 0 && size % k == 0
      modifies cyclic, this`pointer
      ensures Valid() && |x| < done + k && done <= |x|
      ensures cyclic[..] == Absorb(old(cyclic[..]), 0, x[..done]) && pointer == Cell(0, done, size)
    {
      ghost var c := cyclic[..];
      CellStart(0, size);
      AbsorbNothing(c, 0);
      done, pointer := 0, 0;
      while done + k <= |x|
        invariant Valid() && done <= |x| && pointer % k == 0
        invariant cyclic[..] == Absorb(c, 0, x[..done]) && pointer == Cell(0, done, size)
      {
        WordFits(pointer, size, k);
        WordStep(c, x, done, k);
        XorWord(cyclic, pointer, x[done..done + k]);
        done, pointer := done + k, pointer + k;
        if pointer >= size {
          pointer := 0;
        }
      }
    }

    /** T_compute: the bytes one by one. */
    method ComputeBytes(x: seq<bv8>)
      requires Valid()
      modifies cyclic, this`pointer
      ensures Valid()
      ensures cyclic[..] == Absorb(old(cyclic[..]), old(pointer), x) && pointer == Cell(old(pointer), |x|, size)
    {
      ghost var c, s := cyclic[..], pointer;
      CellStart(s, size);
      AbsorbNothing(c, s);
      for cursor := 0 to |x|
        invariant Valid() && cyclic[..] == Absorb(c, s, x[..cursor]) && pointer == Cell(s, cursor, size)
      {
        AbsorbNext(c, s, x, cursor);
        CellNext(s, cursor, size);
        cyclic[pointer] := cyclic[pointer] ^ x[cursor];
        pointer := pointer + 1;
        if pointer == size {
          pointer := 0;
        }
      }
      assert x[..|x|] == x;
    }

    /** The bytes that bring the pointer back to the first cell. */
    method ComputeFirst(x: seq<bv8>) returns (done: nat)
      requires Valid()
      modifies cyclic, this`pointer
      ensures Valid() && done <= |x| && (pointer == 0 || done == |x|)
      ensures cyclic[..] == Absorb(old(cyclic[..]), old(pointer), x[..done])
                && pointer == Cell(old(pointer), done, size)
    {
      ghost var c, s := cyclic[..], pointer;
      done := 0;
      AbsorbNothing(c, s);
      CellStart(s, size);
      if pointer != 0 {
        while pointer != size && done < |x|
          invariant done <= |x| && s + done == pointer <= size
          invariant cyclic[..] == Overlay(c, s, x[..done])
        {
          OverlayPush(c, s, x[..done], x[done]);
          assert x[..done] + [x[done]] == x[..done + 1];
          cyclic[pointer] := cyclic[pointer] ^ x[done];
          done, pointer := done + 1, pointer + 1;
        }
        AbsorbRun(c, s, x[..done]);
        EndOfRun(s, done, size);
        if pointer == size {
          pointer := 0;
        }
      }
    }

    /** n_compute; only the speed depends on the address of the buffer. */
    method Compute(buffer: seq<bv8>, address: nat)
      requires Valid()
      modifies cyclic, this`pointer
      ensures Valid()
      ensures cyclic[..] == Absorb(old(cyclic[..]), old(pointer), buffer)
                && pointer == Cell(old(pointer), |buffer|, size)
    {
      ghost var c, s := cyclic[..], pointer;
      var cursor := ComputeFirst(buffer);
      ghost var p1 := pointer;
      var rest := buffer[cursor..];
      ThreeParts(c, s, buffer, cursor, 0);
      if pointer == 0 && cursor < |buffer| {
        var partial := 0;
        var aligned := address + cursor;
        if size % 8 == 0 && aligned % 8 == 0 {
          partial := ComputeBlock(rest, 8);
        } else if size % 4 == 0 && aligned % 4 == 0 {
          partial := ComputeBlock(rest, 4);
        } else if size % 2 == 0 && aligned % 2 == 0 {
          partial := ComputeBlock(rest, 2);
        } else {
          AbsorbNothing(cyclic[..], 0);
          CellStart(0, size);
        }
        ThreeParts(c, s, buffer, cursor, partial);
        cursor := cursor + partial;
      }
      if cursor < |buffer| {
        ComputeBytes(buffer[cursor..]);
      } else {
        AbsorbNothing(cyclic[..], pointer);
      }
    }

    /** The same for bytes found at that offset of the stream. */
    method ComputeAt(offset: nat, buffer: seq<bv8>, address: nat)
      requires Valid()
      modifies cyclic, this`pointer
      ensures Valid() && cyclic[..] == Absorb(old(cyclic[..]), offset % size, buffer)
    {
      pointer := offset % size;
      Compute(buffer, address);
    }
  }

  lemma EndOfRun(s: nat, n: nat, w: nat)
    requires s < w && s + n <= w
    ensures Cell(s, n, w) == if s + n == w then 0 else s + n
  {
    if s + n == w {
      CellRun(s, n - 1, w);
      CellNext(s, n - 1, w);
    } else {
      CellRun(s, n, w);
    }
  }

  /** A buffer absorbed in three parts. */
  lemma ThreeParts(c: seq<bv8>, s: nat, x: seq<bv8>, i: nat, j: nat)
    requires c != [] && i + j <= |x|
    ensures var w := |c|;
            var a := Absorb(c, s, x[..i]);
            var b := Absorb(a, Cell(s, i, w), x[i..][..j]);
            && Absorb(b, Cell(s, i + j, w), x[i + j..]) == Absorb(c, s, x)
            && Cell(Cell(s, i, w), j, w) == Cell(s, i + j, w)
            && Cell(Cell(s, i + j, w), |x| - i - j, w) == Cell(s, |x|, w)
  {
    var w := |c|;
    assert x[..i + j] == x[..i] + x[i..][..j] && x == x[..i + j] + x[i + j..];
    AbsorbConcat(c, s, x[..i], x[i..][..j]);
    AbsorbConcat(c, s, x[..i + j], x[i + j..]);
    CellFrom(s, i, j, w);
    CellFrom(s, i + j, |x| - i - j, w);
  }
}
