/** A damaged device and the file it is copied to. */
module Devices {

  /** How many bytes can be read in a row from p, at most n. */
  function Run(ok: seq<bool>, p: nat, n: nat): (r: nat)
    ensures r <= n && (p + r <= |ok| || r == 0)
    decreases n
  {
    if n == 0 || p >= |ok| || !ok[p] then 0 else 1 + Run(ok, p + 1, n - 1)
  }

  /** b is the first byte from p on that cannot be read. */
  ghost predicate NextBad(ok: seq<bool>, p: nat, b: nat) {
    p <= b < |ok| && !ok[b] && forall i :: p <= i < b ==> ok[i]
  }

  /** All the bytes from p to q can be read. */
  ghost predicate Readable(ok: seq<bool>, p: nat, q: nat) {
    p <= q <= |ok| && forall i :: p <= i < q ==> ok[i]
  }

  lemma {:induction false} RunMeans(ok: seq<bool>, p: nat, n: nat)
    requires p <= |ok|
    ensures var r := Run(ok, p, n); Readable(ok, p, p + r) && (r < n && p + r < |ok| ==> NextBad(ok, p, p + r))
    decreases n
  {
    if n > 0 && p < |ok| && ok[p] {
      RunMeans(ok, p + 1, n - 1);
    }
  }

  lemma RunTo(ok: seq<bool>, p: nat, b: nat, n: nat)
    requires NextBad(ok, p, b)
    ensures Run(ok, p, n) == if n <= b - p then n else b - p
  {
    RunMeans(ok, p, n);
    var r := Run(ok, p, n);
    assert p + r <= b;
  }

  /** How many bytes the device gives when asked for n at p, if it can; 0, as in an empty
      table, when it gives either all of them or none. */
  type Gives = seq<seq<nat>>

  function Given(gives: Gives, p: nat, n: nat): nat {
    if p < |gives| && n < |gives[p]| then gives[p][n] else 0
  }

  /** What read(2) answers: the end, an error, or any number of bytes up to the bad one. An
      error means that some byte asked for is bad. */
  function Answer(ok: seq<bool>, gives: Gives, p: nat, n: nat): (lu: int)
    ensures lu > 0 ==> lu <= n && p + lu <= |ok|
  {
    if p >= |ok| then 0
    else
      var m := if p + n <= |ok| then n else |ok| - p;
      var r := Run(ok, p, m);
      if 1 <= Given(gives, p, n) <= r then Given(gives, p, n) else if r == m then m else -1
  }

  /** What is read is readable, and an error announces a bad byte. */
  lemma AnswerMeans(ok: seq<bool>, gives: Gives, p: nat, n: nat) returns (b: nat)
    requires p <= |ok| && n > 0
    ensures var lu := Answer(ok, gives, p, n);
            && (lu == 0 <==> p == |ok|)
            && (lu > 0 ==> Readable(ok, p, p + lu))
            && (lu < 0 ==> NextBad(ok, p, b) && b < p + n)
  {
    var m := if p + n <= |ok| then n else |ok| - p;
    RunMeans(ok, p, m);
    b := p + Run(ok, p, m);
  }

  lemma AnswerBeforeBad(ok: seq<bool>, gives: Gives, p: nat, b: nat, n: nat)
    requires NextBad(ok, p, b) && n > 0
    ensures var lu := Answer(ok, gives, p, n);
            if lu > 0 then NextBad(ok, p + lu, b) else lu == -1 && b < p + n
  {
    RunTo(ok, p, b, if p + n <= |ok| then n else |ok| - p);
  }

  /** What a read of one byte answers. */
  lemma OneByte(ok: seq<bool>, gives: Gives, p: nat)
    ensures Answer(ok, gives, p, 1) == if p >= |ok| then 0 else if ok[p] then 1 else -1
  {
    if p < |ok| {
      assert Run(ok, p, 1) == if ok[p] then 1 + Run(ok, p + 1, 0) else 0;
    }
  }

  class Source {
    const content: seq<bv8>
    const ok: seq<bool>
    const gives: Gives
    var pos: nat

    ghost predicate Valid() { |ok| == |content| }

    constructor (content: seq<bv8>, ok: seq<bool>, gives: Gives)
      requires |ok| == |content|
      ensures Valid() && this.content == content && this.ok == ok && this.gives == gives && pos == 0
    {
      this.content, this.ok, this.gives, pos := content, ok, gives, 0;
    }

    method Read(n: nat) returns (lu: int, bytes: seq<bv8>)
      requires Valid()
      modifies this
      ensures lu == Answer(ok, gives, old(pos), n)
      ensures pos == old(pos) + |bytes| && |bytes| == if lu > 0 then lu else 0
      ensures lu > 0 ==> pos <= |content| && bytes == content[old(pos)..pos]
    {
      lu := Answer(ok, gives, pos, n);
      bytes := if lu > 0 then content[pos..pos + lu] else [];
      pos := pos + |bytes|;
    }
  }

  /** A new file: the bytes written, by offset; the rest are holes. */
  class Destination {
    const maxWrite: nat  // how many bytes one call of write may take
    var cells: map<nat, bv8>
    var pos: nat

    constructor (maxWrite: nat)
      requires maxWrite > 0
      ensures this.maxWrite == maxWrite && cells == map[] && pos == 0
    {
      this.maxWrite, cells, pos := maxWrite, map[], 0;
    }

    method Write(bytes: seq<bv8>) returns (n: nat)
      modifies this
      ensures n == if |bytes| <= maxWrite then |bytes| else maxWrite
      ensures pos == old(pos) + n && Put(cells, old(cells), old(pos), bytes[..n])
    {
      n := if |bytes| <= maxWrite then |bytes| else maxWrite;
      var p, taken := pos, bytes[..n];
      cells := cells + map i: nat {:trigger ByteAt(p, taken, i)} | p <= i < p + n :: ByteAt(p, taken, i);
      pos := pos + n;
      assert forall i: nat {:trigger i in cells} :: p <= i < p + n ==> ByteAt(p, taken, i) == taken[i - p];
    }
  }

  function ByteAt(p: nat, bytes: seq<bv8>, i: nat): bv8
    requires p <= i < p + |bytes|
  {
    bytes[i - p]
  }

  /** now is cells, with the bytes put from p on. */
  ghost predicate Put(now: map<nat, bv8>, cells: map<nat, bv8>, p: nat, bytes: seq<bv8>) {
    forall i: nat {:trigger i in now} {:trigger now[i]} ::
      && (i in now <==> i in cells || p <= i < p + |bytes|)
      && (i in now ==> now[i] == if p <= i < p + |bytes| then bytes[i - p] else cells[i])
  }

  lemma PutTwice(last: map<nat, bv8>, now: map<nat, bv8>, cells: map<nat, bv8>, p: nat, a: seq<bv8>, b: seq<bv8>)
    requires Put(now, cells, p, a) && Put(last, now, p + |a|, b)
    ensures Put(last, cells, p, a + b)
  {
  }

  lemma PutNothing(cells: map<nat, bv8>, p: nat)
    ensures Put(cells, cells, p, [])
  {
  }

  /** Writes all the bytes, in as many calls as it takes. */
  method WriteAll(dst: Destination, buffer: seq<bv8>)
    requires dst.maxWrite > 0
    modifies dst
    ensures dst.pos == old(dst.pos) + |buffer| && Put(dst.cells, old(dst.cells), old(dst.pos), buffer)
  {
    ghost var cells, p, done := dst.cells, dst.pos, [];
    var rest := buffer;
    PutNothing(cells, p);
    while rest != []
      invariant done + rest == buffer && dst.pos == p + |done| && Put(dst.cells, cells, p, done)
      decreases |rest|
    {
      ghost var now := dst.cells;
      var tmp := dst.Write(rest);
      PutTwice(dst.cells, now, cells, p, done, rest[..tmp]);
      TakeSome(done, rest, tmp);
      done, rest := done + rest[..tmp], rest[tmp..];
    }
    assert done + [] == done;
  }

  lemma TakeSome(done: seq<bv8>, rest: seq<bv8>, n: nat)
    requires n <= |rest|
    ensures (done + rest[..n]) + rest[n..] == done + rest
  {
  }
}
