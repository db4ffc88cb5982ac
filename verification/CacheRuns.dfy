/** Whole runs of the cache, beside the same operations on the file itself. */
module CacheRuns {
  import opened PlainFiles
  import opened Caching

  datatype Op =
    | Read(n: nat)
    | Write(bytes: seq<bv8>)
    | Skip(p: nat)
    | SkipToEof
    | SkipRelative(x: int)
    | Sync

  /** One operation on the file, and the bytes it returns. */
  function Direct(f: File, op: Op): (File, seq<bv8>) {
    match op
    case Read(n) => var b := ReadOf(f, n); (f.(pos := f.pos + |b|), b)
    case Write(d) => (WriteOf(f, d), [])
    case Skip(p) => (f.(pos := p), [])
    case SkipToEof => (f.(pos := |f.content|), [])
    case SkipRelative(x) => (MovedBy(f, x), [])
    case Sync => (f, [])
  }

  function DirectRun(f: File, ops: seq<Op>): (File, seq<seq<bv8>>)
    decreases |ops|
  {
    if ops == [] then (f, [])
    else
      var a := Direct(f, ops[0]);
      var b := DirectRun(a.0, ops[1..]);
      (b.0, [a.1] + b.1)
  }

  /** Whether the last bytes asked for were read rather than written. */
  function Reading(before: bool, op: Op): bool {
    match op
    case Read(_) => true
    case Write(_) => false
    case _ => before
  }

  /** After some reading, a write must be done at the end of the file or past it, and a
      relative move must not go before the beginning, unless it is made from there. */
  predicate Orderly(f: File, op: Op, reading: bool) {
    match op
    case Write(_) => !reading || f.pos >= |f.content|
    case SkipRelative(x) => !reading || f.pos + x >= 0 || f.pos == 0
    case _ => true
  }

  /** Whether the file is being read after a run. */
  function ReadingAfter(before: bool, ops: seq<Op>): bool
    decreases |ops|
  {
    if ops == [] then before else ReadingAfter(Reading(before, ops[0]), ops[1..])
  }

  /** Every operation of the run is orderly, where the file is then. */
  ghost predicate AllOrderly(f: File, ops: seq<Op>, reading: bool)
    decreases |ops|
  {
    ops == [] ||
    (Orderly(f, ops[0], reading) && AllOrderly(Direct(f, ops[0]).0, ops[1..], Reading(reading, ops[0])))
  }

  /** One more operation at the end of a run. */
  lemma {:induction false} RunPush(f: File, a: seq<Op>, op: Op, reading: bool)
    ensures var r := DirectRun(f, a);
            var one := Direct(r.0, op);
            && DirectRun(f, a + [op]) == (one.0, r.1 + [one.1])
            && ReadingAfter(reading, a + [op]) == Reading(ReadingAfter(reading, a), op)
    decreases |a|
  {
    if a == [] {
      assert a + [op] == [op] && [op][1..] == [];
      var one := Direct(f, op);
      assert DirectRun(one.0, []) == (one.0, []) && [one.1] + [] == [one.1] && [] + [one.1] == [one.1];
    } else {
      assert (a + [op])[0] == a[0] && (a + [op])[1..] == a[1..] + [op];
      var first := Direct(f, a[0]);
      RunPush(first.0, a[1..], op, Reading(reading, a[0]));
      var r := DirectRun(first.0, a[1..]);
      Regroup([first.1], Direct(r.0, op).1, r.1);
    }
  }

  lemma Regroup<T>(a: seq<T>, b: T, c: seq<T>)
    ensures a + (c + [b]) == a + c + [b]
  {
  }

  /** An operation of an orderly run is orderly. */
  lemma {:induction false} OrderlyAt(f: File, ops: seq<Op>, reading: bool, k: nat)
    requires AllOrderly(f, ops, reading) && k < |ops|
    ensures Orderly(DirectRun(f, ops[..k]).0, ops[k], ReadingAfter(reading, ops[..k]))
    decreases |ops|
  {
    if k > 0 {
      assert ops[..k][0] == ops[0] && ops[..k][1..] == ops[1..][..k - 1];
      OrderlyAt(Direct(f, ops[0]).0, ops[1..], Reading(reading, ops[0]), k - 1);
    }
  }

  /** One may write after a read that came short. */
  lemma ShortRead(f: File, n: nat, bytes: seq<bv8>)
    requires |Direct(f, Read(n)).1| < n
    ensures Orderly(Direct(f, Read(n)).0, Write(bytes), Reading(false, Read(n)))
  {
  }

  /** At the end of the file, nothing is read ahead. */
  lemma NothingAhead(c: Cache)
    requires c.Valid() && c.readMode && c.currentPosition >= |c.file.content|
    ensures c.next == c.last
  {
  }

  method Step(c: Cache, op: Op) returns (bytes: seq<bv8>)
    requires c.Valid() && c.Roomy() && c.readable && c.writable && Orderly(c.View(), op, c.readMode)
    modifies c, c.file, c.buffer
    ensures c.Valid() && c.Roomy() && (c.buffer == old(c.buffer) || fresh(c.buffer))
    ensures (c.View(), bytes) == Direct(old(c.View()), op)
    ensures c.readMode == Reading(old(c.readMode), op)
    ensures op == Sync && !c.readMode ==> c.file.View() == c.View()
  {
    bytes := [];
    var ok;
    match op
    case Read(n) => bytes := c.InheritedRead(n);
    case Write(d) =>
      if c.readMode {
        NothingAhead(c);
      }
      c.InheritedWrite(d);
    case Skip(p) => ok := c.Skip(p);
    case SkipToEof => ok := c.SkipToEof();
    case SkipRelative(x) => ok := c.SkipRelative(x);
    case Sync => c.FlushWrite();
  }

  /** The file as far as it matters for the order of operations. */
  function Seen(c: Cache): File
    reads c, c.file
  {
    if c.readMode then File(c.file.content, c.currentPosition) else File([], 0)
  }

  lemma SeenIsEnough(c: Cache, op: Op)
    requires c.Valid()
    ensures Orderly(Seen(c), op, c.readMode) == Orderly(c.View(), op, c.readMode)
  {
  }

  /** The next operation of a run. */
  method RunNext(c: Cache, ops: seq<Op>, done: nat, log: seq<seq<bv8>>, ghost f: File, ghost reading: bool)
    returns (more: seq<seq<bv8>>)
    requires c.Valid() && c.Roomy() && c.readable && c.writable
    requires done < |ops| && (c.View(), log) == DirectRun(f, ops[..done]) && Orderly(Seen(c), ops[done], c.readMode)
    requires c.readMode == ReadingAfter(reading, ops[..done])
    modifies c, c.file, c.buffer
    ensures c.Valid() && c.Roomy() && (c.buffer == old(c.buffer) || fresh(c.buffer))
    ensures (c.View(), more) == DirectRun(f, ops[..done + 1]) && c.readMode == ReadingAfter(reading, ops[..done + 1])
  {
    SeenIsEnough(c, ops[done]);
    RunPush(f, ops[..done], ops[done], reading);
    assert ops[..done] + [ops[done]] == ops[..done + 1];
    var bytes := Step(c, ops[done]);
    more := log + [bytes];
  }

  /** Whatever the sizes of the buffer, its growth and the shifting mode, a run through the
      cache returns what the run on the file returns and leaves the file the same once
      flushed, up to the first operation that is not orderly: an orderly run goes to its
      end. */
  method Run(c: Cache, ops: seq<Op>) returns (log: seq<seq<bv8>>, done: nat)
    requires c.Valid() && c.Roomy() && c.readable && c.writable
    modifies c, c.file, c.buffer
    ensures c.Valid() && (c.buffer == old(c.buffer) || fresh(c.buffer))
    ensures done <= |ops| && (c.View(), log) == DirectRun(old(c.View()), ops[..done])
    ensures done < |ops| ==> !Orderly(c.View(), ops[done], c.readMode)
    ensures old(AllOrderly(c.View(), ops, c.readMode)) ==> done == |ops|
    ensures c.file.content == c.View().content
  {
    ghost var f, reading := c.View(), c.readMode;
    log, done := [], 0;
    assert ops[..0] == [];
    while done < |ops| && Orderly(Seen(c), ops[done], c.readMode)
      invariant c.Valid() && c.Roomy() && (c.buffer == old(c.buffer) || fresh(c.buffer))
      invariant done <= |ops| && (c.View(), log) == DirectRun(f, ops[..done])
      invariant c.readMode == ReadingAfter(reading, ops[..done])
      decreases |ops| - done
    {
      log := RunNext(c, ops, done, log, f, reading);
      done := done + 1;
    }
    if done < |ops| {
      SeenIsEnough(c, ops[done]);
      if AllOrderly(f, ops, reading) {
        OrderlyAt(f, ops, reading, done);
      }
    }
    c.FlushWrite();
  }

  /** Orderliness matters: after one byte of a longer file has been read, a write goes to the
      end of what was read ahead. */
  method MisplacedWrite(content: seq<bv8>, b: bv8) returns (f: Fichier)
    requires 2 <= |content| <= 10240
    ensures f.content == content + [b]
    ensures f.content != WriteOf(File(content, 1), [b]).content
    ensures !Orderly(File(content, 1), Write([b]), true)
  {
    f := new Fichier(content);
    var never := Tuning(100, 0, 101);
    var c := new Cache(f, true, true, false, 10240, never, never, 0);
    var first := c.InheritedRead(1);
    assert |first| == 1 && c.file.pos == |content|;
    c.InheritedWrite([b]);
    c.Flush();
  }

  /** So does staying in the file: after one byte has been read, moving back by two gives the
      position 0, but the buffer still stands after its first byte. */
  method MisplacedMove(content: seq<bv8>) returns (c: Cache)
    requires 2 <= |content| <= 10240
    ensures !Orderly(File(content, 1), SkipRelative(-2), true)
    ensures !c.Valid() && c.readMode && c.currentPosition == 0
    ensures c.next == 1 < c.last <= c.buffer.Length && c.buffer[c.next] == content[1]
  {
    var f := new Fichier(content);
    var never := Tuning(100, 0, 101);
    c := new Cache(f, true, true, false, 10240, never, never, 0);
    var first := c.InheritedRead(1);
    SecondByte(c, content);
    var ok := c.SkipRelative(-2);
  }

  /** After one byte, the next one is at its place in the buffer. */
  lemma SecondByte(c: Cache, content: seq<bv8>)
    requires c.Valid() && c.readMode && c.currentPosition == 1 && 0 < c.next && c.file.content == content
    requires c.buffer.Length >= 10240 && 2 <= |content| <= 10240
    ensures c.next == 1 < c.last <= c.buffer.Length && c.buffer[1] == content[1]
  {
    FirstBytes(content, c.last, c.buffer[..c.last]);
    assert c.buffer[..c.last][1] == c.buffer[1];
  }

  lemma FirstBytes(content: seq<bv8>, n: nat, bytes: seq<bv8>)
    requires EndsAt(content, n, bytes) && |bytes| == n >= 2
    ensures |content| >= n && bytes[1] == content[1]
  {
    assert content[0..n][1] == content[1];
  }
}
