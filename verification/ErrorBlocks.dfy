/** Copying what precedes a bad byte, by blocks that are halved at each error. The bytes
    that one write does not take are lost. */
module ErrorBlocks {
  import opened Devices

  const BUF_SIZE: nat := 1024

  // ----- what is read, what is written

  /** Lengths, one after the other. */
  datatype Parts = End | Part(n: nat, rest: Parts)

  /** The parts read from p on. */
  function PartsFrom(ok: seq<bool>, gives: Gives, p: nat, block: nat): Parts
    decreases block, |ok| - p
  {
    if block <= 1 then End
    else
      var lu := Answer(ok, gives, p, block);
      if lu > 0 then Part(lu, PartsFrom(ok, gives, p + lu, block)) else PartsFrom(ok, gives, p, block / 2)
  }

  /** The parts read by xfer_before_error. */
  function PartsAt(ok: seq<bool>, gives: Gives, p: nat): Parts {
    PartsFrom(ok, gives, p, BUF_SIZE / 2)
  }

  function Sum(parts: Parts): nat {
    match parts
    case End => 0
    case Part(n, rest) => n + Sum(rest)
  }

  function Longest(parts: Parts): nat {
    match parts
    case End => 0
    case Part(n, rest) => if n >= Longest(rest) then n else Longest(rest)
  }

  /** What is written of the parts, when one write takes at most that many bytes. */
  function Written(content: seq<bv8>, p: nat, parts: Parts, most: nat): seq<bv8>
    requires p + Sum(parts) <= |content|
    decreases parts
  {
    match parts
    case End => []
    case Part(n, rest) => Taken(content, p, n, most) + Written(content, p + n, rest, most)
  }

  function Taken(content: seq<bv8>, p: nat, n: nat, most: nat): (r: seq<bv8>)
    requires p + n <= |content|
    ensures |r| == if n <= most then n else most
  {
    content[p..p + if n <= most then n else most]
  }

  /** Nothing is lost exactly when one write takes the longest part read. */
  lemma {:induction false} AllWritten(content: seq<bv8>, p: nat, parts: Parts, most: nat)
    requires p + Sum(parts) <= |content|
    ensures var w := Written(content, p, parts, most);
            && |w| <= Sum(parts)
            && (|w| == Sum(parts) <==> Longest(parts) <= most)
            && (|w| == Sum(parts) ==> w == content[p..p + Sum(parts)])
    decreases parts
  {
    match parts
    case End =>
    case Part(n, rest) =>
      AllWritten(content, p + n, rest, most);
      assert content[p..p + n] + content[p + n..p + n + Sum(rest)] == content[p..p + n + Sum(rest)];
  }

  lemma {:induction false} PartsFit(ok: seq<bool>, gives: Gives, p: nat, block: nat)
    requires p <= |ok|
    ensures p + Sum(PartsFrom(ok, gives, p, block)) <= |ok|
    decreases block, |ok| - p
  {
    if block > 1 {
      var lu := Answer(ok, gives, p, block);
      if lu > 0 {
        PartsFit(ok, gives, p + lu, block);
      } else {
        PartsFit(ok, gives, p, block / 2);
      }
    }
  }

  /** When the reading has come to p and `done` has been written, what remains leads to the
      place `stop` and to all the bytes `all`. */
  ghost predicate Coming(content: seq<bv8>, ok: seq<bool>, gives: Gives, p: nat, block: nat, most: nat,
                         done: seq<bv8>, stop: nat, all: seq<bv8>) {
    && p <= |content| == |ok|
    && p + Sum(PartsFrom(ok, gives, p, block)) == stop <= |content|
    && all == done + Written(content, p, PartsFrom(ok, gives, p, block), most)
  }

  lemma ComingStarts(content: seq<bv8>, ok: seq<bool>, gives: Gives, p: nat, block: nat, most: nat)
    returns (stop: nat, all: seq<bv8>)
    requires p <= |content| == |ok|
    ensures Coming(content, ok, gives, p, block, most, [], stop, all)
    ensures var parts := PartsFrom(ok, gives, p, block);
              stop == p + Sum(parts) && all == Written(content, p, parts, most)
  {
    PartsFit(ok, gives, p, block);
    stop, all := p + Sum(PartsFrom(ok, gives, p, block)), Written(content, p, PartsFrom(ok, gives, p, block), most);
    assert [] + all == all;
  }

  lemma ComingStep(content: seq<bv8>, ok: seq<bool>, gives: Gives, p: nat, block: nat, most: nat,
                   done: seq<bv8>, stop: nat, all: seq<bv8>)
    requires Coming(content, ok, gives, p, block, most, done, stop, all) && block > 1
    ensures var lu := Answer(ok, gives, p, block);
            if lu > 0 then
              Coming(content, ok, gives, p + lu, block, most, done + Taken(content, p, lu, most), stop, all)
            else Coming(content, ok, gives, p, block / 2, most, done, stop, all)
  {
    var lu := Answer(ok, gives, p, block);
    if lu > 0 {
      var rest := PartsFrom(ok, gives, p + lu, block);
      assert PartsFrom(ok, gives, p, block) == Part(lu, rest);
      Regroup(done, Taken(content, p, lu, most), Written(content, p + lu, rest, most));
    }
  }

  lemma ComingEnds(content: seq<bv8>, ok: seq<bool>, gives: Gives, p: nat, block: nat, most: nat,
                   done: seq<bv8>, stop: nat, all: seq<bv8>)
    requires Coming(content, ok, gives, p, block, most, done, stop, all) && block <= 1
    ensures p == stop && done == all
  {
    assert done + [] == done;
  }

  lemma Regroup<T>(a: seq<T>, b: seq<T>, c: seq<T>)
    ensures a + (b + c) == (a + b) + c
  {
  }

  lemma {:induction false} LongestIsBlock(ok: seq<bool>, gives: Gives, p: nat, block: nat)
    ensures Longest(PartsFrom(ok, gives, p, block)) <= block
    decreases block, |ok| - p
  {
    if block > 1 {
      var lu := Answer(ok, gives, p, block);
      if lu > 0 {
        LongestIsBlock(ok, gives, p + lu, block);
      } else {
        LongestIsBlock(ok, gives, p, block / 2);
      }
    }
  }

  // ----- how far

  /** The blocks tried. */
  predicate PowerOfTwo(block: nat) {
    block == 1 || (block % 2 == 0 && block > 0 && PowerOfTwo(block / 2))
  }

  /** Everything up to the bad byte is read, except perhaps the last byte before it, when the
      device refuses to give it together with the bad one. */
  lemma {:induction false} LastByteAtMost(ok: seq<bool>, gives: Gives, p: nat, b: nat, block: nat) returns (q: nat)
    requires NextBad(ok, p, b) && block > 1 && PowerOfTwo(block)
    ensures q == p + Sum(PartsFrom(ok, gives, p, block)) && (q == b || (q + 1 == b && Answer(ok, gives, q, 2) < 0))
    decreases block, |ok| - p
  {
    AnswerBeforeBad(ok, gives, p, b, block);
    var lu := Answer(ok, gives, p, block);
    if lu > 0 {
      q := LastByteAtMost(ok, gives, p + lu, b, block);
    } else if block > 2 {
      q := LastByteAtMost(ok, gives, p, b, block / 2);
    } else {
      q := p;
    }
  }

  lemma LastByteOf(ok: seq<bool>, gives: Gives, p: nat, b: nat) returns (q: nat)
    requires NextBad(ok, p, b)
    ensures q == p + Sum(PartsAt(ok, gives, p)) && (q == b || (q + 1 == b && Answer(ok, gives, q, 2) < 0))
  {
    var block: nat := BUF_SIZE / 2;
    assert PowerOfTwo(2) && PowerOfTwo(8) && PowerOfTwo(32) && PowerOfTwo(128) && PowerOfTwo(512);
    q := LastByteAtMost(ok, gives, p, b, block);
  }

  // ----- two sorts of devices

  /** Nothing is read at a bad byte, nor at the end. */
  lemma {:induction false} NothingRead(ok: seq<bool>, gives: Gives, p: nat, block: nat)
    requires p < |ok| ==> !ok[p]
    ensures PartsFrom(ok, gives, p, block) == End
    decreases block
  {
    if block > 1 {
      if p < |ok| {
        AnswerBeforeBad(ok, gives, p, p, block);
      }
      NothingRead(ok, gives, p, block / 2);
    }
  }

  /** Before b, the device gives either all the bytes asked for or none. */
  ghost predicate AllOrNothing(ok: seq<bool>, gives: Gives, b: nat) {
    forall p: nat, n: nat {:trigger GivesWhole(ok, gives, p, n, b)} :: NextBad(ok, p, b) && n > 0 ==>
      GivesWhole(ok, gives, p, n, b)
  }

  ghost predicate GivesWhole(ok: seq<bool>, gives: Gives, p: nat, n: nat, b: nat) {
    Answer(ok, gives, p, n) == if p + n <= b then n else -1
  }

  lemma EmptyTable(ok: seq<bool>, b: nat)
    ensures AllOrNothing(ok, [], b)
  {
    forall p: nat, n: nat {:trigger GivesWhole(ok, [], p, n, b)} | NextBad(ok, p, b) && n > 0
      ensures GivesWhole(ok, [], p, n, b)
    {
      AnswerBeforeBad(ok, [], p, b, n);
      RunTo(ok, p, b, n);
    }
  }

  /** The device gives all the bytes that precede b. */
  ghost predicate Generous(ok: seq<bool>, gives: Gives, b: nat) {
    forall p: nat, n: nat {:trigger GivesAll(ok, gives, p, n, b)} :: NextBad(ok, p, b) && n > 0 ==>
      GivesAll(ok, gives, p, n, b)
  }

  ghost predicate GivesAll(ok: seq<bool>, gives: Gives, p: nat, n: nat, b: nat)
    requires p <= b
  {
    Answer(ok, gives, p, n) == if p == b then -1 else if n <= b - p then n else b - p
  }

  /** The largest block no larger than n, from that one down. */
  function Fitting(block: nat, n: nat): (r: nat)
    ensures r <= block && r <= n
    decreases block
  {
    if block <= 1 then 0 else if block <= n then block else Fitting(block / 2, n)
  }

  /** One byte is left when they are odd in number, and the longest part read is the largest
      block that fits. */
  lemma {:induction false} WithAllOrNothing(ok: seq<bool>, gives: Gives, p: nat, b: nat, block: nat)
    returns (parts: Parts)
    requires NextBad(ok, p, b) && AllOrNothing(ok, gives, b) && block > 1 && PowerOfTwo(block)
    ensures parts == PartsFrom(ok, gives, p, block)
    ensures Sum(parts) == (b - p) - (b - p) % 2 && Longest(parts) == Fitting(block, b - p)
    decreases block, |ok| - p
  {
    assert GivesWhole(ok, gives, p, block, b);
    if p + block <= b {
      var rest := WithAllOrNothing(ok, gives, p + block, b, block);
      parts := Part(block, rest);
      SameParity(b - p, block);
    } else if block > 2 {
      parts := WithAllOrNothing(ok, gives, p, b, block / 2);
    } else {
      parts := End;
      assert PartsFrom(ok, gives, p, block / 2) == End;
    }
  }

  lemma SameParity(d: nat, even: nat)
    requires even <= d && even % 2 == 0
    ensures (d - even) % 2 == d % 2
  {
  }

  /** No byte is left, and the longest part read is a block, or all the bytes there are. */
  lemma {:induction false} WithGenerous(ok: seq<bool>, gives: Gives, p: nat, b: nat, block: nat) returns (parts: Parts)
    requires NextBad(ok, p, b) && Generous(ok, gives, b) && block > 1
    ensures parts == PartsFrom(ok, gives, p, block)
    ensures Sum(parts) == b - p && Longest(parts) == if block <= b - p then block else b - p
    decreases |ok| - p
  {
    if p == b {
      NothingRead(ok, gives, b, block);
      parts := End;
    } else if block <= b - p {
      assert GivesAll(ok, gives, p, block, b);
      var rest := WithGenerous(ok, gives, p + block, b, block);
      parts := Part(block, rest);
    } else {
      assert GivesAll(ok, gives, p, block, b);
      NothingRead(ok, gives, b, block);
      parts := Part(b - p, End);
    }
  }

  // ----- an example

  /** Blocks that do not fit are halved. */
  lemma {:induction false} Halved(ok: seq<bool>, p: nat, b: nat, block: nat)
    requires NextBad(ok, p, b) && block > 1
    ensures var n := Fitting(block, b - p);
            PartsFrom(ok, [], p, block) == if n == 0 then End else Part(n, PartsFrom(ok, [], p + n, n))
    decreases block
  {
    if block <= b - p {
      EmptyTable(ok, b);
      assert GivesWhole(ok, [], p, block, b);
    } else {
      AnswerBeforeBad(ok, [], p, b, block);
      if block / 2 > 1 {
        Halved(ok, p, b, block / 2);
      }
    }
  }

  /** Six readable bytes are read by four, then by two. */
  lemma SixBytes(ok: seq<bool>)
    requires NextBad(ok, 0, 6)
    ensures PartsAt(ok, [], 0) == Part(4, Part(2, End))
  {
    assert Fitting(8, 6) == 4 && Fitting(32, 6) == 4 && Fitting(128, 6) == 4 && Fitting(512, 6) == 4;
    Halved(ok, 0, 6, BUF_SIZE / 2);
    Halved(ok, 4, 6, 4);
    Halved(ok, 6, 6, 2);
  }

  /** Written one byte at a time, they are two: the first of each part. */
  lemma TwoOfSix(content: seq<bv8>)
    requires |content| >= 6
    ensures Written(content, 0, Part(4, Part(2, End)), 1) == [content[0], content[4]]
  {
    var end := Written(content, 6, End, 1);
    assert Written(content, 4, Part(2, End), 1) == Taken(content, 4, 2, 1) + end;
    assert Taken(content, 4, 2, 1) == [content[4]] && Taken(content, 0, 4, 1) == [content[0]];
  }
}
