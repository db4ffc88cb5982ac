/** The course of a recovery copy: which parts of a device are read, where it is taken up
    again after an error and where it ends, as functions of the device alone. */
module Courses {
  import opened Devices
  import opened ErrorBlocks

  const MAX_INT: int := 0x7FFF_FFFF

  // ----- the next readable byte

  /** The step doubles as long as an int can hold it. */
  function Doubled(block: int): int {
    if block * 2 <= MAX_INT then block * 2 else block
  }

  /** Where looking further and further for a readable byte ends. */
  function Probe(ok: seq<bool>, p: nat, block: nat): (m: nat)
    requires block > 0
    ensures m >= p
    decreases |ok| - p
  {
    if p >= |ok| then p else if ok[p] then p + 1 else Probe(ok, p + Doubled(block), Doubled(block))
  }

  /** Where the bisection ends. */
  function Halve(ok: seq<bool>, min: nat, max: nat): (m: nat)
    requires min <= max
    ensures min <= m <= max && (min < max ==> min < m)
    decreases max - min
  {
    if max - min <= 1 then max
    else
      var mid := (max + min) / 2;
      if mid >= |ok| || ok[mid] then Halve(ok, min, mid) else Halve(ok, mid, max)
  }

  /** Where the copy is taken up again after an error at p. */
  function Beyond(ok: seq<bool>, p: nat): nat {
    Halve(ok, p, Probe(ok, p, BUF_SIZE / 2))
  }

  /** Readable, or past the end. */
  predicate Fine(ok: seq<bool>, p: nat) {
    p >= |ok| || ok[p]
  }

  lemma {:induction false} ProbeMeans(ok: seq<bool>, min: nat, p: nat, block: nat)
    requires min < |ok| && !ok[min] && min <= p && block > 0
    ensures var m := Probe(ok, p, block); m > min && (m >= |ok| || (m > min + 1 && ok[m - 1]))
    decreases |ok| - p
  {
    if p < |ok| && !ok[p] {
      ProbeMeans(ok, min, p + Doubled(block), Doubled(block));
    }
  }

  lemma {:induction false} HalveMeans(ok: seq<bool>, min: nat, max: nat)
    requires min < max && min < |ok| && !ok[min] && (Fine(ok, max) || (max - min > 1 && max <= |ok| && ok[max - 1]))
    ensures var m := Halve(ok, min, max); m <= |ok| && !ok[m - 1] && Fine(ok, m)
    decreases max - min
  {
    if max - min > 1 {
      var mid := (max + min) / 2;
      if mid >= |ok| || ok[mid] {
        HalveMeans(ok, min, mid);
      } else {
        HalveMeans(ok, mid, max);
      }
    }
  }

  // ----- where the probe looks

  function Pow2(k: nat): (r: nat)
    ensures r >= 1
  {
    if k == 0 then 1 else 2 * Pow2(k - 1)
  }

  lemma {:induction false} Pow2AtMost(k: nat, n: nat)
    requires k <= n
    ensures Pow2(k) <= Pow2(n)
    decreases n
  {
    if k < n {
      Pow2AtMost(k, n - 1);
    }
  }

  lemma FourMore(n: nat)
    ensures Pow2(n + 4) == 16 * Pow2(n)
  {
    assert Pow2(n + 2) == 4 * Pow2(n);
  }

  lemma AMillion(n: nat)
    requires n == 20
    ensures Pow2(n) == 1048576
  {
    FourMore(n - 4);
    FourMore(n - 8);
    FourMore(n - 12);
    FourMore(n - 16);
    FourMore(n - 20);
    assert Pow2(n - 20) == 1;
  }

  /** The steps of the search, in bytes: 1024, twice as much each time, but never more than
      2^30, the double of which an int cannot hold. */
  function Stride(k: nat): (r: nat) {
    if k <= 20 then 1024 * Pow2(k) else 0x4000_0000
  }

  /** The place looked at after k steps from p. */
  function Place(p: nat, k: nat): (r: nat)
    ensures r >= p
  {
    if k == 0 then p else Place(p, k - 1) + Stride(k - 1)
  }

  /** The step before the k-th one. */
  function Before(k: nat): (r: nat)
    ensures r > 0
  {
    if k == 0 then 512 else Stride(k - 1)
  }

  lemma StrideDoubles(k: nat)
    ensures Doubled(Before(k)) == Stride(k)
  {
    var n := 20;
    AMillion(n);
    if 0 < k <= n {
      Pow2AtMost(k, n);
      assert Before(k) == 1024 * Pow2(k - 1) && Pow2(k) == 2 * Pow2(k - 1);
    } else if k == n + 1 {
      assert Before(k) == 1024 * Pow2(n);
    }
  }

  /** The places before the k-th being all bad, the search comes to the k-th. */
  lemma {:induction false} ProbeComes(ok: seq<bool>, p: nat, k: nat)
    requires forall j {:trigger Place(p, j)} :: 0 <= j < k ==> Place(p, j) < |ok| && !ok[Place(p, j)]
    ensures Probe(ok, p, BUF_SIZE / 2) == Probe(ok, Place(p, k), Before(k))
    decreases k
  {
    if k > 0 {
      ProbeComes(ok, p, k - 1);
      assert Place(p, k - 1) < |ok| && !ok[Place(p, k - 1)];
      StrideDoubles(k - 1);
    }
  }

  /** The search from p looks 1024, 3072, 7168... bytes further; it stops after the first
      readable byte found there, or where there are no more bytes. */
  lemma ProbeIsFirst(ok: seq<bool>, p: nat, k: nat)
    requires forall j {:trigger Place(p, j)} :: 0 <= j < k ==> Place(p, j) < |ok| && !ok[Place(p, j)]
    requires Place(p, k) >= |ok| || ok[Place(p, k)]
    ensures Probe(ok, p, BUF_SIZE / 2) == if Place(p, k) >= |ok| then Place(p, k) else Place(p, k) + 1
  {
    ProbeComes(ok, p, k);
  }

  /** The bisection looks in the middle: here at 4, 2 and 1, and not at 3. */
  lemma BisectsInTheMiddle(ok: seq<bool>)
    requires |ok| > 4 && !ok[0] && ok[1] && ok[2] && !ok[3] && ok[4]
    ensures Halve(ok, 0, 8) == 1
  {
    assert Halve(ok, 0, 2) == Halve(ok, 0, 1);
  }

  /** From an unreadable byte the copy is taken up just after an unreadable one, at a readable
      one or at the end; from a readable byte, at the next one whatever it is. */
  lemma BeyondMeans(ok: seq<bool>, p: nat)
    requires p < |ok|
    ensures var r := Beyond(ok, p);
            && p < r <= |ok|
            && (if ok[p] then r == p + 1 else !ok[r - 1] && Fine(ok, r))
  {
    if !ok[p] {
      ProbeMeans(ok, p, p, BUF_SIZE / 2);
      HalveMeans(ok, p, Probe(ok, p, BUF_SIZE / 2));
    }
  }

  // ----- the course

  /** From a place on: a part read, or an error with what is read before it and the place
      where the copy is taken up again. */
  datatype Course = Over | Read(to: nat, rest: Course) | Jump(stop: nat, to: nat, rest: Course)

  /** Where reading stops before a bad byte. */
  function StopFrom(ok: seq<bool>, gives: Gives, p: nat): nat {
    p + Sum(PartsAt(ok, gives, p))
  }

  lemma StopBeforeEnd(ok: seq<bool>, gives: Gives, p: nat)
    requires p <= |ok| && Answer(ok, gives, p, BUF_SIZE) < 0
    ensures p <= StopFrom(ok, gives, p) < |ok|
  {
    var b := AnswerMeans(ok, gives, p, BUF_SIZE);
    var q := LastByteOf(ok, gives, p, b);
  }

  function CourseFrom(ok: seq<bool>, gives: Gives, p: nat): Course
    requires p <= |ok|
    decreases |ok| - p
  {
    var lu := Answer(ok, gives, p, BUF_SIZE);
    if lu > 0 then Read(p + lu, CourseFrom(ok, gives, p + lu))
    else if lu == 0 then Over
    else
      StopBeforeEnd(ok, gives, p);
      var q := StopFrom(ok, gives, p);
      BeyondMeans(ok, q);
      var r := Beyond(ok, q);
      Jump(q, r, if r < |ok| && ok[r] then CourseFrom(ok, gives, r) else Over)
  }

  function EndOf(t: Course, p: nat): nat {
    match t
    case Over => p
    case Read(to, rest) => EndOf(rest, to)
    case Jump(_, to, rest) => EndOf(rest, to)
  }

  /** The byte i is read. */
  predicate Covers(t: Course, p: nat, i: nat) {
    match t
    case Over => false
    case Read(to, rest) => p <= i < to || Covers(rest, to, i)
    case Jump(stop, to, rest) => p <= i < stop || Covers(rest, to, i)
  }

  /** What is said to be missing, of n bytes. */
  function Missing(t: Course, p: nat, n: nat): int {
    match t
    case Over => 0
    case Read(to, rest) => Missing(rest, to, n)
    case Jump(stop, to, rest) => if rest.Over? then n - p else to - stop + Missing(rest, to, n)
  }

  /** The course ends with an error. */
  predicate GivesUp(t: Course) {
    match t
    case Over => false
    case Read(_, rest) => GivesUp(rest)
    case Jump(_, _, rest) => rest.Over? || GivesUp(rest)
  }

  /** One write takes each part read before a bad byte. */
  predicate Fits(ok: seq<bool>, gives: Gives, t: Course, p: nat, most: nat) {
    match t
    case Over => true
    case Read(to, rest) => Fits(ok, gives, rest, to, most)
    case Jump(_, to, rest) => Longest(PartsAt(ok, gives, p)) <= most && Fits(ok, gives, rest, to, most)
  }

  // ----- what the course leaves out

  /** An error at p: what is read before it, and where the copy is taken up again. */
  lemma JumpMeans(ok: seq<bool>, gives: Gives, p: nat) returns (b: nat)
    requires p <= |ok| && CourseFrom(ok, gives, p).Jump?
    ensures NextBad(ok, p, b)
    ensures var t := CourseFrom(ok, gives, p);
            && p <= t.stop < t.to <= |ok| && Readable(ok, p, t.stop) && t.stop == StopFrom(ok, gives, p)
            && (t.rest == if t.to < |ok| && ok[t.to] then CourseFrom(ok, gives, t.to) else Over)
            && if t.stop == b then !ok[t.to - 1] && Fine(ok, t.to)
               else t.stop + 1 == b == t.to && Answer(ok, gives, t.stop, 2) < 0 && t.rest.Over?
  {
    b := AnswerMeans(ok, gives, p, BUF_SIZE);
    var q := LastByteOf(ok, gives, p, b);
    BeyondMeans(ok, q);
  }

  /** Where the copy is taken up again, it has something to do. */
  lemma ReadableGoesOn(ok: seq<bool>, gives: Gives, p: nat)
    requires p < |ok| && ok[p]
    ensures !CourseFrom(ok, gives, p).Over?
  {
    var b := AnswerMeans(ok, gives, p, BUF_SIZE);
  }

  /** The course goes forward and stays in the device. */
  lemma {:induction false} CourseBounds(ok: seq<bool>, gives: Gives, p: nat)
    requires p <= |ok|
    ensures var t := CourseFrom(ok, gives, p);
            && p <= EndOf(t, p) <= |ok|
            && forall i: nat {:trigger Covers(t, p, i)} :: Covers(t, p, i) ==> p <= i < EndOf(t, p) && ok[i]
    decreases |ok| - p
  {
    var t := CourseFrom(ok, gives, p);
    match t
    case Over =>
    case Read(to, rest) =>
      var b := AnswerMeans(ok, gives, p, BUF_SIZE);
      CourseBounds(ok, gives, to);
    case Jump(stop, to, rest) =>
      var b := JumpMeans(ok, gives, p);
      if !rest.Over? {
        CourseBounds(ok, gives, to);
      }
  }

  /** i is among bytes left out that begin and end with a bad one, from p on. */
  ghost predicate Spanned(ok: seq<bool>, t: Course, p: nat, i: nat) {
    exists a, z :: p <= a <= i <= z < EndOf(t, p) && LeftOut(ok, t, p, a, z)
  }

  ghost predicate LeftOut(ok: seq<bool>, t: Course, p: nat, a: nat, z: nat) {
    a <= z < |ok| && !ok[a] && !ok[z] && forall k {:trigger Covers(t, p, k)} :: a <= k <= z ==> !Covers(t, p, k)
  }

  /** Every byte before the end of the course is read, unless it is among bytes skipped that
      begin and end with a bad one, or is the byte before a bad one where the copy ends. */
  lemma {:induction false} OnlySpansLeftOut(ok: seq<bool>, gives: Gives, p: nat, i: nat)
    requires p <= |ok| && p <= i < EndOf(CourseFrom(ok, gives, p), p)
    ensures Accounted(ok, CourseFrom(ok, gives, p), p, i)
    decreases |ok| - p
  {
    var t := CourseFrom(ok, gives, p);
    match t
    case Read(to, rest) =>
      CourseBounds(ok, gives, to);
      if i >= to {
        OnlySpansLeftOut(ok, gives, to, i);
        AccountedLater(ok, t, p, rest, to, i);
      }
    case Jump(stop, to, rest) =>
      if i >= to {
        var b := JumpMeans(ok, gives, p);
        OnlySpansLeftOut(ok, gives, to, i);
        AccountedLater(ok, t, p, rest, to, i);
      } else {
        JumpAccounted(ok, gives, p, i);
      }
  }

  lemma JumpAccounted(ok: seq<bool>, gives: Gives, p: nat, i: nat)
    requires p <= |ok| && CourseFrom(ok, gives, p).Jump? && p <= i < CourseFrom(ok, gives, p).to
    ensures Accounted(ok, CourseFrom(ok, gives, p), p, i)
  {
    var t := CourseFrom(ok, gives, p);
    var b := JumpMeans(ok, gives, p);
    if !t.rest.Over? {
      CourseBounds(ok, gives, t.to);
    }
    if t.stop <= i && t.stop == b {
      SkippedIsSpanned(ok, t, p, i);
    }
  }

  ghost predicate Accounted(ok: seq<bool>, t: Course, p: nat, i: nat) {
    Covers(t, p, i) || Spanned(ok, t, p, i) || (GivesUp(t) && i + 1 == EndOf(t, p) < |ok|)
  }

  lemma AccountedLater(ok: seq<bool>, t: Course, p: nat, rest: Course, to: nat, i: nat)
    requires p <= to && (t == Read(to, rest) || (t.Jump? && t.to == to && t.rest == rest && t.stop <= to))
    requires Accounted(ok, rest, to, i)
    ensures Accounted(ok, t, p, i)
  {
    SpannedLater(ok, t, p, rest, to, i);
  }

  lemma AllAccounted(ok: seq<bool>, gives: Gives)
    ensures var t := CourseFrom(ok, gives, 0);
            forall i: nat {:trigger Accounted(ok, t, 0, i)} :: i < EndOf(t, 0) ==> Accounted(ok, t, 0, i)
  {
    var t := CourseFrom(ok, gives, 0);
    forall i: nat {:trigger Accounted(ok, t, 0, i)} | i < EndOf(t, 0) ensures Accounted(ok, t, 0, i) {
      OnlySpansLeftOut(ok, gives, 0, i);
    }
  }

  /** What is skipped in one go is such a part. */
  lemma SkippedIsSpanned(ok: seq<bool>, t: Course, p: nat, i: nat)
    requires t.Jump? && p <= t.stop <= i < t.to <= EndOf(t, p) && t.to <= |ok| && !ok[t.stop] && !ok[t.to - 1]
    requires forall k: nat {:trigger Covers(t.rest, t.to, k)} :: Covers(t.rest, t.to, k) ==> t.to <= k
    ensures Spanned(ok, t, p, i)
  {
    assert LeftOut(ok, t, p, t.stop, t.to - 1);
  }

  /** Later bytes left out stay left out when what precedes is added to the course. */
  lemma SpannedLater(ok: seq<bool>, t: Course, p: nat, rest: Course, to: nat, i: nat)
    requires p <= to && (t == Read(to, rest) || (t.Jump? && t.to == to && t.rest == rest && t.stop <= to))
    ensures Spanned(ok, rest, to, i) ==> Spanned(ok, t, p, i)
  {
    if Spanned(ok, rest, to, i) {
      var a, z :| to <= a <= i <= z < EndOf(rest, to) && LeftOut(ok, rest, to, a, z);
      assert LeftOut(ok, t, p, a, z);
    }
  }

  /** Without any bad byte, everything is read and nothing is missing. */
  lemma {:induction false} GoodDevice(ok: seq<bool>, gives: Gives, p: nat)
    requires Readable(ok, p, |ok|)
    ensures var t := CourseFrom(ok, gives, p);
            && EndOf(t, p) == |ok| && Missing(t, p, |ok|) == 0 && !GivesUp(t)
            && (forall most: nat :: Fits(ok, gives, t, p, most))
            && forall i {:trigger Covers(t, p, i)} :: p <= i < |ok| ==> Covers(t, p, i)
    decreases |ok| - p
  {
    var b := AnswerMeans(ok, gives, p, BUF_SIZE);
    var t := CourseFrom(ok, gives, p);
    if t.Read? {
      GoodDevice(ok, gives, t.to);
    }
  }

  // ----- copies that end early

  /** The copy ends before the end only at a bad byte, after a readable one that the device
      does not give with it. */
  lemma {:induction false} EarlyEnd(ok: seq<bool>, gives: Gives, p: nat)
    requires p <= |ok| && EndOf(CourseFrom(ok, gives, p), p) < |ok|
    ensures var t := CourseFrom(ok, gives, p);
            var e := EndOf(t, p);
            GivesUp(t) && e > p && !ok[e] && ok[e - 1] && Answer(ok, gives, e - 1, 2) < 0
    decreases |ok| - p
  {
    var t := CourseFrom(ok, gives, p);
    match t
    case Over =>
      var b := AnswerMeans(ok, gives, p, BUF_SIZE);
    case Read(to, rest) =>
      EarlyEnd(ok, gives, to);
    case Jump(stop, to, rest) =>
      var b := JumpMeans(ok, gives, p);
      if !rest.Over? {
        EarlyEnd(ok, gives, to);
      }
  }

  /** With a device that gives what precedes a bad byte, the copy goes to the end. */
  lemma GenerousIsWhole(ok: seq<bool>, gives: Gives, p: nat)
    requires p <= |ok| && forall b: nat {:trigger Generous(ok, gives, b)} :: b < |ok| ==> Generous(ok, gives, b)
    ensures EndOf(CourseFrom(ok, gives, p), p) == |ok|
  {
    CourseBounds(ok, gives, p);
    var e := EndOf(CourseFrom(ok, gives, p), p);
    if e < |ok| {
      EarlyEnd(ok, gives, p);
      GenerousGivesOne(ok, gives, e);
    }
  }

  lemma GenerousGivesOne(ok: seq<bool>, gives: Gives, e: nat)
    requires 0 < e < |ok| && ok[e - 1] && !ok[e] && Generous(ok, gives, e)
    ensures Answer(ok, gives, e - 1, 2) == 1
  {
    assert NextBad(ok, e - 1, e);
    assert GivesAll(ok, gives, e - 1, 2, e);
  }

  /** A run of readable bytes where the copy begins, or is taken up again, has an odd length
      and is followed by a bad byte. */
  ghost predicate OddRun(ok: seq<bool>, p: nat)
    requires p <= |ok|
    decreases |ok| - p
  {
    var b := FirstBad(ok, p);
    b < |ok| && ((b - p) % 2 == 1 || (Beyond(ok, b) > p && Beyond(ok, b) < |ok| && OddRun(ok, Beyond(ok, b))))
  }

  /** The first bad byte from p on, or the end. */
  function FirstBad(ok: seq<bool>, p: nat): (b: nat)
    requires p <= |ok|
    ensures p <= b <= |ok|
  {
    p + Run(ok, p, |ok| - p)
  }

  lemma FirstBadMeans(ok: seq<bool>, p: nat)
    requires p <= |ok|
    ensures var b := FirstBad(ok, p); Readable(ok, p, b) && (b < |ok| ==> NextBad(ok, p, b))
  {
    RunMeans(ok, p, |ok| - p);
  }

  lemma FirstBadIs(ok: seq<bool>, p: nat, b: nat)
    requires NextBad(ok, p, b)
    ensures FirstBad(ok, p) == b
  {
    RunTo(ok, p, b, |ok| - p);
  }

  /** With a device that gives all or nothing, the copy ends early exactly when it meets an
      odd run. */
  lemma {:induction false} EarlyIffOddRun(ok: seq<bool>, p: nat)
    requires p <= |ok|
    ensures EndOf(CourseFrom(ok, [], p), p) < |ok| <==> OddRun(ok, p)
    decreases |ok| - p
  {
    var t := CourseFrom(ok, [], p);
    match t
    case Over =>
      var b := AnswerMeans(ok, [], p, BUF_SIZE);
    case Read(to, rest) =>
      EarlyIffOddRun(ok, to);
      WholeBlock(ok, p, to);
    case Jump(stop, to, rest) =>
      var b := JumpToBad(ok, p);
      JumpOdd(ok, p, b);
      if !rest.Over? {
        EarlyIffOddRun(ok, to);
      }
  }

  lemma JumpOdd(ok: seq<bool>, p: nat, b: nat)
    requires p <= |ok| && b == FirstBad(ok, p) < |ok| && Beyond(ok, b) <= |ok|
    ensures OddRun(ok, p) <==>
              (b - p) % 2 == 1 || (p < Beyond(ok, b) < |ok| && OddRun(ok, Beyond(ok, b)))
  {
  }

  lemma JumpToBad(ok: seq<bool>, p: nat) returns (b: nat)
    requires p <= |ok| && CourseFrom(ok, [], p).Jump?
    ensures b == FirstBad(ok, p) < |ok|
    ensures var t := CourseFrom(ok, [], p);
            && Beyond(ok, b) <= |ok| && p < t.to <= |ok| && (!t.rest.Over? ==> t.rest == CourseFrom(ok, [], t.to))
            && if (b - p) % 2 == 1 then t.rest.Over? && t.to == b
               else t.to == Beyond(ok, b) > p && (t.rest.Over? <==> t.to == |ok|)
  {
    b := JumpMeans(ok, [], p);
    FirstBadIs(ok, p, b);
    EvenPart(ok, p, b);
    BeyondMeans(ok, b);
    if CourseFrom(ok, [], p).to < |ok| && ok[CourseFrom(ok, [], p).to] {
      ReadableGoesOn(ok, [], CourseFrom(ok, [], p).to);
    }
  }

  /** A whole block read changes neither the parity nor the bad byte ahead. */
  lemma WholeBlock(ok: seq<bool>, p: nat, to: nat)
    requires p < |ok| && Answer(ok, [], p, BUF_SIZE) == to - p > 0
    ensures to <= |ok| && (OddRun(ok, p) <==> OddRun(ok, to))
  {
    var x := AnswerMeans(ok, [], p, BUF_SIZE);
    FirstBadMeans(ok, to);
    var b := FirstBad(ok, to);
    if b < |ok| {
      FirstBadIs(ok, p, b);
      assert to - p == BUF_SIZE;
      BeyondMeans(ok, b);
    } else {
      FirstBadMeans(ok, p);
    }
  }

  /** What such a device gives before the bad byte b: an even number of bytes. */
  lemma EvenPart(ok: seq<bool>, p: nat, b: nat)
    requires NextBad(ok, p, b)
    ensures Sum(PartsAt(ok, [], p)) == (b - p) - (b - p) % 2
  {
    EmptyTable(ok, b);
    HalfIsPower();
    var parts := WithAllOrNothing(ok, [], p, b, BUF_SIZE / 2);
  }

  /** Such a device refuses a block with a bad byte. */
  lemma BadInBlock(ok: seq<bool>, p: nat, b: nat)
    requires NextBad(ok, p, b) && b < p + BUF_SIZE
    ensures CourseFrom(ok, [], p).Jump?
  {
    EmptyTable(ok, b);
    assert GivesWhole(ok, [], p, BUF_SIZE, b);
  }

  lemma HalfIsPower()
    ensures PowerOfTwo(BUF_SIZE / 2)
  {
    assert PowerOfTwo(2) && PowerOfTwo(8) && PowerOfTwo(32) && PowerOfTwo(128) && PowerOfTwo(512);
  }
}
