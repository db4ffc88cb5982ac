/** Copying what can be read of a damaged device. */
module RecoveryCopy {
  import opened Devices
  import opened ErrorBlocks
  import opened Courses

  /** normal_copy. */
  method NormalCopy(block: nat, src: Source, dst: Destination) returns (lu: int)
    requires src.Valid() && dst.maxWrite > 0
    modifies src, dst
    ensures lu == Answer(src.ok, src.gives, old(src.pos), block)
    ensures var n := if lu > 0 then lu else 0;
            && src.pos == old(src.pos) + n && dst.pos == old(dst.pos) + n
            && (n > 0 ==> src.pos <= |src.content|)
            && if n > 0 then Put(dst.cells, old(dst.cells), old(dst.pos), src.content[old(src.pos)..src.pos])
               else dst.cells == old(dst.cells)
  {
    var buffer;
    lu, buffer := src.Read(block);
    if lu > 0 {
      WriteAll(dst, buffer);
    }
  }

  /** One block of xfer_before_error; a write that takes less than what was read is not tried
      again. */
  method XferBlock(src: Source, dst: Destination, block: nat) returns (lu: int)
    requires src.Valid()
    modifies src, dst
    ensures var p := old(src.pos);
            && lu == Answer(src.ok, src.gives, p, block)
            && if lu > 0 then
                 && src.pos == p + lu <= |src.content|
                 && Filled(dst.cells, dst.pos, old(dst.cells), old(dst.pos), Taken(src.content, p, lu, dst.maxWrite))
               else src.pos == p && dst.pos == old(dst.pos) && dst.cells == old(dst.cells)
  {
    ghost var p := src.pos;
    var buffer;
    lu, buffer := src.Read(block);
    if lu > 0 {
      TakenIsPrefix(src.content, p, lu, dst.maxWrite);
      var n := dst.Write(buffer);
    }
  }

  lemma TakenIsPrefix(content: seq<bv8>, p: nat, n: nat, most: nat)
    requires p + n <= |content|
    ensures Taken(content, p, n, most) == content[p..p + n][..if n <= most then n else most]
  {
  }

  /** One block, as a step towards the place `stop` and the bytes `all`. */
  method XferStep(src: Source, dst: Destination, block: nat, ghost cells: map<nat, bv8>, ghost q: nat,
                  ghost done: seq<bv8>, ghost stop: nat, ghost all: seq<bv8>)
    returns (next: nat, ghost more: seq<bv8>)
    requires src.Valid() && block > 1 && Filled(dst.cells, dst.pos, cells, q, done)
    requires Coming(src.content, src.ok, src.gives, src.pos, block, dst.maxWrite, done, stop, all)
    modifies src, dst
    ensures Coming(src.content, src.ok, src.gives, src.pos, next, dst.maxWrite, more, stop, all)
    ensures Filled(dst.cells, dst.pos, cells, q, more)
    ensures next < block || (next == block && old(src.pos) < src.pos <= |src.content|)
  {
    ghost var here, now := src.pos, dst.cells;
    ComingStep(src.content, src.ok, src.gives, here, block, dst.maxWrite, done, stop, all);
    var lu := XferBlock(src, dst, block);
    if lu > 0 {
      more := done + Taken(src.content, here, lu, dst.maxWrite);
      PutTwice(dst.cells, now, cells, q, done, Taken(src.content, here, lu, dst.maxWrite));
      next := block;
    } else {
      next, more := block / 2, done;
    }
  }

  method XferBlocks(src: Source, dst: Destination, first: nat, ghost stop: nat, ghost all: seq<bv8>)
    requires src.Valid() && Coming(src.content, src.ok, src.gives, src.pos, first, dst.maxWrite, [], stop, all)
    modifies src, dst
    ensures src.pos == stop && Filled(dst.cells, dst.pos, old(dst.cells), old(dst.pos), all)
  {
    ghost var cells, q, done: seq<bv8> := dst.cells, dst.pos, [];
    PutNothing(cells, q);
    var block := first;
    while block > 1
      invariant Coming(src.content, src.ok, src.gives, src.pos, block, dst.maxWrite, done, stop, all)
      invariant Filled(dst.cells, dst.pos, cells, q, done)
      decreases block, |src.content| - src.pos
    {
      block, done := XferStep(src, dst, block, cells, q, done, stop, all);
    }
    ComingEnds(src.content, src.ok, src.gives, src.pos, block, dst.maxWrite, done, stop, all);
  }

  /** xfer_before_error: reads up to the bad byte ahead, or up to the byte before it. */
  method XferBeforeError(src: Source, dst: Destination)
    requires src.Valid() && src.pos <= |src.content|
    modifies src, dst
    ensures var p, parts := old(src.pos), PartsAt(src.ok, src.gives, old(src.pos));
            && src.pos == p + Sum(parts) <= |src.content|
            && Filled(dst.cells, dst.pos, old(dst.cells), old(dst.pos), Written(src.content, p, parts, dst.maxWrite))
  {
    ghost var p := src.pos;
    OneByte(src.ok, src.gives, p);
    var lu, buffer := src.Read(1);
    if lu != 1 {
      NothingRead(src.ok, src.gives, p, BUF_SIZE / 2);
      PutNothing(dst.cells, dst.pos);
      return;
    }
    src.pos := src.pos - 1;
    ghost var stop, all := ComingStarts(src.content, src.ok, src.gives, p, BUF_SIZE / 2, dst.maxWrite);
    XferBlocks(src, dst, BUF_SIZE / 2, stop, all);
  }

  /** The bytes w have been put from q on. */
  ghost predicate Filled(now: map<nat, bv8>, pos: nat, cells: map<nat, bv8>, q: nat, w: seq<bv8>) {
    Put(now, cells, q, w) && pos == q + |w|
  }

  /** Looks further and further for a byte that can be read, or for the end. */
  method LookFurther(src: Source) returns (max: nat)
    requires src.Valid()
    modifies src
    ensures max == src.pos == Probe(src.ok, old(src.pos), BUF_SIZE / 2)
  {
    ghost var goal := Probe(src.ok, src.pos, BUF_SIZE / 2);
    var block := BUF_SIZE / 2;
    OneByte(src.ok, src.gives, src.pos);
    var lu, buffer := src.Read(1);
    while lu < 0
      invariant block >= 1 && goal == if lu < 0 then Probe(src.ok, src.pos, block) else src.pos
      invariant lu < 0 ==> src.pos < |src.ok| && !src.ok[src.pos]
      decreases lu < 0, |src.ok| - src.pos
    {
      block := Doubled(block);
      src.pos := src.pos + block;
      OneByte(src.ok, src.gives, src.pos);
      lu, buffer := src.Read(1);
    }
    max := src.pos;
  }

  /** The bisection. */
  method Bisect(src: Source, from: nat, to: nat) returns (max: nat)
    requires src.Valid() && from <= to
    modifies src
    ensures max == Halve(src.ok, from, to)
  {
    var min: nat := from;
    max := to;
    while max - min > 1
      invariant min <= max && Halve(src.ok, min, max) == Halve(src.ok, from, to)
    {
      var mid: nat := (max + min) / 2;
      src.pos := mid;
      OneByte(src.ok, src.gives, mid);
      var lu, buffer := src.Read(1);
      if lu == 1 || lu == 0 {
        max := mid;
      } else {
        min := mid;
      }
    }
  }

  /** skip_to_next_readable. From a byte that cannot be read, both files end at the end of
      the device or at a byte that can be read, just after one that cannot. From a byte that
      can be read, the next one is looked at and nothing else. */
  method SkipToNextReadable(src: Source, dst: Destination) returns (found: bool, missed: nat)
    requires src.Valid() && src.pos < |src.ok|
    modifies src, dst
    ensures src.pos == dst.pos == Beyond(src.ok, old(src.pos)) > old(src.pos) && dst.cells == old(dst.cells)
    ensures missed == src.pos - old(src.pos) && src.pos <= |src.ok|
    ensures found <==> src.pos < |src.ok| && src.ok[src.pos]
    ensures if src.ok[old(src.pos)] then src.pos == old(src.pos) + 1
            else !src.ok[src.pos - 1] && Fine(src.ok, src.pos)
  {
    var min := src.pos;
    BeyondMeans(src.ok, min);
    var to := LookFurther(src);
    var max := Bisect(src, min, to);
    src.pos := max;
    OneByte(src.ok, src.gives, max);
    var lu, buffer := src.Read(1);
    src.pos := max;
    dst.pos := max;
    missed := max - min;
    found := lu == 1;
  }

  // ----- the whole copy

  /** Every byte copied is a readable byte of the source, at its own offset, before p. */
  ghost predicate InPlace(cells: map<nat, bv8>, content: seq<bv8>, ok: seq<bool>, p: nat)
    requires |ok| == |content|
  {
    forall i {:trigger cells[i]} :: i in cells ==> i < p && i < |content| && ok[i] && cells[i] == content[i]
  }

  /** Nothing has been put from p on. */
  ghost predicate Before(cells: map<nat, bv8>, p: nat) {
    forall i {:trigger i in cells} :: i in cells ==> i < p
  }

  /** The bytes before p that were not copied. */
  function Holes(cells: map<nat, bv8>, p: nat): nat {
    if p == 0 then 0 else Holes(cells, p - 1) + if p - 1 in cells then 0 else 1
  }

  lemma {:induction false} HolesSame(a: map<nat, bv8>, b: map<nat, bv8>, p: nat)
    requires forall i :: 0 <= i < p ==> (i in a <==> i in b)
    ensures Holes(a, p) == Holes(b, p)
  {
    if p > 0 {
      HolesSame(a, b, p - 1);
    }
  }

  lemma {:induction false} PutFills(now: map<nat, bv8>, cells: map<nat, bv8>, p: nat, bytes: seq<bv8>, n: nat)
    requires Put(now, cells, p, bytes) && n <= |bytes|
    ensures Holes(now, p + n) == Holes(cells, p)
    decreases n
  {
    if n == 0 {
      HolesSame(cells, now, p);
    } else {
      PutFills(now, cells, p, bytes, n - 1);
      assert p + n - 1 in now;
    }
  }

  /** Copying a readable part fills it. */
  lemma PutInPlace(now: map<nat, bv8>, cells: map<nat, bv8>, content: seq<bv8>, ok: seq<bool>, p: nat, q: nat)
    requires |ok| == |content| && Readable(ok, p, q) && InPlace(cells, content, ok, p)
    requires Put(now, cells, p, content[p..q])
    ensures InPlace(now, content, ok, q)
  {
  }

  /** What is put fills as many places. */
  lemma PutHoles(now: map<nat, bv8>, cells: map<nat, bv8>, p: nat, bytes: seq<bv8>)
    requires Before(cells, p) && Put(now, cells, p, bytes)
    ensures Before(now, p + |bytes|) && Holes(now, p + |bytes|) == Holes(cells, p)
  {
    PutFills(now, cells, p, bytes, |bytes|);
  }

  /** What is skipped is missing. */
  lemma {:induction false} SkipHoles(cells: map<nat, bv8>, p: nat, q: nat)
    requires p <= q && Before(cells, p)
    ensures Holes(cells, q) == Holes(cells, p) + (q - p) && Before(cells, q)
    decreases q
  {
    if p < q {
      SkipHoles(cells, p, q - 1);
    }
  }

  /** Recovering from an error: what precedes the bad byte b is read, then both files are put
      where reading can go on. Only a byte left unread before b, by a device that does not
      give it together with b, ends the copy before the end of the device. The bytes that a
      write did not take are lost, and are not counted as missing; nothing is lost exactly
      when one write takes the longest part read. */
  method Recover(src: Source, dst: Destination, ghost b: nat) returns (found: bool, missed: nat, ghost lost: nat)
    requires src.Valid() && src.pos == dst.pos && NextBad(src.ok, src.pos, b) && Before(dst.cells, src.pos)
    modifies src, dst
    ensures src.pos == dst.pos && old(src.pos) < src.pos <= |src.content| && Before(dst.cells, src.pos)
    ensures var p := old(src.pos);
            var q := StopFrom(src.ok, src.gives, p);
            && p <= q < src.pos == Beyond(src.ok, q) && missed == src.pos - q
            && (found <==> src.pos < |src.ok| && src.ok[src.pos])
            && Holes(dst.cells, src.pos) == Holes(old(dst.cells), p) + missed + lost
            && (lost == 0 <==> Longest(PartsAt(src.ok, src.gives, p)) <= dst.maxWrite)
            && (lost == 0 ==> Filling(dst.cells, old(dst.cells), p, q))
            && (lost == 0 && InPlace(old(dst.cells), src.content, src.ok, p) ==>
                 InPlace(dst.cells, src.content, src.ok, src.pos))
            && if q == b then !src.ok[src.pos - 1] && Fine(src.ok, src.pos) && (found <==> src.pos < |src.content|)
               else q + 1 == b && Answer(src.ok, src.gives, q, 2) < 0 && !found && src.pos == b
  {
    ghost var p, cells := src.pos, dst.cells;
    XferBeforeError(src, dst);
    lost := Recovered(src.content, src.ok, src.gives, cells, p, b, dst.cells, dst.pos, dst.maxWrite);
    ghost var q := src.pos;
    found, missed := SkipToNextReadable(src, dst);
    SkipHoles(dst.cells, q, src.pos);
  }

  /** Exactly the bytes from p to q have been added. */
  ghost predicate Filling(now: map<nat, bv8>, cells: map<nat, bv8>, p: nat, q: nat) {
    forall i: nat {:trigger i in now} :: i in now <==> i in cells || p <= i < q
  }

  /** What has been copied before the bad byte. */
  lemma Recovered(content: seq<bv8>, ok: seq<bool>, gives: Gives, cells: map<nat, bv8>, p: nat, b: nat,
                  now: map<nat, bv8>, pos: nat, most: nat) returns (lost: nat)
    requires |ok| == |content| && NextBad(ok, p, b) && Before(cells, p)
    requires p + Sum(PartsAt(ok, gives, p)) <= |content|
    requires Filled(now, pos, cells, p, Written(content, p, PartsAt(ok, gives, p), most))
    ensures var q := StopFrom(ok, gives, p);
            && (q == b || (q + 1 == b && Answer(ok, gives, q, 2) < 0))
            && Before(now, q) && Holes(now, q) == Holes(cells, p) + lost
            && (lost == 0 <==> Longest(PartsAt(ok, gives, p)) <= most)
            && (lost == 0 ==> Filling(now, cells, p, q))
            && (lost == 0 && InPlace(cells, content, ok, p) ==> InPlace(now, content, ok, q))
  {
    var parts := PartsAt(ok, gives, p);
    var q := LastByteOf(ok, gives, p, b);
    AllWritten(content, p, parts, most);
    lost := Lost(content, ok, cells, p, q, now, Written(content, p, parts, most));
  }

  /** The bytes w have been put from p on, when they should be all those up to q. */
  lemma Lost(content: seq<bv8>, ok: seq<bool>, cells: map<nat, bv8>, p: nat, q: nat, now: map<nat, bv8>, w: seq<bv8>)
    returns (lost: nat)
    requires |ok| == |content| && Readable(ok, p, q) && Before(cells, p) && Put(now, cells, p, w)
    requires p + |w| <= q && (p + |w| == q ==> w == content[p..q])
    ensures lost == q - p - |w| && Before(now, q) && Holes(now, q) == Holes(cells, p) + lost
    ensures lost == 0 ==> Filling(now, cells, p, q)
    ensures lost == 0 && InPlace(cells, content, ok, p) ==> InPlace(now, content, ok, q)
  {
    PutHoles(now, cells, p, w);
    SkipHoles(now, p + |w|, q);
    lost := q - p - |w|;
    if lost == 0 && InPlace(cells, content, ok, p) {
      PutInPlace(now, cells, content, ok, p, q);
    }
  }

  /** What is read without error is copied whole. */
  lemma ReadCopied(now: map<nat, bv8>, cells: map<nat, bv8>, content: seq<bv8>, ok: seq<bool>, p: nat, q: nat)
    requires |ok| == |content| && Readable(ok, p, q) && Before(cells, p) && Put(now, cells, p, content[p..q])
    ensures Before(now, q) && Holes(now, q) == Holes(cells, p) && Filling(now, cells, p, q)
    ensures InPlace(cells, content, ok, p) ==> InPlace(now, content, ok, q)
  {
    PutHoles(now, cells, p, content[p..q]);
    if InPlace(cells, content, ok, p) {
      PutInPlace(now, cells, content, ok, p, q);
    }
  }

  /** The copy stands at p, `rest` is the course from there and `whole` that of the copy. */
  ghost predicate OnCourse(ok: seq<bool>, gives: Gives, most: nat, whole: Course, rest: Course, p: nat,
                           cells: map<nat, bv8>, missed: nat, gaveUp: bool, lost: nat) {
    && p <= |ok| && (rest == CourseFrom(ok, gives, p) || rest.Over?)
    && EndOf(whole, 0) == EndOf(rest, p)
    && Missing(whole, 0, |ok|) == missed + Missing(rest, p, |ok|)
    && (GivesUp(whole) <==> gaveUp || GivesUp(rest))
    && (Fits(ok, gives, whole, 0, most) <==> lost == 0 && Fits(ok, gives, rest, p, most))
    && (lost == 0 ==> forall i: nat {:trigger i in cells} {:trigger Covers(whole, 0, i)} ::
          Covers(whole, 0, i) <==> i in cells || Covers(rest, p, i))
  }

  lemma ReadOnCourse(ok: seq<bool>, gives: Gives, most: nat, whole: Course, p: nat, cells: map<nat, bv8>,
                     missed: nat, lost: nat, q: nat, now: map<nat, bv8>)
    requires p <= |ok| && OnCourse(ok, gives, most, whole, CourseFrom(ok, gives, p), p, cells, missed, false, lost)
    requires Answer(ok, gives, p, BUF_SIZE) == q - p > 0 && Filling(now, cells, p, q)
    ensures q <= |ok| && OnCourse(ok, gives, most, whole, CourseFrom(ok, gives, q), q, now, missed, false, lost)
  {
    assert CourseFrom(ok, gives, p) == Read(q, CourseFrom(ok, gives, q));
  }

  lemma JumpOnCourse(ok: seq<bool>, gives: Gives, most: nat, whole: Course, p: nat, cells: map<nat, bv8>,
                     missed: nat, lost: nat, r: nat, now: map<nat, bv8>, more: nat)
    requires p <= |ok| && OnCourse(ok, gives, most, whole, CourseFrom(ok, gives, p), p, cells, missed, false, lost)
    requires Answer(ok, gives, p, BUF_SIZE) < 0 && r == Beyond(ok, StopFrom(ok, gives, p)) <= |ok|
    requires more == 0 ==> Filling(now, cells, p, StopFrom(ok, gives, p))
    requires more == 0 <==> Longest(PartsAt(ok, gives, p)) <= most
    ensures var q, found := StopFrom(ok, gives, p), r < |ok| && ok[r];
            && p <= q < r && r <= |ok|
            && if found then
                 OnCourse(ok, gives, most, whole, CourseFrom(ok, gives, r), r, now, missed + r - q, false, lost + more)
               else OnCourse(ok, gives, most, whole, Over, r, now, missed + |ok| - p, true, lost + more)
  {
    StopBeforeEnd(ok, gives, p);
    var q := StopFrom(ok, gives, p);
    BeyondMeans(ok, q);
    if r < |ok| && ok[r] {
      ReadableGoesOn(ok, gives, r);
    }
  }

  /** copy_max. Both files advance together, along the course of the device: where the copy
      ends, whether it gives up and the number of missing bytes are those of the course, and
      so are the bytes copied, each at its own offset, unless some write took less than what
      was read. The number of missing bytes is exact when the copy does not give up, but for
      the lost bytes, and at least the real one otherwise. */
  method CopyMax(src: Source, dst: Destination) returns (missed: nat, gaveUp: bool, ghost lost: nat)
    requires src.Valid() && src.pos == dst.pos == 0 && dst.cells == map[] && dst.maxWrite > 0
    modifies src, dst
    ensures var t := CourseFrom(src.ok, src.gives, 0);
            && src.pos == dst.pos == EndOf(t, 0) <= |src.content|
            && missed == Missing(t, 0, |src.content|) && (gaveUp <==> GivesUp(t))
            && (lost == 0 <==> Fits(src.ok, src.gives, t, 0, dst.maxWrite))
            && (lost == 0 ==> CopiedAlong(dst.cells, t) && InPlace(dst.cells, src.content, src.ok, src.pos))
    ensures !gaveUp ==> src.pos == |src.content| && Holes(dst.cells, |src.content|) == missed + lost
    ensures gaveUp ==> Holes(dst.cells, |src.content|) <= missed + lost
    ensures dst.maxWrite >= BUF_SIZE / 2 ==> lost == 0
    ensures lost == 0 ==> OnlySpansMissing(src.ok, src.gives, dst.cells, src.pos)
    ensures src.pos < |src.content| ==>
              gaveUp && src.pos > 0 && !src.ok[src.pos] && Answer(src.ok, src.gives, src.pos - 1, 2) < 0
    ensures src.gives == [] ==> (src.pos < |src.content| <==> OddRun(src.ok, 0))
    ensures Readable(src.ok, 0, |src.ok|) ==> missed == lost == 0 && !gaveUp && Whole(dst.cells, src.content)
  {
    ghost var whole := CourseFrom(src.ok, src.gives, 0);
    missed, gaveUp, lost := CopyAll(src, dst, whole);
    CourseMeans(src.content, src.ok, src.gives, dst.maxWrite, dst.cells, lost);
  }

  /** Exactly the bytes of the course have been copied. */
  ghost predicate CopiedAlong(cells: map<nat, bv8>, t: Course) {
    forall i: nat {:trigger i in cells} :: i in cells <==> Covers(t, 0, i)
  }

  /** Every byte before p has been copied, unless it is among bytes left out that begin and
      end with a bad one, or is the one before the bad byte where the copy ends. */
  ghost predicate OnlySpansMissing(ok: seq<bool>, gives: Gives, cells: map<nat, bv8>, p: nat) {
    var t := CourseFrom(ok, gives, 0);
    forall i: nat {:trigger i in cells} :: i < p && i !in cells ==>
      Spanned(ok, t, 0, i) || (GivesUp(t) && i + 1 == p < |ok|)
  }

  ghost predicate Whole(cells: map<nat, bv8>, content: seq<bv8>) {
    forall i: nat {:trigger i in cells} :: i < |content| ==> i in cells && cells[i] == content[i]
  }

  /** What following the course means for the copy. */
  lemma CourseMeans(content: seq<bv8>, ok: seq<bool>, gives: Gives, most: nat, cells: map<nat, bv8>, lost: nat)
    requires |ok| == |content|
    requires var t := CourseFrom(ok, gives, 0);
             && (lost == 0 <==> Fits(ok, gives, t, 0, most))
             && (lost == 0 ==> CopiedAlong(cells, t) && InPlace(cells, content, ok, EndOf(t, 0)))
    ensures var t := CourseFrom(ok, gives, 0);
            var e := EndOf(t, 0);
            && (most >= BUF_SIZE / 2 ==> lost == 0)
            && (lost == 0 ==> OnlySpansMissing(ok, gives, cells, e))
            && (e < |ok| ==> GivesUp(t) && e > 0 && !ok[e] && Answer(ok, gives, e - 1, 2) < 0)
            && (gives == [] ==> (e < |ok| <==> OddRun(ok, 0)))
            && (Readable(ok, 0, |ok|) ==> lost == Missing(t, 0, |ok|) == 0 && !GivesUp(t) && Whole(cells, content))
  {
    var t := CourseFrom(ok, gives, 0);
    LargeWritesFit(ok, gives, 0, most);
    AllAccounted(ok, gives);
    if lost == 0 {
      assert forall i: nat {:trigger i in cells} :: i < EndOf(t, 0) ==> Accounted(ok, t, 0, i);
    }
    if EndOf(t, 0) < |ok| {
      EarlyEnd(ok, gives, 0);
    }
    if gives == [] {
      EarlyIffOddRun(ok, 0);
    }
    if Readable(ok, 0, |ok|) {
      GoodDevice(ok, gives, 0);
    }
  }

  method CopyAll(src: Source, dst: Destination, ghost whole: Course)
    returns (missed: nat, gaveUp: bool, ghost lost: nat)
    requires src.Valid() && src.pos == dst.pos == 0 && dst.cells == map[] && dst.maxWrite > 0
    requires whole == CourseFrom(src.ok, src.gives, 0)
    modifies src, dst
    ensures src.pos == dst.pos <= |src.content|
    ensures OnCourse(src.ok, src.gives, dst.maxWrite, whole, Over, src.pos, dst.cells, missed, gaveUp, lost)
    ensures lost == 0 ==> InPlace(dst.cells, src.content, src.ok, src.pos)
    ensures !gaveUp ==> src.pos == |src.content| && Holes(dst.cells, |src.content|) == missed + lost
    ensures gaveUp ==> Holes(dst.cells, |src.content|) <= missed + lost
  {
    ghost var rest := whole;
    missed, gaveUp, lost := 0, false, 0;
    var lu := 1;
    while lu > 0
      invariant src.pos == dst.pos <= |src.content| && Before(dst.cells, src.pos)
      invariant OnCourse(src.ok, src.gives, dst.maxWrite, whole, rest, src.pos, dst.cells, missed, gaveUp, lost)
      invariant if lu > 0 then !gaveUp && rest == CourseFrom(src.ok, src.gives, src.pos) else rest.Over?
      invariant lost == 0 ==> InPlace(dst.cells, src.content, src.ok, src.pos)
      invariant !gaveUp ==> Holes(dst.cells, src.pos) == missed + lost && (lu <= 0 ==> src.pos == |src.content|)
      invariant gaveUp ==> Holes(dst.cells, |src.content|) <= missed + lost
      decreases lu > 0, |src.content| - src.pos
    {
      lu, missed, gaveUp, lost := CopyPart(src, dst, missed, lost, whole);
      rest := if lu > 0 then CourseFrom(src.ok, src.gives, src.pos) else Over;
    }
  }

  /** One turn of the copy: a part read, the end, or an error and its recovery. */
  method CopyPart(src: Source, dst: Destination, missed: nat, ghost lost: nat, ghost whole: Course)
    returns (lu: int, missed2: nat, gaveUp: bool, ghost lost2: nat)
    requires src.Valid() && dst.maxWrite > 0 && src.pos == dst.pos <= |src.content| && Before(dst.cells, src.pos)
    requires OnCourse(src.ok, src.gives, dst.maxWrite, whole, CourseFrom(src.ok, src.gives, src.pos), src.pos,
                      dst.cells, missed, false, lost)
    requires lost == 0 ==> InPlace(dst.cells, src.content, src.ok, src.pos)
    requires Holes(dst.cells, src.pos) == missed + lost
    modifies src, dst
    ensures old(src.pos) <= src.pos == dst.pos <= |src.content| && Before(dst.cells, src.pos)
    ensures OnCourse(src.ok, src.gives, dst.maxWrite, whole,
                     if lu > 0 then CourseFrom(src.ok, src.gives, src.pos) else Over, src.pos,
                     dst.cells, missed2, gaveUp, lost2)
    ensures lost2 == 0 ==> InPlace(dst.cells, src.content, src.ok, src.pos)
    ensures !gaveUp ==> Holes(dst.cells, src.pos) == missed2 + lost2 && (lu <= 0 ==> src.pos == |src.content|)
    ensures gaveUp ==> lu <= 0 && Holes(dst.cells, |src.content|) <= missed2 + lost2
    ensures lu > 0 ==> src.pos > old(src.pos)
  {
    ghost var cells, p := dst.cells, src.pos;
    ghost var b := AnswerMeans(src.ok, src.gives, p, BUF_SIZE);
    missed2, gaveUp, lost2 := missed, false, lost;
    lu := NormalCopy(BUF_SIZE, src, dst);
    if lu > 0 {
      ReadCopied(dst.cells, cells, src.content, src.ok, p, src.pos);
      ReadOnCourse(src.ok, src.gives, dst.maxWrite, whole, p, cells, missed, lost, src.pos, dst.cells);
    } else if lu < 0 {
      lu, missed2, gaveUp, lost2 := CopyAfterError(src, dst, missed, lost, whole, b);
    }
  }

  method CopyAfterError(src: Source, dst: Destination, missed: nat, ghost lost: nat, ghost whole: Course, ghost b: nat)
    returns (lu: int, missed2: nat, gaveUp: bool, ghost lost2: nat)
    requires src.Valid() && src.pos == dst.pos <= |src.content| && Before(dst.cells, src.pos)
    requires Answer(src.ok, src.gives, src.pos, BUF_SIZE) < 0 && NextBad(src.ok, src.pos, b)
    requires OnCourse(src.ok, src.gives, dst.maxWrite, whole, CourseFrom(src.ok, src.gives, src.pos), src.pos,
                      dst.cells, missed, false, lost)
    requires lost == 0 ==> InPlace(dst.cells, src.content, src.ok, src.pos)
    requires Holes(dst.cells, src.pos) == missed + lost
    modifies src, dst
    ensures old(src.pos) < src.pos == dst.pos <= |src.content| && Before(dst.cells, src.pos)
    ensures OnCourse(src.ok, src.gives, dst.maxWrite, whole,
                     if lu > 0 then CourseFrom(src.ok, src.gives, src.pos) else Over, src.pos,
                     dst.cells, missed2, gaveUp, lost2)
    ensures lost2 == 0 ==> InPlace(dst.cells, src.content, src.ok, src.pos)
    ensures if lu > 0 then !gaveUp && Holes(dst.cells, src.pos) == missed2 + lost2
            else gaveUp && Holes(dst.cells, |src.content|) <= missed2 + lost2
  {
    ghost var cells, p := dst.cells, src.pos;
    var current := src.pos;
    var found, local;
    ghost var more;
    found, local, more := Recover(src, dst, b);
    JumpOnCourse(src.ok, src.gives, dst.maxWrite, whole, p, cells, missed, lost, src.pos, dst.cells, more);
    lost2 := lost + more;
    if found {
      missed2, gaveUp, lu := missed + local, false, 1;
    } else {
      SkipHoles(dst.cells, src.pos, |src.content|);
      missed2, gaveUp, lu := missed + (|src.content| - current), true, 0;
    }
  }

  /** A write that takes the largest block takes every part. */
  lemma {:induction false} LargeWritesFit(ok: seq<bool>, gives: Gives, p: nat, most: nat)
    requires p <= |ok|
    ensures most >= BUF_SIZE / 2 ==> Fits(ok, gives, CourseFrom(ok, gives, p), p, most)
    decreases |ok| - p
  {
    var t := CourseFrom(ok, gives, p);
    match t
    case Over =>
    case Read(to, rest) => LargeWritesFit(ok, gives, to, most);
    case Jump(_, to, rest) =>
      var b := JumpMeans(ok, gives, p);
      LongestIsBlock(ok, gives, p, BUF_SIZE / 2);
      if !rest.Over? {
        LargeWritesFit(ok, gives, to, most);
      }
  }

  // ----- devices and writes that make it fail

  /** On a device that gives all or nothing, one bad byte between two good ones: the copy ends
      after one byte, having copied nothing. */
  method LastByteLeft(content: seq<bv8>) returns (missed: nat, src: Source, dst: Destination)
    requires |content| == 3
    ensures src.content == content && src.ok == [true, false, true] && src.gives == []
    ensures src.pos == 1 && dst.cells == map[] && missed == 3
  {
    var ok := seq(3, i => i != 1);
    src := new Source(content, ok, []);
    dst := new Destination(BUF_SIZE);
    OddCourse(src.ok);
    var gaveUp;
    ghost var lost;
    missed, gaveUp, lost := CopyMax(src, dst);
    assert forall i: nat {:trigger i in dst.cells} :: i !in dst.cells;
  }

  /** The course on that device. */
  lemma OddCourse(ok: seq<bool>)
    requires |ok| == 3 && ok[0] && !ok[1] && ok[2]
    ensures CourseFrom(ok, [], 0) == Jump(0, 1, Over)
  {
    assert NextBad(ok, 0, 1);
    BadInBlock(ok, 0, 1);
    EvenPart(ok, 0, 1);
    var b := JumpMeans(ok, [], 0);
  }

  /** Whatever a write takes, if less than the largest block, some copy has more holes than it
      says: half a thousand readable bytes before a bad one are enough. */
  method ShortWriteLoses(content: seq<bv8>, most: nat) returns (missed: nat, src: Source, dst: Destination)
    requires |content| == 514 && 0 < most < BUF_SIZE / 2
    ensures src.content == content && dst.maxWrite == most && src.pos == 514 && missed == 1
    ensures Holes(dst.cells, 514) > missed
  {
    var ok := seq(514, i => i != 512);
    src := new Source(content, ok, []);
    dst := new Destination(most);
    LongRunMisses(ok, most);
    var gaveUp;
    ghost var lost;
    missed, gaveUp, lost := CopyMax(src, dst);
  }

  lemma LongRunMisses(ok: seq<bool>, most: nat)
    requires |ok| == 514 && (forall i :: 0 <= i < 514 ==> ok[i] == (i != 512)) && most < 512
    ensures var t := CourseFrom(ok, [], 0);
            EndOf(t, 0) == 514 && Missing(t, 0, 514) == 1 && !GivesUp(t) && !Fits(ok, [], t, 0, most)
  {
    LongRun(ok);
  }

  /** The course on that device. */
  lemma LongRun(ok: seq<bool>)
    requires |ok| == 514 && forall i :: 0 <= i < 514 ==> ok[i] == (i != 512)
    ensures CourseFrom(ok, [], 0) == Jump(512, 513, Read(514, Over)) && Longest(PartsAt(ok, [], 0)) == 512
  {
    assert NextBad(ok, 0, 512);
    BadInBlock(ok, 0, 512);
    EmptyTable(ok, 512);
    HalfIsPower();
    var parts := WithAllOrNothing(ok, [], 0, 512, BUF_SIZE / 2);
    var b := JumpMeans(ok, [], 0);
    BeyondMeans(ok, 512);
    assert CourseFrom(ok, [], 0).stop == 512;
    LastOne(ok);
  }

  lemma LastOne(ok: seq<bool>)
    requires |ok| == 514 && forall i :: 0 <= i < 514 ==> ok[i] == (i != 512)
    ensures CourseFrom(ok, [], 513) == Read(514, Over)
  {
    assert Run(ok, 513, 1) == 1 + Run(ok, 514, 0);
  }

  /** And what follows is put at wrong offsets: with writes of one byte, the fifth byte takes
      the place of the second one. */
  method ShortWriteMisplaces(content: seq<bv8>) returns (dst: Destination)
    requires |content| == 7
    ensures dst.maxWrite == 1 && dst.pos == 2 && 1 in dst.cells && dst.cells[1] == content[4]
  {
    var ok := seq(7, i => i < 6);
    var src := new Source(content, ok, []);
    dst := new Destination(1);
    SixBytes(ok);
    XferBeforeError(src, dst);
    TwoOfSix(content);
  }
}
