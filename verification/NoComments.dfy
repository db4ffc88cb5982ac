/** The virtual file without comment lines: what its pieces are, line by line, and the
    automaton that finds them byte by byte. */
module NoComments {
  import opened Pieces
  import opened VirtualFiles

  // ----- lines

  /** Where the line of p ends, its line break included. */
  function EndOfLine(s: seq<char>, p: nat): (e: nat)
    requires p < |s|
    ensures p < e <= |s|
    decreases |s| - p
  {
    if s[p] == '\n' || p + 1 == |s| then p + 1 else EndOfLine(s, p + 1)
  }

  predicate IsBlank(c: char) { c == ' ' || c == '\t' }

  /** The first byte from p on that is neither a space nor a tabulation. */
  function FirstInk(s: seq<char>, p: nat): (f: nat)
    requires p <= |s|
    ensures p <= f <= |s|
    decreases |s| - p
  {
    if p < |s| && IsBlank(s[p]) then FirstInk(s, p + 1) else p
  }

  datatype Line = Empty | Comment | Command(ink: nat)

  function LineAt(s: seq<char>, p: nat): (l: Line)
    requires p <= |s|
    ensures l.Command? ==> p <= l.ink < |s|
  {
    var f := FirstInk(s, p);
    if f == |s| || s[f] == '\n' then Empty
    else if s[f] == '#' then Comment
    else Command(f)
  }

  ghost predicate NoBreak(s: seq<char>, p: nat, q: nat) {
    p <= q <= |s| && forall i :: p <= i < q ==> s[i] != '\n'
  }

  lemma {:induction false} SameLine(s: seq<char>, p: nat, q: nat)
    requires NoBreak(s, p, q) && p < |s|
    ensures EndOfLine(s, p) == if q < |s| then EndOfLine(s, q) else |s|
    decreases q - p
  {
    if p < q && p + 1 < |s| {
      SameLine(s, p + 1, q);
    }
  }

  lemma {:induction false} InkInLine(s: seq<char>, p: nat, f: nat)
    requires p < |s| && f == FirstInk(s, p)
    ensures NoBreak(s, p, f) && (f < |s| ==> f < EndOfLine(s, p))
    decreases |s| - p
  {
    if IsBlank(s[p]) && p + 1 < |s| {
      InkInLine(s, p + 1, f);
    }
  }

  // ----- lines by their characters

  /** The line that begins at p ends at e, its line break included. */
  ghost predicate LineIs(s: seq<char>, p: nat, e: nat) {
    && p < e <= |s| && (forall i :: p <= i < e - 1 ==> s[i] != '\n') && (e < |s| ==> s[e - 1] == '\n')
  }

  /** Only spaces and tabulations from p to f. */
  ghost predicate BlankTo(s: seq<char>, p: nat, f: nat) {
    p <= f <= |s| && forall i :: p <= i < f ==> s[i] == ' ' || s[i] == '\t'
  }

  lemma {:induction false} EndOfLineIs(s: seq<char>, p: nat, e: nat)
    requires p < |s|
    ensures LineIs(s, p, e) <==> e == EndOfLine(s, p)
    decreases |s| - p
  {
    if s[p] != '\n' && p + 1 < |s| {
      EndOfLineIs(s, p + 1, e);
    }
  }

  /** f is the first place from p on that holds no space and no tabulation. */
  ghost predicate InkIs(s: seq<char>, p: nat, f: nat) {
    BlankTo(s, p, f) && (f < |s| ==> s[f] != ' ' && s[f] != '\t')
  }

  lemma {:induction false} FirstInkIs(s: seq<char>, p: nat, f: nat)
    requires p <= |s|
    ensures InkIs(s, p, f) <==> f == FirstInk(s, p)
    decreases |s| - p
  {
    if p < |s| && IsBlank(s[p]) {
      FirstInkIs(s, p + 1, f);
    }
  }

  /** A comment is a line whose first character, but for spaces and tabulations, is a hash; a
      command is any other line with such a character. */
  lemma LineAtIs(s: seq<char>, p: nat, f: nat)
    requires p <= |s| && InkIs(s, p, f)
    ensures LineAt(s, p) == if f == |s| || s[f] == '\n' then Empty else if s[f] == '#' then Comment else Command(f)
  {
    FirstInkIs(s, p, f);
  }

  // ----- the pieces

  /** The pieces so far; open when the last line that was not empty is a command. */
  datatype Scan = Scan(m: seq<Partie>, open: bool)

  function LineStep(s: seq<char>, p: nat, st: Scan): Scan
    requires p < |s|
  {
    match LineAt(s, p)
    case Empty => st
    case Comment => Scan(st.m, false)
    case Command(f) =>
      var e := EndOfLine(s, p);
      if st.open && st.m != [] && st.m[|st.m| - 1].debut <= e then Scan(ExtendLast(st.m, e), true)
      else if f <= e then Scan(Append(st.m, f, e), true)
      else st
  }

  /** A piece for each run of command lines: from the first byte that is not blank of the
      first of them to the end of the last; a run ends at a comment line. */
  function ScanFrom(s: seq<char>, p: nat, st: Scan): seq<Partie>
    requires p <= |s|
    decreases |s| - p
  {
    if p == |s| then st.m else ScanFrom(s, EndOfLine(s, p), LineStep(s, p, st))
  }

  function NoCommentPieces(s: seq<char>): seq<Partie> {
    ScanFrom(s, 0, Scan([], false))
  }

  // ----- what the pieces are

  ghost predicate LineStart(s: seq<char>, q: nat) {
    q < |s| && (q == 0 || s[q - 1] == '\n')
  }

  /** Some piece holds all the bytes from a to b. */
  ghost predicate Inside(m: seq<Partie>, a: nat, b: nat) {
    exists k :: 0 <= k < |m| && m[k].debut <= a && b <= m[k].Fin()
  }

  /** No piece holds any byte from a to b. */
  ghost predicate Outside(m: seq<Partie>, a: nat, b: nat) {
    forall k {:trigger m[k]} :: 0 <= k < |m| ==> m[k].Fin() <= a || b <= m[k].debut
  }

  /** Each line is treated as it should: commands are in, comments are out. */
  ghost predicate LineTreated(s: seq<char>, m: seq<Partie>, q: nat)
    requires q < |s|
  {
    match LineAt(s, q)
    case Empty => true
    case Comment => Outside(m, q, EndOfLine(s, q))
    case Command(f) => Inside(m, f, EndOfLine(s, q))
  }

  ghost predicate TreatedUpTo(s: seq<char>, m: seq<Partie>, p: nat) {
    forall q {:trigger LineTreated(s, m, q)} :: 0 <= q < p && LineStart(s, q) ==> LineTreated(s, m, q)
  }

  /** a is the first byte that is not blank of a command line. */
  ghost predicate StartsCommand(s: seq<char>, a: nat) {
    exists p: nat {:trigger LineStart(s, p)} :: LineStart(s, p) && LineAt(s, p) == Command(a)
  }

  /** b is the end of a command line. */
  ghost predicate EndsCommand(s: seq<char>, b: nat) {
    exists p: nat {:trigger LineStart(s, p)} :: LineStart(s, p) && LineAt(s, p).Command? && EndOfLine(s, p) == b
  }

  /** A comment line begins between a and b. */
  ghost predicate CommentBetween(s: seq<char>, a: nat, b: nat) {
    exists q: nat {:trigger LineStart(s, q)} :: a <= q < b && LineStart(s, q) && LineAt(s, q) == Comment
  }

  /** Pieces go from command to command, and only comments separate them. */
  ghost predicate Framed(s: seq<char>, m: seq<Partie>) {
    forall k {:trigger PieceFramed(s, m, k)} :: 0 <= k < |m| ==> PieceFramed(s, m, k)
  }

  ghost predicate PieceFramed(s: seq<char>, m: seq<Partie>, k: nat)
    requires k < |m|
  {
    && StartsCommand(s, m[k].debut) && EndsCommand(s, m[k].Fin())
    && (k > 0 ==> CommentBetween(s, m[k - 1].Fin(), m[k].debut))
  }

  /** Where p is after some lines: nothing but empty lines since the last piece when open. */
  ghost predicate ScanOk(s: seq<char>, p: nat, st: Scan) {
    && p <= |s| && Good(st.m, |s|) && EndOf(st.m) <= p && TreatedUpTo(s, st.m, p) && Framed(s, st.m)
    && (!st.open && st.m != [] ==> CommentBetween(s, EndOf(st.m), p))
    && (st.open ==> st.m != [] && forall q {:trigger LineAt(s, q)} :: EndOf(st.m) <= q < p && LineStart(s, q) ==>
         LineAt(s, q) == Empty)
    && (p < |s| ==> LineStart(s, p))
  }

  lemma {:induction false} NoStartInside(s: seq<char>, p: nat, q: nat)
    requires p < q < |s| && q < EndOfLine(s, p)
    ensures !LineStart(s, q)
    decreases q - p
  {
    if p + 1 < q {
      NoStartInside(s, p + 1, q);
    }
  }

  lemma {:induction false} NextIsStart(s: seq<char>, p: nat)
    requires p < |s|
    ensures EndOfLine(s, p) < |s| ==> LineStart(s, EndOfLine(s, p))
    decreases |s| - p
  {
    if s[p] != '\n' && p + 1 < |s| {
      NextIsStart(s, p + 1);
    }
  }

  lemma PieceEnds(m: seq<Partie>, n: nat, k: nat)
    requires Good(m, n) && k < |m|
    ensures m[k].debut < m[k].Fin() <= EndOf(m)
  {
    PieceAt(m, n, k);
    if k < |m| - 1 {
      Ordered(m, n, k, |m| - 1);
      PieceAt(m, n, |m| - 1);
    }
  }

  /** The lines before stay as they were treated when the pieces change at their end. */
  lemma StillTreated(s: seq<char>, p: nat, st: Scan, m2: seq<Partie>, q: nat)
    requires ScanOk(s, p, st) && p < |s| && LineStep(s, p, st).m == m2 && q < p && LineStart(s, q)
    ensures LineTreated(s, m2, q)
  {
    var m := st.m;
    assert LineTreated(s, m, q);
    match LineAt(s, p)
    case Command(f) =>
      InkInLine(s, p, f);
      match LineAt(s, q) {
        case Empty =>
        case Comment =>
          OutsideStays(s, p, st, f, q);
        case Command(g) =>
          var k :| 0 <= k < |m| && m[k].debut <= g && EndOfLine(s, q) <= m[k].Fin();
          PieceEnds(m, |s|, k);
          assert m2[k].debut <= g && EndOfLine(s, q) <= m2[k].Fin();
      }
    case _ =>
  }

  lemma OutsideStays(s: seq<char>, p: nat, st: Scan, f: nat, q: nat)
    requires ScanOk(s, p, st) && p < |s| && q < p && LineStart(s, q)
    requires LineAt(s, p) == Command(f) && LineAt(s, q) == Comment && Outside(st.m, q, EndOfLine(s, q))
    ensures Outside(LineStep(s, p, st).m, q, EndOfLine(s, q))
  {
    var m, m2, e := st.m, LineStep(s, p, st).m, EndOfLine(s, q);
    if p < e {
      NoStartInside(s, q, p);
    }
    forall k {:trigger m2[k]} | 0 <= k < |m2| ensures m2[k].Fin() <= q || e <= m2[k].debut {
      if k < |m| {
        PieceEnds(m, |s|, k);
        assert m[k].Fin() <= q || e <= m[k].debut;
        if st.open && k == |m| - 1 {
          assert m[k].Fin() == EndOf(m);
          assert LineAt(s, q) != Empty;
        }
      }
    }
  }

  lemma StepOk(s: seq<char>, p: nat, st: Scan)
    requires ScanOk(s, p, st) && p < |s|
    ensures ScanOk(s, EndOfLine(s, p), LineStep(s, p, st))
  {
    var st2, e := LineStep(s, p, st), EndOfLine(s, p);
    NextIsStart(s, p);
    var l := LineAt(s, p);
    if l.Command? {
      InkInLine(s, p, l.ink);
      CommandStepOk(s, p, st);
      FramedStep(s, p, st);
    } else if l.Comment? {
      assert LineStart(s, p) && EndOf(st.m) <= p < e;
    }
    forall q {:trigger LineTreated(s, st2.m, q)} | 0 <= q < e && LineStart(s, q) ensures LineTreated(s, st2.m, q) {
      if p < q {
        NoStartInside(s, p, q);
      } else if q < p {
        StillTreated(s, p, st, st2.m, q);
      } else {
        ThisLine(s, p, st);
      }
    }
    forall q {:trigger LineAt(s, q)} | st2.open && EndOf(st2.m) <= q < e && LineStart(s, q)
      ensures LineAt(s, q) == Empty {
      if p < q {
        NoStartInside(s, p, q);
      }
    }
  }

  lemma CommandStepOk(s: seq<char>, p: nat, st: Scan)
    requires ScanOk(s, p, st) && p < |s| && LineAt(s, p).Command?
    ensures var st2, e := LineStep(s, p, st), EndOfLine(s, p);
            && st2.open && st2.m != [] && Good(st2.m, |s|) && EndOf(st2.m) == e
            && st2.m[|st2.m| - 1].debut <= LineAt(s, p).ink
  {
    var f := LineAt(s, p).ink;
    InkInLine(s, p, f);
    if st.open {
      PieceEnds(st.m, |s|, |st.m| - 1);
      GoodExtend(st.m, |s|, EndOfLine(s, p));
    } else {
      GoodAppend(st.m, |s|, f, EndOfLine(s, p));
    }
  }

  lemma PieceFramedStep(s: seq<char>, p: nat, st: Scan, k: nat)
    requires ScanOk(s, p, st) && p < |s| && LineAt(s, p).Command? && k < |LineStep(s, p, st).m|
    ensures PieceFramed(s, LineStep(s, p, st).m, k)
  {
    var m := st.m;
    assert LineStart(s, p);
    CommandStepOk(s, p, st);
    if k < |m| {
      assert PieceFramed(s, m, k);
    } else if m != [] {
      NewPieceSeparated(s, p, st);
    }
  }

  lemma FramedStep(s: seq<char>, p: nat, st: Scan)
    requires ScanOk(s, p, st) && p < |s| && LineAt(s, p).Command?
    ensures Framed(s, LineStep(s, p, st).m)
  {
    forall k | 0 <= k < |LineStep(s, p, st).m| ensures PieceFramed(s, LineStep(s, p, st).m, k) {
      PieceFramedStep(s, p, st, k);
    }
  }

  lemma NewPieceSeparated(s: seq<char>, p: nat, st: Scan)
    requires ScanOk(s, p, st) && p < |s| && LineAt(s, p).Command? && !st.open && st.m != []
    ensures CommentBetween(s, EndOf(st.m), LineAt(s, p).ink)
  {
    var q: nat :| EndOf(st.m) <= q < p && LineStart(s, q) && LineAt(s, q) == Comment;
    assert q < LineAt(s, p).ink;
  }

  lemma ThisLine(s: seq<char>, p: nat, st: Scan)
    requires ScanOk(s, p, st) && p < |s|
    ensures LineTreated(s, LineStep(s, p, st).m, p)
  {
    match LineAt(s, p)
    case Command(f) =>
      CommandStepOk(s, p, st);
      var m := LineStep(s, p, st).m;
      assert m[|m| - 1].debut <= f && EndOfLine(s, p) <= m[|m| - 1].Fin();
    case Comment =>
      forall k {:trigger st.m[k]} | 0 <= k < |st.m| ensures st.m[k].Fin() <= p {
        PieceEnds(st.m, |s|, k);
      }
    case Empty =>
  }

  lemma {:induction false} ScanIsOk(s: seq<char>, p: nat, st: Scan)
    requires ScanOk(s, p, st)
    ensures var m := ScanFrom(s, p, st); Good(m, |s|) && TreatedUpTo(s, m, |s|) && Framed(s, m)
    decreases |s| - p
  {
    if p < |s| {
      StepOk(s, p, st);
      ScanIsOk(s, EndOfLine(s, p), LineStep(s, p, st));
    }
  }

  /** The pieces are sound, hold every command line and no byte of any comment line. */
  lemma NoCommentIsExact(s: seq<char>)
    ensures var m := NoCommentPieces(s);
            Good(m, |s|) && Framed(s, m) && forall q: nat :: LineStart(s, q) ==> LineTreated(s, m, q)
  {
    ScanIsOk(s, 0, Scan([], false));
    var m := NoCommentPieces(s);
    forall q: nat | LineStart(s, q) ensures LineTreated(s, m, q) {
    }
  }

  /** m holds the commands of s and not its comments. */
  ghost predicate WithoutComments(s: seq<char>, m: seq<Partie>) {
    Good(m, |s|) && Framed(s, m) && forall q: nat :: LineStart(s, q) ==> LineTreated(s, m, q)
  }

  // ----- the automaton

  datatype Status = StUnknown | StCommand | StComment

  /** Where the automaton is in the line that begins at ls: what it has read of it, and
      what remains to be done from there. */
  ghost predicate OnLine(s: seq<char>, ls: nat, p: nat, status: Status, tmp: Partie, st: Scan, goal: seq<Partie>) {
    && ls <= p <= |s| && NoBreak(s, ls, p) && ScanFrom(s, ls, st) == goal && (st.open ==> st.m != [])
    && match status
       case StUnknown => FirstInk(s, ls) == FirstInk(s, p)
       case StComment => ls < p && LineAt(s, ls) == Comment
       case StCommand =>
         tmp.debut < p && LineAt(s, ls) == Command(tmp.debut) && tmp.offset == Total(st.m) && tmp.Fin() == p
  }

  lemma LineStarts(s: seq<char>, ls: nat, tmp: Partie, st: Scan, goal: seq<Partie>)
    requires ls <= |s| && ScanFrom(s, ls, st) == goal && (st.open ==> st.m != [])
    ensures OnLine(s, ls, ls, StUnknown, tmp, st, goal)
  {
  }

  /** The line is over at e. */
  lemma LineEnds(s: seq<char>, ls: nat, p: nat, status: Status, tmp: Partie, st: Scan, goal: seq<Partie>)
    requires OnLine(s, ls, p, status, tmp, st, goal) && p < |s| && s[p] == '\n'
    ensures ls < |s| && EndOfLine(s, ls) == p + 1 && ScanFrom(s, p + 1, LineStep(s, ls, st)) == goal
    ensures status == StUnknown ==> LineAt(s, ls) == Empty
  {
    SameLine(s, ls, p);
  }

  lemma LastLineEnds(s: seq<char>, ls: nat, status: Status, tmp: Partie, st: Scan, goal: seq<Partie>)
    requires OnLine(s, ls, |s|, status, tmp, st, goal)
    ensures status == StUnknown ==> goal == st.m
    ensures status != StUnknown ==> ls < |s| && EndOfLine(s, ls) == |s| && LineStep(s, ls, st).m == goal
  {
    if ls < |s| {
      SameLine(s, ls, |s|);
      assert ScanFrom(s, |s|, LineStep(s, ls, st)) == LineStep(s, ls, st).m;
      if status == StUnknown {
        assert LineAt(s, ls) == Empty;
      }
    }
  }

  lemma InkMeansKind(s: seq<char>, ls: nat, p: nat)
    requires NoBreak(s, ls, p) && p < |s| && FirstInk(s, ls) == FirstInk(s, p) && !IsBlank(s[p]) && s[p] != '\n'
    ensures LineAt(s, ls) == if s[p] == '#' then Comment else Command(p)
  {
  }

  /** The variables of the automaton. */
  datatype Automaton = Automaton(status: Status, tmp: Partie, lastOffset: nat, afterComment: bool, morceau: seq<Partie>)

  /** After the bytes before p. */
  ghost predicate OnTrack(s: seq<char>, ls: nat, p: nat, x: Automaton, goal: seq<Partie>) {
    && OnLine(s, ls, p, x.status, x.tmp, Scan(x.morceau, !x.afterComment), goal)
    && x.lastOffset == Total(x.morceau)
    && (x.morceau != [] ==> x.morceau[|x.morceau| - 1].debut <= p)
  }

  /** The same, a being the last byte read. */
  ghost predicate InStep(s: seq<char>, ls: nat, p: nat, x: Automaton, a: char, goal: seq<Partie>) {
    && OnTrack(s, ls, p, x, goal)
    && (x.status == StUnknown ==> IsBlank(a) || a == '\n')
    && (x.status == StComment ==> a != '\n')
  }

  /** Outside of any line that is not empty; position is just after a. */
  method OnUnknown(x: Automaton, a: char, position: nat, ghost s: seq<char>, ghost ls: nat, ghost goal: seq<Partie>)
    returns (y: Automaton, ghost now: nat)
    requires x.status == StUnknown && 0 < position <= |s| && s[position - 1] == a
    requires OnTrack(s, ls, position - 1, x, goal)
    ensures InStep(s, now, position, y, a, goal)
  {
    y, now := x, ls;
    if IsBlank(a) {
      y := x.(tmp := x.tmp.(longueur := x.tmp.longueur + 1));
    } else if a == '\n' {
      y := x.(tmp := x.tmp.(longueur := 0));
      LineEnds(s, ls, position - 1, x.status, x.tmp, Scan(x.morceau, !x.afterComment), goal);
      now := position;
    } else {
      InkMeansKind(s, ls, position - 1);
      if a == '#' {
        y := x.(status := StComment);
      } else {
        y := x.(status := StCommand, tmp := Partie(position - 1, 1, x.lastOffset));
      }
    }
  }

  method OnComment(x: Automaton, a: char, position: nat, ghost s: seq<char>, ghost ls: nat, ghost goal: seq<Partie>)
    returns (y: Automaton, ghost now: nat)
    requires x.status == StComment && 0 < position <= |s| && s[position - 1] == a
    requires OnTrack(s, ls, position - 1, x, goal)
    ensures InStep(s, now, position, y, a, goal)
  {
    y, now := x, ls;
    if a == '\n' {
      LineEnds(s, ls, position - 1, x.status, x.tmp, Scan(x.morceau, !x.afterComment), goal);
      y := x.(status := StUnknown, afterComment := true, tmp := x.tmp.(longueur := 0));
      now := position;
    }
  }

  /** The command line that began at tmp ends at position. */
  method EndCommand(x: Automaton, position: nat, ghost s: seq<char>, ghost ls: nat) returns (y: Automaton)
    requires x.lastOffset == Total(x.morceau) && ls < |s| && (!x.afterComment ==> x.morceau != [])
    requires LineAt(s, ls) == Command(x.tmp.debut) && x.tmp.offset == Total(x.morceau)
               && x.tmp.Fin() == position == EndOfLine(s, ls)
    requires x.morceau != [] ==> x.morceau[|x.morceau| - 1].debut <= position
    ensures Scan(y.morceau, !y.afterComment) == LineStep(s, ls, Scan(x.morceau, !x.afterComment))
    ensures y.status == StUnknown && y.lastOffset == Total(y.morceau) && y.morceau != []
              && y.morceau[|y.morceau| - 1].debut <= position
  {
    var morceau := x.morceau;
    var lastOffset := x.lastOffset;
    if x.afterComment {
      morceau := morceau + [x.tmp];
      lastOffset := x.tmp.offset + x.tmp.longueur;
    } else {
      var back := morceau[|morceau| - 1];
      morceau := morceau[|morceau| - 1 := back.(longueur := position - back.debut)];
      lastOffset := morceau[|morceau| - 1].offset + morceau[|morceau| - 1].longueur;
    }
    y := Automaton(StUnknown, x.tmp.(longueur := 0), lastOffset, false, morceau);
  }

  method OnCommand(x: Automaton, a: char, position: nat, ghost s: seq<char>, ghost ls: nat, ghost goal: seq<Partie>)
    returns (y: Automaton, ghost now: nat)
    requires x.status == StCommand && 0 < position <= |s| && s[position - 1] == a
    requires OnTrack(s, ls, position - 1, x, goal)
    ensures InStep(s, now, position, y, a, goal)
  {
    now := ls;
    y := x.(tmp := x.tmp.(longueur := x.tmp.longueur + 1));
    if a == '\n' {
      LineEnds(s, ls, position - 1, x.status, x.tmp, Scan(x.morceau, !x.afterComment), goal);
      y := EndCommand(y, position, s, ls);
      now := position;
    }
  }

  /** fill_morceau: a new virtual file, over the last one, without its comment lines. */
  method FillNoComment(st: Stack)
    requires st.Valid()
    modifies st`textPos, st`cursors, st`tables
    ensures st.Valid()
    ensures st.tables == old(st.tables) + [NoCommentPieces(old(st.Content(|st.tables|)))]
    ensures st.Content(|st.tables|) == old(Virtual(NoCommentPieces(st.Content(|st.tables|)), st.Content(|st.tables|)))
  {
    var level := |st.tables|;
    ghost var s, ls := st.Content(level), 0;
    ghost var goal := NoCommentPieces(s);
    st.Rewind(level);
    var x := Automaton(StUnknown, Partie(0, 0, 0), 0, true, []);
    var a := ' ';
    var stop := false;
    LineStarts(s, 0, x.tmp, Scan([], false), goal);
    while !stop
      invariant st.Valid() && st.tables == old(st.tables)
      invariant st.Position(level) <= |s|
      invariant if stop then x.morceau == goal else InStep(s, ls, st.Position(level), x, a, goal)
      decreases !stop, |s| - st.Position(level)
    {
      var r := st.ReadByte(level);
      var position := st.GetPosition(level);
      if r.None? {
        stop := true;
        LastLineEnds(s, ls, x.status, x.tmp, Scan(x.morceau, !x.afterComment), goal);
        // the last byte is seen once more
        match x.status
        case StUnknown => x := x.(tmp := x.tmp.(longueur := if a == '\n' then 0 else x.tmp.longueur + 1));
        case StComment => assert a != '\n';
        case StCommand => x := EndCommand(x, position, s, ls);
      } else {
        a := r.value;
        match x.status
        case StUnknown => x, ls := OnUnknown(x, a, position, s, ls, goal);
        case StComment => x, ls := OnComment(x, a, position, s, ls, goal);
        case StCommand => x, ls := OnCommand(x, a, position, s, ls, goal);
      }
    }
    NoCommentIsExact(s);
    st.Push(x.morceau);
  }
}
