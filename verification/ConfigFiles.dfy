/** The virtual file made of the sections wanted of a configuration file: what it is, line
    by line, and the automaton that finds the targets byte by byte. */
module ConfigFiles {
  import opened Pieces
  import opened VirtualFiles
  import opened NoComments

  // ----- targets

  predicate IsAlpha(c: char) { 'a' <= c <= 'z' || 'A' <= c <= 'Z' }

  predicate IsWord(c: char) { IsAlpha(c) || '0' <= c <= '9' || c == '_' || c == '-' }

  predicate IsTrail(c: char) { IsBlank(c) || c == '\r' }

  /** The first byte from p on that cannot be part of a target name. */
  function WordEnd(s: seq<char>, p: nat): (q: nat)
    requires p <= |s|
    ensures p <= q <= |s|
    decreases |s| - p
  {
    if p < |s| && IsWord(s[p]) then WordEnd(s, p + 1) else p
  }

  function TrailEnd(s: seq<char>, p: nat): (q: nat)
    requires p <= |s|
    ensures p <= q <= |s|
    decreases |s| - p
  {
    if p < |s| && IsTrail(s[p]) then TrailEnd(s, p + 1) else p
  }

  /** The name, when the line that begins at p is a target: a word, a colon, and nothing
      else before the line break. */
  function TargetAt(s: seq<char>, p: nat): Option<seq<char>>
    requires p <= |s|
  {
    var f := FirstInk(s, p);
    if f == |s| || !IsAlpha(s[f]) then None
    else
      var w := WordEnd(s, f + 1);
      if w == |s| || s[w] != ':' then None
      else
        var t := TrailEnd(s, w + 1);
        if t == |s| || s[t] != '\n' then None else Some(s[f..w])
  }

  ghost predicate LetterChar(c: char) { 'a' <= c <= 'z' || 'A' <= c <= 'Z' }

  ghost predicate WordChar(c: char) { LetterChar(c) || '0' <= c <= '9' || c == '_' || c == '-' }

  ghost predicate WordTo(s: seq<char>, p: nat, w: nat) {
    p <= w <= |s| && forall i :: p <= i < w ==> WordChar(s[i])
  }

  ghost predicate TrailTo(s: seq<char>, p: nat, t: nat) {
    p <= t <= |s| && forall i :: p <= i < t ==> s[i] == ' ' || s[i] == '\t' || s[i] == '\r'
  }

  /** The line that begins at p is a target called s[f..w]: blanks, a letter, other letters,
      digits, underscores or hyphens, a colon, blanks or carriage returns, a line break. */
  ghost predicate TargetIs(s: seq<char>, p: nat, f: nat, w: nat, t: nat) {
    && BlankTo(s, p, f) && f < |s| && LetterChar(s[f]) && WordTo(s, f + 1, w) && w < |s| && s[w] == ':'
    && TrailTo(s, w + 1, t) && t < |s| && s[t] == '\n'
  }

  lemma {:induction false} WordEndIs(s: seq<char>, p: nat, w: nat)
    requires p <= |s|
    ensures w == WordEnd(s, p) <==> WordTo(s, p, w) && (w < |s| ==> !WordChar(s[w]))
    decreases |s| - p
  {
    if p < |s| && IsWord(s[p]) {
      WordEndIs(s, p + 1, w);
    }
  }

  lemma {:induction false} TrailEndIs(s: seq<char>, p: nat, t: nat)
    requires p <= |s|
    ensures t == TrailEnd(s, p) <==>
              TrailTo(s, p, t) && (t < |s| ==> s[t] != ' ' && s[t] != '\t' && s[t] != '\r')
    decreases |s| - p
  {
    if p < |s| && IsTrail(s[p]) {
      TrailEndIs(s, p + 1, t);
    }
  }

  /** A line is a target exactly when its characters are so, and has that name. */
  lemma TargetAtIs(s: seq<char>, p: nat, f: nat, w: nat, t: nat)
    requires p <= |s| && TargetIs(s, p, f, w, t)
    ensures TargetAt(s, p) == Some(s[f..w])
  {
    FirstInkIs(s, p, f);
    WordEndIs(s, f + 1, w);
    TrailEndIs(s, w + 1, t);
  }

  lemma TargetAtOnly(s: seq<char>, p: nat) returns (f: nat, w: nat, t: nat)
    requires p <= |s| && TargetAt(s, p).Some?
    ensures TargetIs(s, p, f, w, t) && TargetAt(s, p) == Some(s[f..w])
  {
    f := FirstInk(s, p);
    w := WordEnd(s, f + 1);
    t := TrailEnd(s, w + 1);
    FirstInkIs(s, p, f);
    WordEndIs(s, f + 1, w);
    TrailEndIs(s, w + 1, t);
  }

  datatype Target = Target(first: nat, name: seq<char>, last: nat)

  /** The next target from the line of p on. */
  function NextTarget(s: seq<char>, p: nat): (r: Option<Target>)
    requires p <= |s|
    ensures r.Some? ==> p <= r.value.first < r.value.last <= |s|
    decreases |s| - p
  {
    if p == |s| then None
    else
      match TargetAt(s, p)
      case Some(name) => Some(Target(p, name, EndOfLine(s, p)))
      case None => NextTarget(s, EndOfLine(s, p))
  }

  // ----- sections

  /** A part of the file: what is before the first target, or what follows a target up to
      the next one. */
  datatype Section = Section(name: Option<seq<char>>, from: nat, to: nat)

  function SectionsFrom(s: seq<char>, name: Option<seq<char>>, from: nat): (r: seq<Section>)
    requires from <= |s|
    ensures forall k :: 0 <= k < |r| ==> from <= r[k].from <= r[k].to <= |s|
    decreases |s| - from
  {
    match NextTarget(s, from)
    case None => [Section(name, from, |s|)]
    case Some(t) => [Section(name, from, t.first)] + SectionsFrom(s, Some(t.name), t.last)
  }

  predicate Wanted(name: Option<seq<char>>, targets: seq<seq<char>>) {
    name.None? || name.value in targets
  }

  /** The bytes of the sections wanted, in order. */
  function Selected(s: seq<char>, secs: seq<Section>, targets: seq<seq<char>>): seq<char>
    requires forall k :: 0 <= k < |secs| ==> secs[k].from <= secs[k].to <= |s|
  {
    if secs == [] then []
    else (if Wanted(secs[0].name, targets) then s[secs[0].from..secs[0].to] else []) + Selected(s, secs[1..], targets)
  }

  /** The preamble and the sections wanted. */
  function ConfigText(s: seq<char>, targets: seq<seq<char>>): seq<char> {
    Selected(s, SectionsFrom(s, None, 0), targets)
  }

  /** No line that begins between p and q is a target. */
  ghost predicate NoTarget(s: seq<char>, p: nat, q: nat) {
    forall l: nat {:trigger LineStart(s, l)} :: p <= l < q && LineStart(s, l) ==> TargetAt(s, l).None?
  }

  lemma {:induction false} NextTargetIsNext(s: seq<char>, p: nat)
    requires p <= |s| && (p < |s| ==> LineStart(s, p))
    ensures match NextTarget(s, p)
            case None => NoTarget(s, p, |s|)
            case Some(t) => NoTarget(s, p, t.first) && LineStart(s, t.first) && TargetAt(s, t.first) == Some(t.name)
                            && t.last == EndOfLine(s, t.first) && (t.last < |s| ==> LineStart(s, t.last))
    decreases |s| - p
  {
    if p < |s| {
      NextIsStart(s, p);
      if TargetAt(s, p).None? {
        NextTargetIsNext(s, EndOfLine(s, p));
        forall l: nat {:trigger LineStart(s, l)} | p < l < EndOfLine(s, p) ensures !LineStart(s, l) {
          NoStartInside(s, p, l);
        }
      }
    }
  }

  /** Sections hold no target line, and each one with a name follows the target line of
      that name. */
  ghost predicate SectionOk(s: seq<char>, x: Section)
  {
    && x.from <= x.to <= |s| && NoTarget(s, x.from, x.to)
    && (x.to < |s| ==> LineStart(s, x.to) && TargetAt(s, x.to).Some?)
    && (x.name.Some? ==> exists l: nat :: LineStart(s, l) && TargetAt(s, l) == x.name && EndOfLine(s, l) == x.from)
  }

  lemma {:induction false} SectionsAreExact(s: seq<char>, name: Option<seq<char>>, from: nat)
    requires from <= |s| && (from < |s| ==> LineStart(s, from))
    requires name.Some? ==> exists l: nat :: LineStart(s, l) && TargetAt(s, l) == name && EndOfLine(s, l) == from
    ensures forall k :: 0 <= k < |SectionsFrom(s, name, from)| ==> SectionOk(s, SectionsFrom(s, name, from)[k])
    decreases |s| - from
  {
    NextTargetIsNext(s, from);
    match NextTarget(s, from)
    case None =>
    case Some(t) =>
      assert LineStart(s, t.first) && TargetAt(s, t.first) == Some(t.name) && EndOfLine(s, t.first) == t.last;
      SectionsAreExact(s, Some(t.name), t.last);
  }

  // ----- the pieces

  /** The piece of a section, when it is wanted and not empty. */
  function AddSection(m: seq<Partie>, x: Section, targets: seq<seq<char>>): seq<Partie>
    requires x.from <= x.to
  {
    if Wanted(x.name, targets) && x.from < x.to then Append(m, x.from, x.to) else m
  }

  function AddSections(m: seq<Partie>, secs: seq<Section>, targets: seq<seq<char>>): seq<Partie>
    requires forall k :: 0 <= k < |secs| ==> secs[k].from <= secs[k].to
    decreases |secs|
  {
    if secs == [] then m else AddSections(AddSection(m, secs[0], targets), secs[1..], targets)
  }

  function ConfigPieces(s: seq<char>, targets: seq<seq<char>>): seq<Partie> {
    AddSections([], SectionsFrom(s, None, 0), targets)
  }

  lemma {:induction false} PiecesOfSections(s: seq<char>, m: seq<Partie>, name: Option<seq<char>>, from: nat,
                                            targets: seq<seq<char>>)
    requires from <= |s| && Good(m, |s|) && EndOf(m) <= from
    ensures var secs := SectionsFrom(s, name, from);
            && Good(AddSections(m, secs, targets), |s|)
            && Virtual(AddSections(m, secs, targets), s) == Virtual(m, s) + Selected(s, secs, targets)
    decreases |s| - from
  {
    var secs := SectionsFrom(s, name, from);
    var x, m2 := secs[0], AddSection(m, secs[0], targets);
    SectionAdded(s, m, x, targets);
    if NextTarget(s, from).Some? {
      var t := NextTarget(s, from).value;
      assert secs[1..] == SectionsFrom(s, Some(t.name), t.last);
      PiecesOfSections(s, m2, Some(t.name), t.last, targets);
    } else {
      assert secs[1..] == [];
    }
    Concat(Virtual(m, s), if Wanted(x.name, targets) then s[x.from..x.to] else [], Selected(s, secs[1..], targets));
  }

  lemma Concat<T>(a: seq<T>, b: seq<T>, c: seq<T>)
    ensures a + b + c == a + (b + c)
  {
  }

  lemma SectionAdded(s: seq<char>, m: seq<Partie>, x: Section, targets: seq<seq<char>>)
    requires Good(m, |s|) && EndOf(m) <= x.from <= x.to <= |s|
    ensures Good(AddSection(m, x, targets), |s|) && EndOf(AddSection(m, x, targets)) <= x.to
    ensures Virtual(AddSection(m, x, targets), s) ==
            Virtual(m, s) + if Wanted(x.name, targets) then s[x.from..x.to] else []
  {
    if Wanted(x.name, targets) && x.from < x.to {
      GoodAppend(m, |s|, x.from, x.to);
      VirtualAppend(m, s, x.from, x.to);
    }
  }

  /** The virtual file is the preamble followed by the sections wanted. */
  lemma ConfigIsExact(s: seq<char>, targets: seq<seq<char>>)
    ensures Good(ConfigPieces(s, targets), |s|)
    ensures Virtual(ConfigPieces(s, targets), s) == ConfigText(s, targets)
    ensures BytesSelected(s, ConfigPieces(s, targets), targets, |s|)
  {
    AllBytesSelected(s, [], None, 0, 0, targets);
    PiecesOfSections(s, [], None, 0, targets);
    assert Virtual([], s) == [];
  }

  // ----- byte by byte

  /** The byte b is in the section of the target line l. */
  ghost predicate Follows(s: seq<char>, l: nat, b: nat)
    requires l < |s|
  {
    EndOfLine(s, l) <= b && NoTarget(s, EndOfLine(s, l), b + 1)
  }

  /** What a target line decides of the byte b: none of its own bytes is in, and those of its
      section are in iff its name is one of the targets. */
  ghost predicate Decides(s: seq<char>, m: seq<Partie>, targets: seq<seq<char>>, l: nat, name: seq<char>, b: nat)
    requires l < |s|
  {
    && (l <= b < EndOfLine(s, l) ==> Outside(m, b, b + 1))
    && (Follows(s, l, b) && (exists j :: 0 <= j < |targets| && targets[j] == name) ==> Inside(m, b, b + 1))
    && (Follows(s, l, b) && (forall j :: 0 <= j < |targets| ==> targets[j] != name) ==> Outside(m, b, b + 1))
  }

  /** The byte b is in when it is before all target lines, and as they decide otherwise. */
  ghost predicate ByteSelected(s: seq<char>, m: seq<Partie>, targets: seq<seq<char>>, b: nat) {
    && (NoTarget(s, 0, b + 1) ==> Inside(m, b, b + 1))
    && forall l: nat {:trigger LineStart(s, l)} :: l <= b && LineStart(s, l) && TargetAt(s, l).Some? ==>
         Decides(s, m, targets, l, TargetAt(s, l).value, b)
  }

  ghost predicate BytesSelected(s: seq<char>, m: seq<Partie>, targets: seq<seq<char>>, to: nat) {
    forall b: nat {:trigger ByteSelected(s, m, targets, b)} :: b < to ==> ByteSelected(s, m, targets, b)
  }

  /** A later piece changes nothing. */
  lemma ByteKept(s: seq<char>, m: seq<Partie>, x: Section, targets: seq<seq<char>>, b: nat)
    requires b < x.from <= x.to && ByteSelected(s, m, targets, b)
    ensures ByteSelected(s, AddSection(m, x, targets), targets, b)
  {
    var m2 := AddSection(m, x, targets);
    assert Outside(m, b, b + 1) ==> Outside(m2, b, b + 1);
    if Inside(m, b, b + 1) {
      var k :| 0 <= k < |m| && m[k].debut <= b && b + 1 <= m[k].Fin();
      assert m2[k] == m[k];
    }
  }

  lemma OutsideAfter(m: seq<Partie>, n: nat, b: nat)
    requires Good(m, n) && EndOf(m) <= b
    ensures Outside(m, b, b + 1)
  {
    forall k {:trigger m[k]} | 0 <= k < |m| ensures m[k].Fin() <= b {
      PieceEnds(m, n, k);
    }
  }

  /** The section that begins at from: the preamble, or what follows the target line l. */
  ghost predicate BeginsAt(s: seq<char>, name: Option<seq<char>>, from: nat, l: nat) {
    && from <= |s| && (from < |s| ==> LineStart(s, from))
    && if name.None? then from == 0 else LineStart(s, l) && TargetAt(s, l) == name && EndOfLine(s, l) == from
  }

  lemma LinesApart(s: seq<char>, k: nat, l: nat)
    requires k < l && LineStart(s, k) && LineStart(s, l)
    ensures EndOfLine(s, k) <= l
  {
    if l < EndOfLine(s, k) {
      NoStartInside(s, k, l);
    }
  }

  /** The bytes of a section. */
  lemma ByteOfSection(s: seq<char>, m: seq<Partie>, x: Section, l: nat, targets: seq<seq<char>>, b: nat)
    requires Good(m, |s|) && EndOf(m) <= x.from <= b < x.to <= |s|
    requires BeginsAt(s, x.name, x.from, l) && NoTarget(s, x.from, x.to)
    ensures ByteSelected(s, AddSection(m, x, targets), targets, b)
  {
    var m2 := AddSection(m, x, targets);
    if Wanted(x.name, targets) {
      assert m2[|m|].debut <= b && b + 1 <= m2[|m|].Fin();
    } else {
      OutsideAfter(m, |s|, b);
    }
    forall k: nat {:trigger LineStart(s, k)} | k <= b && LineStart(s, k) && TargetAt(s, k).Some?
      ensures Decides(s, m2, targets, k, TargetAt(s, k).value, b)
    {
      assert k < x.from;
      if k < l {
        LinesApart(s, k, l);
      } else if l < k {
        LinesApart(s, l, k);
      }
    }
  }

  /** The bytes of a target line. */
  lemma ByteOfTarget(s: seq<char>, m: seq<Partie>, l: nat, targets: seq<seq<char>>, b: nat)
    requires Good(m, |s|) && EndOf(m) <= l && LineStart(s, l) && TargetAt(s, l).Some? && l <= b < EndOfLine(s, l)
    ensures ByteSelected(s, m, targets, b)
  {
    OutsideAfter(m, |s|, b);
    forall k: nat {:trigger LineStart(s, k)} | k <= b && LineStart(s, k) && TargetAt(s, k).Some?
      ensures Decides(s, m, targets, k, TargetAt(s, k).value, b)
    {
      if k < l {
        LinesApart(s, k, l);
      } else if l < k {
        LinesApart(s, l, k);
      }
    }
  }

  /** One section and the target line after it. */
  lemma SectionBytes(s: seq<char>, m: seq<Partie>, name: Option<seq<char>>, from: nat, l: nat, targets: seq<seq<char>>)
    requires Good(m, |s|) && EndOf(m) <= from && BeginsAt(s, name, from, l) && BytesSelected(s, m, targets, from)
    ensures match NextTarget(s, from)
            case None => BytesSelected(s, AddSection(m, Section(name, from, |s|), targets), targets, |s|)
            case Some(t) =>
              var m2 := AddSection(m, Section(name, from, t.first), targets);
              Good(m2, |s|) && EndOf(m2) <= t.last && BytesSelected(s, m2, targets, t.last)
              && BeginsAt(s, Some(t.name), t.last, t.first)
  {
    NextTargetIsNext(s, from);
    var next := NextTarget(s, from);
    var x := Section(name, from, if next.None? then |s| else next.value.first);
    var m2, end := AddSection(m, x, targets), if next.None? then |s| else next.value.last;
    SectionAdded(s, m, x, targets);
    forall b: nat {:trigger ByteSelected(s, m2, targets, b)} | b < end ensures ByteSelected(s, m2, targets, b) {
      if b < from {
        ByteKept(s, m, x, targets, b);
      } else if b < x.to {
        ByteOfSection(s, m, x, l, targets, b);
      } else {
        ByteOfTarget(s, m2, next.value.first, targets, b);
      }
    }
  }

  lemma {:induction false} AllBytesSelected(s: seq<char>, m: seq<Partie>, name: Option<seq<char>>, from: nat, l: nat,
                                            targets: seq<seq<char>>)
    requires Good(m, |s|) && EndOf(m) <= from && BeginsAt(s, name, from, l) && BytesSelected(s, m, targets, from)
    ensures BytesSelected(s, AddSections(m, SectionsFrom(s, name, from), targets), targets, |s|)
    decreases |s| - from
  {
    SectionStep(s, m, name, from, targets);
    SectionBytes(s, m, name, from, l, targets);
    match NextTarget(s, from)
    case None =>
    case Some(t) =>
      AllBytesSelected(s, AddSection(m, Section(name, from, t.first), targets), Some(t.name), t.last, t.first, targets);
  }

  // ----- the automaton that finds the next target

  datatype Status = StInit | StSearch | StEnd | StPurge

  /** In the line that begins at ls, after the bytes before p. */
  ghost predicate OnLine(s: seq<char>, ls: nat, p: nat, status: Status, nature: seq<char>) {
    && NoBreak(s, ls, p)
    && var f := FirstInk(s, ls);
       match status
       case StInit => f == FirstInk(s, p)
       case StSearch => f < p && IsAlpha(s[f]) && WordEnd(s, f + 1) == WordEnd(s, p) && nature == s[f..p]
       case StEnd =>
         f < p && IsAlpha(s[f])
         && (var w := WordEnd(s, f + 1);
             w < p && s[w] == ':' && TrailEnd(s, w + 1) == TrailEnd(s, p) && nature == s[f..w])
       case StPurge => ls < p && TargetAt(s, ls).None?
  }

  /** The same, goal being the next target. */
  ghost predicate Seeking(s: seq<char>, goal: Option<Target>, ls: nat, p: nat, status: Status, nature: seq<char>) {
    OnLine(s, ls, p, status, nature) && NextTarget(s, ls) == goal
  }

  /** A byte that is not a line break. */
  method OnByte(status: Status, nature: seq<char>, a: char, ghost s: seq<char>, ghost goal: Option<Target>,
                ghost ls: nat, ghost p: nat)
    returns (now: Status, word: seq<char>)
    requires p < |s| && s[p] == a && a != '\n' && Seeking(s, goal, ls, p, status, nature)
    ensures Seeking(s, goal, ls, p + 1, now, word)
  {
    now, word := status, nature;
    match status
    case StInit =>
      if !IsBlank(a) {
        if IsAlpha(a) {
          now, word := StSearch, [a];
        } else {
          now := StPurge;
        }
      }
    case StSearch =>
      if IsWord(a) {
        word := nature + [a];
      } else if a == ':' {
        now := StEnd;
      } else {
        now := StPurge;
      }
    case StEnd =>
      if !IsTrail(a) {
        now := StPurge;
      }
    case StPurge =>
  }

  /** A line break: the target is found, or the next line begins. */
  lemma OnBreak(s: seq<char>, goal: Option<Target>, ls: nat, p: nat, status: Status, nature: seq<char>)
    requires p < |s| && s[p] == '\n' && Seeking(s, goal, ls, p, status, nature)
    ensures if status == StEnd then goal == Some(Target(ls, nature, p + 1))
            else Seeking(s, goal, p + 1, p + 1, StInit, nature)
  {
    SameLine(s, ls, p);
    assert TargetAt(s, ls) == if status == StEnd then Some(nature) else None;
  }

  lemma OnEnd(s: seq<char>, goal: Option<Target>, ls: nat, status: Status, nature: seq<char>)
    requires Seeking(s, goal, ls, |s|, status, nature)
    ensures goal.None?
  {
    if ls < |s| {
      SameLine(s, ls, |s|);
    }
  }

  /** Found, at the end of the file, or still in a line. */
  ghost predicate SeekOk(s: seq<char>, goal: Option<Target>, p: nat, found: bool, more: bool, debut: nat,
                         status: Status, nature: seq<char>) {
    && p <= |s|
    && if found then goal == Some(Target(debut, nature, p))
       else if !more then goal.None? && p == |s|
       else Seeking(s, goal, debut, p, status, nature)
  }

  /** What the search does of the byte read, or of the end of the file. */
  method OnRead(a: Option<char>, position: nat, debut: nat, status: Status, nature: seq<char>,
                ghost s: seq<char>, ghost p: nat, ghost goal: Option<Target>)
    returns (found: bool, line: nat, now: Status, word: seq<char>)
    requires p <= |s| && Seeking(s, goal, debut, p, status, nature)
    requires if p < |s| then a == Some(s[p]) && position == p + 1 else a == None
    ensures SeekOk(s, goal, if p < |s| then p + 1 else p, found, a.Some?, line, now, word)
  {
    found, line, now, word := false, debut, status, nature;
    if a.None? {
      OnEnd(s, goal, debut, status, nature);
    } else if a.value != '\n' {
      now, word := OnByte(status, nature, a.value, s, goal, debut, p);
    } else {
      OnBreak(s, goal, debut, p, status, nature);
      if status == StEnd {
        found := true;
      } else {
        now, line := StInit, position;
      }
    }
  }

  /** The next byte, and the position after it. */
  method ReadAndTell(st: Stack, level: nat, ghost s: seq<char>) returns (a: Option<char>, position: nat)
    requires st.Valid() && level <= |st.tables| && st.Content(level) == s && st.Position(level) <= |s|
    modifies st`textPos, st`cursors
    ensures st.Valid() && position == st.Position(level)
    ensures var p := old(st.Position(level));
            if p < |s| then a == Some(s[p]) && position == p + 1 else a == None && position == p
  {
    a := st.ReadByte(level);
    position := st.GetPosition(level);
  }

  /** One byte of the search. */
  method SeekByte(st: Stack, level: nat, debut: nat, status: Status, nature: seq<char>, ghost s: seq<char>,
                  ghost goal: Option<Target>)
    returns (found: bool, more: bool, line: nat, now: Status, word: seq<char>)
    requires st.Valid() && level <= |st.tables| && st.Content(level) == s
    requires st.Position(level) <= |s| && Seeking(s, goal, debut, st.Position(level), status, nature)
    modifies st`textPos, st`cursors
    ensures st.Valid() && SeekOk(s, goal, st.Position(level), found, more, line, now, word)
    ensures more ==> st.Position(level) > old(st.Position(level))
  {
    ghost var p := st.Position(level);
    var a, position := ReadAndTell(st, level, s);
    more := a.Some?;
    found, line, now, word := OnRead(a, position, debut, status, nature, s, p, goal);
  }

  /** find_next_target, from where the file stands. */
  method FindNextTarget(st: Stack, level: nat) returns (found: bool, debut: nat, nature: seq<char>, fin: nat)
    requires st.Valid() && level <= |st.tables| && st.Position(level) <= |st.Content(level)|
    modifies st`textPos, st`cursors
    ensures st.Valid()
    ensures var t := NextTarget(st.Content(level), old(st.Position(level)));
            && found == t.Some? && (found ==> t == Some(Target(debut, nature, fin)))
            && st.Position(level) == if found then fin else |st.Content(level)|
  {
    ghost var s, goal := st.Content(level), NextTarget(st.Content(level), st.Position(level));
    debut := st.GetPosition(level);
    found, nature := false, [];
    var status, more := StInit, true;
    while !found && more
      invariant st.Valid() && SeekOk(s, goal, st.Position(level), found, more, debut, status, nature)
      decreases !found && more, |s| - st.Position(level)
    {
      found, more, debut, status, nature := SeekByte(st, level, debut, status, nature, s, goal);
    }
    fin := st.GetPosition(level);
  }

  // ----- the automaton that selects the sections

  lemma SectionStep(s: seq<char>, m: seq<Partie>, name: Option<seq<char>>, from: nat, targets: seq<seq<char>>)
    requires from <= |s|
    ensures AddSections(m, SectionsFrom(s, name, from), targets) ==
            match NextTarget(s, from)
            case None => AddSection(m, Section(name, from, |s|), targets)
            case Some(t) =>
              AddSections(AddSection(m, Section(name, from, t.first), targets),
                          SectionsFrom(s, Some(t.name), t.last), targets)
  {
    var secs := SectionsFrom(s, name, from);
    match NextTarget(s, from)
    case None =>
      assert secs[1..] == [];
    case Some(t) =>
      assert secs[1..] == SectionsFrom(s, Some(t.name), t.last);
  }

  /** The variables of the selection; inside, tmp is the piece being made. */
  datatype Selection = Selection(morceau: seq<Partie>, tmp: Partie, lastOffset: nat, inside: bool)

  /** In the section that begins at from, all that remains to be done leading to goal. */
  ghost predicate Selecting(s: seq<char>, cibles: seq<seq<char>>, goal: seq<Partie>, x: Selection,
                            name: Option<seq<char>>, from: nat) {
    && from <= |s| && AddSections(x.morceau, SectionsFrom(s, name, from), cibles) == goal
    && x.inside == Wanted(name, cibles) && x.lastOffset == Total(x.morceau)
    && (x.inside ==> x.tmp.debut == from && x.tmp.offset == x.lastOffset)
  }

  /** The section ends at to. */
  method EndSection(x: Selection, to: nat, ghost s: seq<char>, ghost cibles: seq<seq<char>>, ghost goal: seq<Partie>,
                    ghost name: Option<seq<char>>, ghost from: nat)
    returns (y: Selection)
    requires Selecting(s, cibles, goal, x, name, from) && from <= to
    ensures y.morceau == AddSection(x.morceau, Section(name, from, to), cibles)
    ensures y.lastOffset == Total(y.morceau) && !y.inside
  {
    y := x;
    if x.inside {
      var tmp := x.tmp.(longueur := to - x.tmp.debut);
      y := Selection(if tmp.longueur > 0 then x.morceau + [tmp] else x.morceau, tmp, x.lastOffset + tmp.longueur,
        false);
    }
  }

  /** The target met ends a section and begins another one. */
  method OnTarget(x: Selection, first: nat, target: seq<char>, last: nat, cibles: seq<seq<char>>,
                  ghost s: seq<char>, ghost goal: seq<Partie>, ghost name: Option<seq<char>>, ghost from: nat)
    returns (y: Selection)
    requires Selecting(s, cibles, goal, x, name, from) && NextTarget(s, from) == Some(Target(first, target, last))
    ensures Selecting(s, cibles, goal, y, Some(target), last)
  {
    SectionStep(s, x.morceau, name, from, cibles);
    y := EndSection(x, first, s, cibles, goal, name, from);
    if target in cibles {
      y := y.(tmp := y.tmp.(debut := last, offset := y.lastOffset), inside := true);
    }
  }

  /** fill_morceau: a new virtual file, over the last one, with the sections wanted. */
  method FillConfig(st: Stack, cibles: seq<seq<char>>)
    requires st.Valid()
    modifies st`textPos, st`cursors, st`tables
    ensures st.Valid() && st.Position(|st.tables|) == 0
    ensures st.tables == old(st.tables) + [ConfigPieces(old(st.Content(|st.tables|)), cibles)]
    ensures st.Content(|st.tables|) == old(ConfigText(st.Content(|st.tables|), cibles))
    ensures var s := old(st.Content(|st.tables|)); BytesSelected(s, st.tables[|st.tables| - 1], cibles, |s|)
  {
    var level := |st.tables|;
    ghost var s := st.Content(level);
    ghost var goal, name, from: nat := ConfigPieces(s, cibles), None, 0;
    st.Rewind(level);
    var x := Selection([], Partie(0, 0, 0), 0, true);
    var found, first: nat, target, last: nat := FindNextTarget(st, level);
    while found
      invariant st.Valid() && st.tables == old(st.tables) && Selecting(s, cibles, goal, x, name, from)
      invariant NextTarget(s, from) == if found then Some(Target(first, target, last)) else None
      invariant st.Position(level) == if found then last else |s|
      decreases |s| - from + if found then 1 else 0
    {
      x := OnTarget(x, first, target, last, cibles, s, goal, name, from);
      name, from := Some(target), last;
      found, first, target, last := FindNextTarget(st, level);
    }
    SectionStep(s, x.morceau, name, from, cibles);
    var position := st.GetPosition(level);
    x := EndSection(x, position, s, cibles, goal, name, from);
    ConfigIsExact(s, cibles);
    st.Push(x.morceau);
  }

  // ----- the two of them

  /** All the bytes of a level, one at a time. */
  method ReadAll(st: Stack, level: nat) returns (out: seq<char>)
    requires st.Valid() && level <= |st.tables| && st.Position(level) == 0
    modifies st`textPos, st`cursors
    ensures out == st.Content(level)
  {
    ghost var all := st.Content(level);
    out := [];
    var more := true;
    while more
      invariant st.Valid()
      invariant |out| == st.Position(level) <= |all| && out == all[..|out|]
      invariant !more ==> |out| == |all|
      decreases more, |all| - st.Position(level)
    {
      var a := st.ReadByte(level);
      if a.None? {
        more := false;
      } else {
        out := out + [a.value];
      }
    }
  }

  /** m1 makes a file without the comments of text, of which m2 selects sections. */
  ghost predicate ReadThrough(text: seq<char>, cibles: seq<seq<char>>, m1: seq<Partie>, m2: seq<Partie>,
                              out: seq<char>) {
    var s := Virtual(m1, text);
    WithoutComments(text, m1) && Good(m2, |s|) && BytesSelected(s, m2, cibles, |s|) && out == Virtual(m2, s)
  }

  lemma ReadIsThrough(text: seq<char>, cibles: seq<seq<char>>)
    ensures var m1 := NoCommentPieces(text);
            var s := Virtual(m1, text);
            ReadThrough(text, cibles, m1, ConfigPieces(s, cibles), ConfigText(s, cibles))
  {
    NoCommentIsExact(text);
    ConfigIsExact(Virtual(NoCommentPieces(text), text), cibles);
  }

  /** What is left of a configuration file: without its comments, the preamble and the
      sections wanted, read through both virtual files. */
  method ReadConfig(text: seq<char>, cibles: seq<seq<char>>) returns (out: seq<char>)
    ensures out == ConfigText(Virtual(NoCommentPieces(text), text), cibles)
    ensures exists m1, m2 :: ReadThrough(text, cibles, m1, m2, out)
  {
    ReadIsThrough(text, cibles);
    var st := new Stack(text);
    FillNoComment(st);
    FillConfig(st, cibles);
    out := ReadAll(st, 2);
  }
}
