/** Expressions of criteria as they are written, what they should mean, and what the parser
    makes of them. */
module CriteriaTexts {
  import opened Criteria

  datatype Expr =
    | Plain(letter: char)
    | Dated(letter: char, arg: seq<char>)
    | Paren(e: Expr)
    | Bang(e: Expr)
    | Tilde(e: Expr)
    | Amp(l: Expr, r: Expr)
    | Bar(l: Expr, r: Expr)

  function Text(e: Expr): seq<char> {
    match e
    case Plain(c) => [c]
    case Dated(c, arg) => [c, '('] + arg + [')']
    case Paren(f) => ['('] + Text(f) + [')']
    case Bang(f) => ['!'] + Text(f)
    case Tilde(f) => ['~'] + Text(f)
    case Amp(l, r) => Text(l) + ['&'] + Text(r)
    case Bar(l, r) => Text(l) + ['|'] + Text(r)
  }

  predicate NoParen(s: seq<char>) {
    forall i :: 0 <= i < |s| ==> s[i] != '(' && s[i] != ')'
  }

  /** The grammar: & binds more than |, both associate to the right, and the operand of a
      unary operator is not an operation without parentheses. */
  predicate WellFormed(e: Expr, dates: Dates) {
    match e
    case Plain(c) => c in LETTERS
    case Dated(c, arg) => (c == 'R' || c == 'r') && arg != [] && NoParen(arg) && dates(arg).Date?
    case Paren(f) => WellFormed(f, dates)
    case Bang(f) => WellFormed(f, dates) && !f.Amp? && !f.Bar?
    case Tilde(f) => WellFormed(f, dates) && !f.Amp? && !f.Bar?
    case Amp(l, r) => WellFormed(l, dates) && WellFormed(r, dates) && !l.Amp? && !l.Bar? && !r.Bar?
    case Bar(l, r) => WellFormed(l, dates) && WellFormed(r, dates) && !l.Bar?
  }

  /** What an expression means. */
  predicate Meaning<E>(e: Expr, dates: Dates, x: E, y: E, atoms: Atoms<E>)
    requires WellFormed(e, dates)
  {
    match e
    case Plain(c) => atoms(Letter(c), x, y)
    case Dated(c, arg) => atoms(Since(c, dates(arg).value), x, y)
    case Paren(f) => Meaning(f, dates, x, y, atoms)
    case Bang(f) => !Meaning(f, dates, x, y, atoms)
    case Tilde(f) => Meaning(f, dates, y, x, atoms)
    case Amp(l, r) => Meaning(l, dates, x, y, atoms) && Meaning(r, dates, x, y, atoms)
    case Bar(l, r) => Meaning(l, dates, x, y, atoms) || Meaning(r, dates, x, y, atoms)
  }

  /** The object the parser builds. */
  function Build(e: Expr, dates: Dates): Crit
    requires WellFormed(e, dates)
  {
    match e
    case Plain(c) => Atom(Letter(c))
    case Dated(c, arg) => Atom(Since(c, dates(arg).value))
    case Paren(f) => Build(f, dates)
    case Bang(f) => Not(Build(f, dates))
    case Tilde(f) => Invert(Build(f, dates))
    case Amp(l, r) => AddAnd(Build(l, dates), Build(r, dates))
    case Bar(l, r) => AddOr(Build(l, dates), Build(r, dates))
  }

  // ----- scanning

  lemma {:induction false} FindAppend(s: seq<char>, t: seq<char>, d: nat, c: char)
    requires Find(s, d, c) == Nowhere
    ensures Depth(s, d) >= 0 && Find(s + t, d, c) == Shift(|s|, Find(t, Depth(s, d), c))
  {
    if s == [] {
      assert s + t == t;
    } else {
      assert (s + t)[0] == s[0] && (s + t)[1..] == s[1..] + t;
      FindAppend(s[1..], t, if s[0] == '(' then d + 1 else if s[0] == ')' then d - 1 else d, c);
    }
  }

  lemma {:induction false} DepthAppend(s: seq<char>, t: seq<char>, d: nat)
    requires Depth(s, d) >= 0
    ensures Depth(s + t, d) == Depth(t, Depth(s, d))
  {
    if s == [] {
      assert s + t == t;
    } else {
      assert (s + t)[0] == s[0] && (s + t)[1..] == s[1..] + t;
      DepthAppend(s[1..], t, if s[0] == '(' then d + 1 else if s[0] == ')' then d - 1 else d);
    }
  }

  /** A balanced text stays balanced when deeper, and then shows nothing. */
  lemma {:induction false} Deeper(s: seq<char>, d: nat, c: char)
    requires Depth(s, d) >= 0
    ensures Depth(s, d + 1) == Depth(s, d) + 1 && Find(s, d + 1, c) == Nowhere
  {
    if s != [] {
      Deeper(s[1..], if s[0] == '(' then d + 1 else if s[0] == ')' then d - 1 else d, c);
    }
  }

  lemma {:induction false} PlainScan(s: seq<char>, d: nat)
    requires NoParen(s)
    ensures Depth(s, d) == d
  {
    if s != [] {
      PlainScan(s[1..], d);
    }
  }

  /** A single byte. */
  lemma ScanOne(b: char, d: nat, c: char)
    requires b != '(' && b != ')'
    ensures Depth([b], d) == d
    ensures Find([b], d, c) == if b == c && d == 0 then Found(0) else Nowhere
  {
    assert [b][1..] == [];
  }

  lemma ScanBrackets(s: seq<char>, c: char)
    requires Depth(s, 0) == 0 && c != '(' && c != ')'
    ensures var t := ['('] + s + [')']; Depth(t, 0) == 0 && Find(t, 0, c) == Nowhere
  {
    var o, t := ['('], ['('] + s + [')'];
    assert o[1..] == [] && [')'][1..] == [];
    assert Find(o, 0, c) == Nowhere && Depth(o, 0) == 1;
    assert Find([')'], 1, c) == Nowhere && Depth([')'], 1) == 0;
    Deeper(s, 0, c);
    FindAppend(o, s, 0, c);
    DepthAppend(o, s, 0);
    FindAppend(o + s, [')'], 0, c);
    DepthAppend(o + s, [')'], 0);
  }

  lemma ScanPrefix(b: char, s: seq<char>, c: char)
    requires b != '(' && b != ')' && b != c
    ensures Depth([b] + s, 0) == Depth(s, 0) && Find([b] + s, 0, c) == Shift(1, Find(s, 0, c))
  {
    ScanOne(b, 0, c);
    FindAppend([b], s, 0, c);
    DepthAppend([b], s, 0);
  }

  /** Two operands around an operator that shows in neither. */
  lemma ScanOperation(l: seq<char>, op: char, r: seq<char>, c: char)
    requires Depth(l, 0) == 0 && Find(l, 0, c) == Nowhere && op != '(' && op != ')' && op != c
    ensures Depth(l + [op] + r, 0) == Depth(r, 0)
    ensures Find(l + [op] + r, 0, c) == Shift(|l| + 1, Find(r, 0, c))
  {
    assert l + [op] + r == l + ([op] + r);
    ScanPrefix(op, r, c);
    FindAppend(l, [op] + r, 0, c);
    DepthAppend(l, [op] + r, 0);
  }

  /** An operator is found where it is. */
  lemma ScanFinds(l: seq<char>, op: char, r: seq<char>)
    requires Depth(l, 0) == 0 && Find(l, 0, op) == Nowhere && op != '(' && op != ')'
    ensures Find(l + [op] + r, 0, op) == Found(|l|) && Depth(l + [op] + r, 0) == Depth(r, 0)
    ensures (l + [op] + r)[..|l|] == l && (l + [op] + r)[|l| + 1..] == r
  {
    assert l + [op] + r == l + ([op] + r);
    FindAppend(l, [op] + r, 0, op);
    DepthAppend(l, [op] + r, 0);
    DepthAppend([op], r, 0);
    ScanOne(op, 0, op);
  }

  /** What shows of the text of an expression. */
  lemma {:induction false} TextScan(e: Expr, dates: Dates)
    requires WellFormed(e, dates)
    ensures Text(e) != [] && Depth(Text(e), 0) == 0
    ensures if e.Bar? then Find(Text(e), 0, '|').Found? else Find(Text(e), 0, '|') == Nowhere
    ensures e.Amp? ==> Find(Text(e), 0, '&').Found?
    ensures !e.Bar? && !e.Amp? ==> Find(Text(e), 0, '&') == Nowhere
  {
    match e
    case Plain(c) =>
      ScanOne(c, 0, '|');
      ScanOne(c, 0, '&');
    case Dated(c, arg) =>
      PlainScan(arg, 0);
      ScanBrackets(arg, '|');
      ScanBrackets(arg, '&');
      assert Text(e) == [c] + (['('] + arg + [')']);
      ScanPrefix(c, ['('] + arg + [')'], '|');
      ScanPrefix(c, ['('] + arg + [')'], '&');
    case Paren(f) =>
      TextScan(f, dates);
      ScanBrackets(Text(f), '|');
      ScanBrackets(Text(f), '&');
    case Bang(f) =>
      TextScan(f, dates);
      ScanPrefix('!', Text(f), '|');
      ScanPrefix('!', Text(f), '&');
    case Tilde(f) =>
      TextScan(f, dates);
      ScanPrefix('~', Text(f), '|');
      ScanPrefix('~', Text(f), '&');
    case Amp(l, r) =>
      TextScan(l, dates);
      TextScan(r, dates);
      ScanOperation(Text(l), '&', Text(r), '|');
      ScanFinds(Text(l), '&', Text(r));
    case Bar(l, r) =>
      TextScan(l, dates);
      TextScan(r, dates);
      ScanFinds(Text(l), '|', Text(r));
  }

  /** How the text of an expression that is not an operation begins. */
  lemma FirstByte(e: Expr, dates: Dates)
    requires WellFormed(e, dates) && !e.Amp? && !e.Bar?
    ensures Text(e) != []
    ensures e.Paren? <==> Text(e)[0] == '('
    ensures e.Bang? <==> Text(e)[0] == '!'
    ensures e.Tilde? <==> Text(e)[0] == '~'
  {
  }

  /** The parser builds the object of the expression. */
  lemma {:induction false} ParseText(e: Expr, dates: Dates)
    requires WellFormed(e, dates)
    ensures Parse(Text(e), dates) == Ok(Build(e, dates))
  {
    TextScan(e, dates);
    match e
    case Bar(l, r) =>
      TextScan(l, dates);
      ScanFinds(Text(l), '|', Text(r));
      ParseText(l, dates);
      ParseText(r, dates);
    case Amp(l, r) =>
      TextScan(l, dates);
      ScanFinds(Text(l), '&', Text(r));
      ParseText(l, dates);
      ParseText(r, dates);
    case _ =>
      ParseUnaryText(e, dates);
  }

  lemma {:induction false} ParseUnaryText(e: Expr, dates: Dates)
    requires WellFormed(e, dates) && !e.Amp? && !e.Bar? && Text(e) != []
    ensures ParseUnary(Text(e), dates) == Ok(Build(e, dates))
    decreases e, 0
  {
    var s := Text(e);
    FirstByte(e, dates);
    match e
    case Paren(f) =>
      assert s[|s| - 1] == ')' && s[1..|s| - 1] == Text(f);
      ParseText(f, dates);
    case Bang(f) =>
      assert s[1..] == Text(f);
      ParseText(f, dates);
    case Tilde(f) =>
      assert s[1..] == Text(f);
      ParseText(f, dates);
    case Dated(c, arg) =>
      assert s[2..|s| - 1] == arg;
    case Plain(c) =>
  }

  // ----- nothing else is accepted

  lemma {:induction false} FoundIsFirst(s: seq<char>, d: nat, c: char)
    requires Find(s, d, c).Found?
    ensures Find(s[..Find(s, d, c).index], d, c) == Nowhere
  {
    var i := Find(s, d, c).index;
    if i > 0 {
      var d2 := if s[0] == '(' then d + 1 else if s[0] == ')' then d - 1 else d;
      FoundIsFirst(s[1..], d2, c);
      assert s[..i][0] == s[0] && s[..i][1..] == s[1..][..i - 1];
    }
  }

  lemma SplitAt(s: seq<char>, i: nat)
    requires i < |s|
    ensures s == s[..i] + [s[i]] + s[i + 1..]
  {
  }

  /** Dates are written without parentheses. */
  predicate PlainDates(dates: Dates, s: seq<char>) {
    dates(s).Date? ==> NoParen(s)
  }

  /** Every string the parser accepts is the text of a well-formed expression. */
  lemma {:induction false} Accepted(s: seq<char>, dates: Dates) returns (e: Expr)
    requires Parse(s, dates).Ok? && forall a :: PlainDates(dates, a)
    ensures WellFormed(e, dates) && Text(e) == s
    decreases |s|
  {
    match Find(s, 0, '|')
    case Found(i) =>
      FoundIsFirst(s, 0, '|');
      SplitAt(s, i);
      var l := Accepted(s[..i], dates);
      var r := Accepted(s[i + 1..], dates);
      TextScan(l, dates);
      e := Bar(l, r);
    case Nowhere =>
      var at := Find(s, 0, '&');
      if at.Found? {
        FoundIsFirst(s, 0, '&');
        SplitAt(s, at.index);
        var l := Accepted(s[..at.index], dates);
        var r := Accepted(s[at.index + 1..], dates);
        AmpAccepted(l, r, s, dates);
        e := Amp(l, r);
      } else {
        e := UnaryAccepted(s, dates);
      }
  }

  lemma NotBar(l: Expr, t: seq<char>, dates: Dates)
    requires WellFormed(l, dates) && Find(Text(l) + t, 0, '|') == Nowhere
    ensures !l.Bar?
  {
    TextScan(l, dates);
    if l.Bar? {
      FindKeeps(Text(l), t, 0, '|');
    }
  }

  lemma AmpAccepted(l: Expr, r: Expr, s: seq<char>, dates: Dates)
    requires WellFormed(l, dates) && WellFormed(r, dates) && s == Text(l) + ['&'] + Text(r)
    requires Find(s, 0, '|') == Nowhere && Find(Text(l), 0, '&') == Nowhere
    ensures !l.Amp? && !l.Bar? && !r.Bar?
  {
    var a, b := Text(l), Text(r);
    Regroup(a, ['&'], b);
    NotBar(l, ['&'] + b, dates);
    LeftScanned(l, dates);
    RightNotBar(a, r, dates);
  }

  lemma LeftScanned(l: Expr, dates: Dates)
    requires WellFormed(l, dates) && !l.Bar? && Find(Text(l), 0, '&') == Nowhere
    ensures !l.Amp? && Depth(Text(l), 0) == 0 && Find(Text(l), 0, '|') == Nowhere
  {
    TextScan(l, dates);
  }

  lemma RightNotBar(a: seq<char>, r: Expr, dates: Dates)
    requires WellFormed(r, dates) && Find(a + ['&'] + Text(r), 0, '|') == Nowhere
    requires Depth(a, 0) == 0 && Find(a, 0, '|') == Nowhere
    ensures !r.Bar?
  {
    ScanOperation(a, '&', Text(r), '|');
    TextScan(r, dates);
  }

  lemma {:induction false} FindKeeps(s: seq<char>, t: seq<char>, d: nat, c: char)
    requires Find(s, d, c).Found?
    ensures Find(s + t, d, c) == Find(s, d, c)
  {
    assert (s + t)[0] == s[0] && (s + t)[1..] == s[1..] + t;
    if s[0] != c || d != 0 {
      FindKeeps(s[1..], t, if s[0] == '(' then d + 1 else if s[0] == ')' then d - 1 else d, c);
    }
  }

  lemma {:induction false} UnaryAccepted(s: seq<char>, dates: Dates) returns (e: Expr)
    requires s != [] && ParseUnary(s, dates).Ok? && forall a :: PlainDates(dates, a)
    requires Find(s, 0, '|') == Nowhere && Find(s, 0, '&') == Nowhere
    ensures WellFormed(e, dates) && Text(e) == s
    decreases |s|, 0
  {
    var n := |s| - 1;
    if s[0] == '(' && s[n] == ')' {
      var f := Accepted(s[1..n], dates);
      e := Paren(f);
      assert s == ['('] + s[1..n] + [')'];
    } else if s[0] == '!' || s[0] == '~' {
      var f := Accepted(s[1..], dates);
      PrefixAccepted(f, s, dates);
      e := if s[0] == '!' then Bang(f) else Tilde(f);
    } else {
      e := AtomAccepted(s, dates);
    }
  }

  lemma PrefixAccepted(f: Expr, s: seq<char>, dates: Dates)
    requires WellFormed(f, dates) && s != [] && (s[0] == '!' || s[0] == '~') && s[1..] == Text(f)
    requires Find(s, 0, '|') == Nowhere && Find(s, 0, '&') == Nowhere
    ensures !f.Amp? && !f.Bar? && s == [s[0]] + Text(f)
  {
    assert s == [s[0]] + s[1..];
    ScanPrefix(s[0], s[1..], '|');
    ScanPrefix(s[0], s[1..], '&');
    TextScan(f, dates);
  }

  lemma AtomAccepted(s: seq<char>, dates: Dates) returns (e: Expr)
    requires s != [] && ParseAtom(s, dates).Ok? && forall a :: PlainDates(dates, a)
    ensures WellFormed(e, dates) && Text(e) == s && (e.Plain? || e.Dated?)
  {
    var n := |s| - 1;
    if |s| >= 4 && s[1] == '(' && s[n] == ')' {
      assert PlainDates(dates, s[2..n]);
      e := Dated(s[0], s[2..n]);
      assert s == [s[0], '('] + s[2..n] + [')'];
    } else {
      e := Plain(s[0]);
      assert s == [s[0]];
    }
  }

  // ----- meaning

  /** The expression without the parentheses around it. */
  function Core(e: Expr): Expr {
    match e
    case Paren(f) => Core(f)
    case _ => e
  }

  lemma {:induction false} BuildOfCore(e: Expr, dates: Dates)
    requires WellFormed(e, dates)
    ensures WellFormed(Core(e), dates) && Build(e, dates) == Build(Core(e), dates)
    ensures Build(e, dates).Or? <==> Core(e).Bar?
    ensures Build(e, dates).And? <==> Core(e).Amp?
  {
    if e.Paren? {
      BuildOfCore(e.e, dates);
    }
  }

  /** No operation & has an operation | as right operand, with or without parentheses. */
  predicate Safe(e: Expr) {
    match e
    case Paren(f) => Safe(f)
    case Bang(f) => Safe(f)
    case Tilde(f) => Safe(f)
    case Amp(l, r) => Safe(l) && Safe(r) && !Core(r).Bar?
    case Bar(l, r) => Safe(l) && Safe(r)
    case _ => true
  }

  lemma AndMeans<E>(l: Crit, r: Crit, x: E, y: E, atoms: Atoms<E>)
    requires !r.Or?
    ensures Eval(AddAnd(l, r), x, y, atoms) <==> Eval(l, x, y, atoms) && Eval(r, x, y, atoms)
  {
    var ops := AddAnd(l, r).ops;
    assert ops[0] == l;
    if r.And? {
      assert forall i :: 0 <= i < |r.ops| ==> ops[i + 1] == r.ops[i];
      assert forall i :: 1 <= i < |ops| ==> ops[i] == r.ops[i - 1];
    } else {
      assert ops[1] == r;
    }
  }

  lemma OrMeans<E>(l: Crit, r: Crit, x: E, y: E, atoms: Atoms<E>)
    ensures Eval(AddOr(l, r), x, y, atoms) <==> Eval(l, x, y, atoms) || Eval(r, x, y, atoms)
  {
    var ops := AddOr(l, r).ops;
    assert ops[0] == l;
    if r.Or? {
      assert forall i :: 0 <= i < |r.ops| ==> ops[i + 1] == r.ops[i];
      assert forall i :: 1 <= i < |ops| ==> ops[i] == r.ops[i - 1];
    } else {
      assert ops[1] == r;
    }
  }

  /** The object of a safe expression means what the expression means, whatever the entries
      and the atomic criteria. */
  lemma {:induction false} BuildMeans<E>(e: Expr, dates: Dates, x: E, y: E, atoms: Atoms<E>)
    requires WellFormed(e, dates) && Safe(e)
    ensures Eval(Build(e, dates), x, y, atoms) == Meaning(e, dates, x, y, atoms)
  {
    match e
    case Paren(f) => BuildMeans(f, dates, x, y, atoms);
    case Bang(f) => BuildMeans(f, dates, x, y, atoms);
    case Tilde(f) => BuildMeans(f, dates, y, x, atoms);
    case Amp(l, r) =>
      BuildMeans(l, dates, x, y, atoms);
      BuildMeans(r, dates, x, y, atoms);
      BuildOfCore(r, dates);
      AndMeans(Build(l, dates), Build(r, dates), x, y, atoms);
    case Bar(l, r) =>
      BuildMeans(l, dates, x, y, atoms);
      BuildMeans(r, dates, x, y, atoms);
      OrMeans(Build(l, dates), Build(r, dates), x, y, atoms);
    case _ =>
  }

  /** When the right operand of & is an `or`, its operands are all required: the answer is
      then wrong exactly when the left operand holds and the others do not agree. */
  lemma OrTakenForAnd<E>(l: Crit, r: Crit, x: E, y: E, atoms: Atoms<E>)
    requires r.Or? && r.ops != []
    ensures Eval(AddAnd(l, r), x, y, atoms) <==>
              Eval(l, x, y, atoms) && forall i :: 0 <= i < |r.ops| ==> Eval(r.ops[i], x, y, atoms)
    ensures (Eval(AddAnd(l, r), x, y, atoms) <==> Eval(l, x, y, atoms) && Eval(r, x, y, atoms)) <==>
            !(Eval(l, x, y, atoms) && Eval(r, x, y, atoms) &&
              exists i :: 0 <= i < |r.ops| && !Eval(r.ops[i], x, y, atoms))
  {
    AllRequired(l, r, x, y, atoms);
    if forall i :: 0 <= i < |r.ops| ==> Eval(r.ops[i], x, y, atoms) {
      assert Eval(r.ops[0], x, y, atoms);
    }
  }

  lemma AllRequired<E>(l: Crit, r: Crit, x: E, y: E, atoms: Atoms<E>)
    requires r.Or?
    ensures Eval(AddAnd(l, r), x, y, atoms) <==>
              Eval(l, x, y, atoms) && forall i :: 0 <= i < |r.ops| ==> Eval(r.ops[i], x, y, atoms)
  {
    var ops := AddAnd(l, r).ops;
    assert ops[0] == l;
    assert forall i :: 0 <= i < |r.ops| ==> ops[i + 1] == r.ops[i];
    assert forall i :: 1 <= i < |ops| ==> ops[i] == r.ops[i - 1];
  }

  const INODE_DIR_OR_FILE := Amp(Plain('I'), Paren(Bar(Plain('D'), Plain('F'))))

  lemma GroupText(a: Expr, b: Expr, c: Expr)
    requires a.Plain? && b.Plain? && c.Plain?
    ensures Text(Amp(a, Paren(Bar(b, c)))) == [a.letter, '&', '(', b.letter, '|', c.letter, ')']
  {
    assert Text(Bar(b, c)) == [b.letter, '|', c.letter];
  }

  lemma InodeText(dates: Dates)
    ensures WellFormed(INODE_DIR_OR_FILE, dates) && Text(INODE_DIR_OR_FILE) == "I&(D|F)"
  {
    GroupText(INODE_DIR_OR_FILE.l, Plain('D'), Plain('F'));
  }

  lemma InodeBuilt(dates: Dates)
    requires WellFormed(INODE_DIR_OR_FILE, dates)
    ensures Build(INODE_DIR_OR_FILE, dates) == And([Atom(Letter('I')), Atom(Letter('D')), Atom(Letter('F'))])
  {
    var or := Paren(Bar(Plain('D'), Plain('F')));
    assert Build(or, dates) == Or([Atom(Letter('D')), Atom(Letter('F'))]);
    assert [Atom(Letter('I'))] + [Atom(Letter('D')), Atom(Letter('F'))] ==
           [Atom(Letter('I')), Atom(Letter('D')), Atom(Letter('F'))];
  }

  lemma ParenthesesLost(dates: Dates)
    ensures WellFormed(INODE_DIR_OR_FILE, dates) && Text(INODE_DIR_OR_FILE) == "I&(D|F)"
    ensures Parse("I&(D|F)", dates) == Ok(And([Atom(Letter('I')), Atom(Letter('D')), Atom(Letter('F'))]))
  {
    InodeText(dates);
    InodeBuilt(dates);
    ParseText(INODE_DIR_OR_FILE, dates);
  }

  // ----- the characters

  /** The letters of the criteria, in the order in which the source lists them. */
  ghost predicate IsCriterium(c: char) {
    c == 'I' || c == 'D' || c == 'F' || c == 'H' || c == 'A' || c == 'R' || c == 'B' || c == 'S' || c == 'Y'
    || c == 'X' || c == 'e' || c == 'r' || c == 'm' || c == 'b' || c == 's' || c == 'T'
  }

  lemma InLetters(c: char)
    ensures c in LETTERS <==> IsCriterium(c)
  {
    assert LETTERS[0] == 'I' && LETTERS[1] == 'D' && LETTERS[2] == 'F' && LETTERS[3] == 'H' && LETTERS[4] == 'A';
    assert LETTERS[5] == 'R' && LETTERS[6] == 'B' && LETTERS[7] == 'S' && LETTERS[8] == 'Y' && LETTERS[9] == 'X';
    assert LETTERS[10] == 'e' && LETTERS[11] == 'r' && LETTERS[12] == 'm' && LETTERS[13] == 'b';
    assert LETTERS[14] == 's' && LETTERS[15] == 'T' && |LETTERS| == 16;
  }

  lemma OneFound(a: char, c: char)
    ensures Find([a], 0, c) == if a == c then Found(0) else if a == ')' then Unbalanced else Nowhere
  {
    assert [a][1..] == [];
  }

  /** A string of one character is a criterium exactly when it is one of those. */
  lemma OneLetter(c: char, dates: Dates)
    ensures if IsCriterium(c) then Parse([c], dates) == Ok(Atom(Letter(c))) else Parse([c], dates).Err?
  {
    var s := [c];
    InLetters(c);
    OneFound(c, '|');
    OneFound(c, '&');
    assert s[..0] == [] && s[1..] == [] && Parse([], dates).Err?;
  }

  /** With a date, only two of them. */
  lemma WithDate(c: char, arg: seq<char>, d: nat, dates: Dates)
    requires (c == 'R' || c == 'r') && arg != [] && NoParen(arg) && dates(arg) == Date(d)
    ensures Parse([c, '('] + arg + [')'], dates) == Ok(Atom(Since(c, d)))
  {
    ParseText(Dated(c, arg), dates);
  }

  /** The operators of one operand. */
  lemma UnaryOperators(dates: Dates)
    ensures Parse("!D", dates) == Ok(Not(Atom(Letter('D')))) && Parse("~D", dates) == Ok(Invert(Atom(Letter('D'))))
  {
    ParseText(Bang(Plain('D')), dates);
    ParseText(Tilde(Plain('D')), dates);
    assert Text(Bang(Plain('D'))) == "!D" && Text(Tilde(Plain('D'))) == "~D";
  }

  /** Three operands make one node, the first ones in parentheses a node of their own. */
  lemma Conjunctions(dates: Dates)
    ensures Parse("D&F&I", dates) == Ok(And([Atom(Letter('D')), Atom(Letter('F')), Atom(Letter('I'))]))
  {
    var e := Amp(Plain('D'), Amp(Plain('F'), Plain('I')));
    assert WellFormed(e, dates);
    ParseText(e, dates);
    assert Text(e) == "D&F&I";
    assert Build(e, dates) == And([Atom(Letter('D')), Atom(Letter('F')), Atom(Letter('I'))]);
  }

  lemma Disjunctions(dates: Dates)
    ensures Parse("D|F|I", dates) == Ok(Or([Atom(Letter('D')), Atom(Letter('F')), Atom(Letter('I'))]))
  {
    var e := Bar(Plain('D'), Bar(Plain('F'), Plain('I')));
    assert WellFormed(e, dates);
    ParseText(e, dates);
    assert Text(e) == "D|F|I";
    assert Build(e, dates) == Or([Atom(Letter('D')), Atom(Letter('F')), Atom(Letter('I'))]);
  }

  lemma GroupedFirst(dates: Dates)
    ensures Parse("(D|F)|I", dates) == Ok(Or([Or([Atom(Letter('D')), Atom(Letter('F'))]), Atom(Letter('I'))]))
  {
    var e := Bar(Paren(Bar(Plain('D'), Plain('F'))), Plain('I'));
    assert WellFormed(e, dates);
    ParseText(e, dates);
    assert Text(e) == "(D|F)|I";
    assert Build(e, dates) == Or([Or([Atom(Letter('D')), Atom(Letter('F'))]), Atom(Letter('I'))]);
  }

  /** With I&(D|F), an inode that is a directory is refused... */
  lemma DirectoryRefused(dates: Dates, c: Crit, x: int, atoms: Atoms<int>)
    requires Parse("I&(D|F)", dates) == Ok(c) && !atoms(Letter('F'), x, x)
    ensures !Eval(c, x, x, atoms)
  {
    ParenthesesLost(dates);
    Refuses(x, atoms);
  }

  /** ...although the expression accepts it. */
  lemma DirectoryMeant(dates: Dates, x: int, atoms: Atoms<int>)
    requires atoms(Letter('I'), x, x) && atoms(Letter('D'), x, x)
    ensures WellFormed(INODE_DIR_OR_FILE, dates) && Meaning(INODE_DIR_OR_FILE, dates, x, x, atoms)
  {
    assert WellFormed(INODE_DIR_OR_FILE, dates);
  }

  lemma Refuses(x: int, atoms: Atoms<int>)
    requires !atoms(Letter('F'), x, x)
    ensures !Eval(And([Atom(Letter('I')), Atom(Letter('D')), Atom(Letter('F'))]), x, x, atoms)
  {
    var ops := [Atom(Letter('I')), Atom(Letter('D')), Atom(Letter('F'))];
    assert !Eval(ops[2], x, x, atoms);
  }

  // ----- fully parenthesised texts

  /** A tree of operations on atoms, however nested. */
  predicate ValidTree(e: Expr, dates: Dates) {
    match e
    case Plain(_) => WellFormed(e, dates)
    case Dated(_, _) => WellFormed(e, dates)
    case Paren(f) => ValidTree(f, dates)
    case Bang(f) => ValidTree(f, dates)
    case Tilde(f) => ValidTree(f, dates)
    case Amp(l, r) => ValidTree(l, dates) && ValidTree(r, dates)
    case Bar(l, r) => ValidTree(l, dates) && ValidTree(r, dates)
  }

  /** Parentheses around every operand. */
  function Full(e: Expr): Expr {
    match e
    case Paren(f) => Paren(Full(f))
    case Bang(f) => Bang(Paren(Full(f)))
    case Tilde(f) => Tilde(Paren(Full(f)))
    case Amp(l, r) => Amp(Paren(Full(l)), Paren(Full(r)))
    case Bar(l, r) => Bar(Paren(Full(l)), Paren(Full(r)))
    case _ => e
  }

  /** Any tree can be written so that it is parsed as itself; the operands of & still have
      to be safe, parentheses or not. */
  lemma {:induction false} FullParses(e: Expr, dates: Dates)
    requires ValidTree(e, dates)
    ensures WellFormed(Full(e), dates) && Parse(Text(Full(e)), dates) == Ok(Build(Full(e), dates))
    ensures Safe(Full(e)) <==> Safe(e)
  {
    FullWellFormed(e, dates);
    ParseText(Full(e), dates);
  }

  lemma {:induction false} FullWellFormed(e: Expr, dates: Dates)
    requires ValidTree(e, dates)
    ensures WellFormed(Full(e), dates) && (Safe(Full(e)) <==> Safe(e)) && (Core(Full(e)).Bar? <==> Core(e).Bar?)
  {
    match e
    case Paren(f) => FullWellFormed(f, dates);
    case Bang(f) => FullWellFormed(f, dates);
    case Tilde(f) => FullWellFormed(f, dates);
    case Amp(l, r) => FullWellFormed(l, dates); FullWellFormed(r, dates);
    case Bar(l, r) => FullWellFormed(l, dates); FullWellFormed(r, dates);
    case _ =>
  }
}
