/** What the parser of criteria understands of an expression, and exactly which expressions
    it understands as they are meant. */
module CriteriaMeanings {
  import opened Criteria
  import opened CriteriaTexts

  // ----- the expression understood

  /** The expression the parser acts as if it had read: the operands of an `or` that is the
      right operand of & are all required. */
  function AsRead(e: Expr): Expr
    decreases e, 0
  {
    match e
    case Paren(f) => Paren(AsRead(f))
    case Bang(f) => Bang(AsRead(f))
    case Tilde(f) => Tilde(AsRead(f))
    case Amp(l, r) => Amp(AsRead(l), AllOf(r))
    case Bar(l, r) => Bar(AsRead(l), AsRead(r))
    case _ => e
  }

  function AllOf(e: Expr): Expr
    decreases e, 1
  {
    match e
    case Paren(f) => Paren(AllOf(f))
    case Bar(l, r) => Amp(Paren(AsRead(l)), AllOf(r))
    case _ => AsRead(e)
  }

  lemma {:induction false} AsReadWellFormed(e: Expr, dates: Dates)
    requires WellFormed(e, dates)
    ensures WellFormed(AsRead(e), dates) && WellFormed(AllOf(e), dates)
  {
    match e
    case Paren(f) => AsReadWellFormed(f, dates);
    case Bang(f) => AsReadWellFormed(f, dates);
    case Tilde(f) => AsReadWellFormed(f, dates);
    case Amp(l, r) => AsReadWellFormed(l, dates); AsReadWellFormed(r, dates);
    case Bar(l, r) => AsReadWellFormed(l, dates); AsReadWellFormed(r, dates);
    case _ =>
  }

  lemma {:induction false} AllOfOther(e: Expr)
    requires !Core(e).Bar?
    ensures AllOf(e) == AsRead(e)
  {
    if e.Paren? {
      AllOfOther(e.e);
    }
  }

  lemma {:induction false} AllOfOr(e: Expr)
    requires Core(e).Bar?
    ensures Core(AllOf(e)).Amp?
  {
    if e.Paren? {
      AllOfOr(e.e);
    }
  }

  /** The parser understands the expression that was written exactly when it is safe. */
  lemma {:induction false} AsReadIsSame(e: Expr)
    ensures AsRead(e) == e <==> Safe(e)
  {
    match e
    case Paren(f) => AsReadIsSame(f);
    case Bang(f) => AsReadIsSame(f);
    case Tilde(f) => AsReadIsSame(f);
    case Amp(l, r) =>
      AsReadIsSame(l);
      AsReadIsSame(r);
      if Core(r).Bar? {
        AllOfOr(r);
      } else {
        AllOfOther(r);
      }
    case Bar(l, r) => AsReadIsSame(l); AsReadIsSame(r);
    case _ =>
  }

  /** The object built from any expression means what AsRead says. */
  lemma {:induction false} BuildMeansAsRead<E>(e: Expr, dates: Dates, x: E, y: E, atoms: Atoms<E>)
    requires WellFormed(e, dates)
    ensures WellFormed(AsRead(e), dates) && WellFormed(AllOf(e), dates)
    ensures Eval(Build(e, dates), x, y, atoms) == Meaning(AsRead(e), dates, x, y, atoms)
    ensures Build(e, dates).Or? ==>
              (AllHold(Build(e, dates).ops, x, y, atoms) <==> Meaning(AllOf(e), dates, x, y, atoms))
  {
    AsReadWellFormed(e, dates);
    match e
    case Paren(f) => BuildMeansAsRead(f, dates, x, y, atoms);
    case Bang(f) => BuildMeansAsRead(f, dates, x, y, atoms);
    case Tilde(f) => BuildMeansAsRead(f, dates, y, x, atoms);
    case Amp(l, r) =>
      BuildMeansAsRead(l, dates, x, y, atoms);
      BuildMeansAsRead(r, dates, x, y, atoms);
      AddAndMeans(l, r, dates, x, y, atoms);
    case Bar(l, r) =>
      BuildMeansAsRead(l, dates, x, y, atoms);
      BuildMeansAsRead(r, dates, x, y, atoms);
      OrMeans(Build(l, dates), Build(r, dates), x, y, atoms);
      AddOrMeans(l, r, dates, x, y, atoms);
    case _ =>
  }

  predicate AllHold<E>(ops: seq<Crit>, x: E, y: E, atoms: Atoms<E>) {
    forall i :: 0 <= i < |ops| ==> Eval(ops[i], x, y, atoms)
  }

  lemma AddAndMeans<E>(l: Expr, r: Expr, dates: Dates, x: E, y: E, atoms: Atoms<E>)
    requires WellFormed(l, dates) && WellFormed(r, dates)
    requires WellFormed(AsRead(r), dates) && WellFormed(AllOf(r), dates)
    requires Eval(Build(r, dates), x, y, atoms) == Meaning(AsRead(r), dates, x, y, atoms)
    requires Build(r, dates).Or? ==>
               (AllHold(Build(r, dates).ops, x, y, atoms) <==> Meaning(AllOf(r), dates, x, y, atoms))
    ensures Eval(AddAnd(Build(l, dates), Build(r, dates)), x, y, atoms) <==>
              Eval(Build(l, dates), x, y, atoms) && Meaning(AllOf(r), dates, x, y, atoms)
  {
    BuildOfCore(r, dates);
    if Build(r, dates).Or? {
      AllRequired(Build(l, dates), Build(r, dates), x, y, atoms);
    } else {
      AllOfOther(r);
      AndMeans(Build(l, dates), Build(r, dates), x, y, atoms);
    }
  }

  lemma AddOrMeans<E>(l: Expr, r: Expr, dates: Dates, x: E, y: E, atoms: Atoms<E>)
    requires WellFormed(l, dates) && WellFormed(r, dates)
    requires WellFormed(AsRead(r), dates) && WellFormed(AllOf(r), dates)
    requires Eval(Build(r, dates), x, y, atoms) == Meaning(AsRead(r), dates, x, y, atoms)
    requires Build(r, dates).Or? ==>
               (AllHold(Build(r, dates).ops, x, y, atoms) <==> Meaning(AllOf(r), dates, x, y, atoms))
    ensures AllHold(AddOr(Build(l, dates), Build(r, dates)).ops, x, y, atoms) <==>
              Eval(Build(l, dates), x, y, atoms) && Meaning(AllOf(r), dates, x, y, atoms)
  {
    var ops := AddOr(Build(l, dates), Build(r, dates)).ops;
    assert ops[0] == Build(l, dates);
    BuildOfCore(r, dates);
    if Build(r, dates).Or? {
      var more := Build(r, dates).ops;
      assert forall i :: 0 <= i < |more| ==> ops[i + 1] == more[i];
      assert forall i :: 1 <= i < |ops| ==> ops[i] == more[i - 1];
    } else {
      AllOfOther(r);
      assert ops[1] == Build(r, dates);
    }
  }

  // ----- which expressions are understood as they are meant

  /** The atomic criteria of an expression. */
  function Kinds(e: Expr, dates: Dates): set<AtomKind>
    requires WellFormed(e, dates)
  {
    match e
    case Plain(c) => {Letter(c)}
    case Dated(c, arg) => {Since(c, dates(arg).value)}
    case Paren(f) => Kinds(f, dates)
    case Bang(f) => Kinds(f, dates)
    case Tilde(f) => Kinds(f, dates)
    case Amp(l, r) => Kinds(l, dates) + Kinds(r, dates)
    case Bar(l, r) => Kinds(l, dates) + Kinds(r, dates)
  }

  /** No atomic criterium is written twice. */
  predicate AllDistinct(e: Expr, dates: Dates)
    requires WellFormed(e, dates)
  {
    match e
    case Paren(f) => AllDistinct(f, dates)
    case Bang(f) => AllDistinct(f, dates)
    case Tilde(f) => AllDistinct(f, dates)
    case Amp(l, r) => AllDistinct(l, dates) && AllDistinct(r, dates) && Kinds(l, dates) !! Kinds(r, dates)
    case Bar(l, r) => AllDistinct(l, dates) && AllDistinct(r, dates) && Kinds(l, dates) !! Kinds(r, dates)
    case _ => true
  }

  /** The atomic criteria that hold, whatever the entries. */
  function Holding(v: set<AtomKind>): Atoms<int> {
    (k: AtomKind, x: int, y: int) => k in v
  }

  predicate True(e: Expr, dates: Dates, v: set<AtomKind>)
    requires WellFormed(e, dates)
  {
    Meaning(e, dates, 0, 0, Holding(v))
  }

  lemma {:induction false} AsReadKinds(e: Expr, dates: Dates)
    requires WellFormed(e, dates)
    ensures WellFormed(AsRead(e), dates) && WellFormed(AllOf(e), dates)
    ensures Kinds(AsRead(e), dates) == Kinds(e, dates) && Kinds(AllOf(e), dates) == Kinds(e, dates)
  {
    AsReadWellFormed(e, dates);
    match e
    case Paren(f) => AsReadKinds(f, dates);
    case Bang(f) => AsReadKinds(f, dates);
    case Tilde(f) => AsReadKinds(f, dates);
    case Amp(l, r) => AsReadKinds(l, dates); AsReadKinds(r, dates);
    case Bar(l, r) => AsReadKinds(l, dates); AsReadKinds(r, dates);
    case _ =>
  }

  /** Only the atomic criteria of the expression matter. */
  lemma {:induction false} OnlyItsKinds(e: Expr, dates: Dates, v: set<AtomKind>, w: set<AtomKind>)
    requires WellFormed(e, dates)
    requires forall k {:trigger k in v} {:trigger k in w} :: k in Kinds(e, dates) ==> (k in v <==> k in w)
    ensures True(e, dates, v) == True(e, dates, w)
  {
    match e
    case Paren(f) => OnlyItsKinds(f, dates, v, w);
    case Bang(f) => OnlyItsKinds(f, dates, v, w);
    case Tilde(f) => OnlyItsKinds(f, dates, v, w);
    case Amp(l, r) => OnlyItsKinds(l, dates, v, w); OnlyItsKinds(r, dates, v, w);
    case Bar(l, r) => OnlyItsKinds(l, dates, v, w); OnlyItsKinds(r, dates, v, w);
    case _ =>
  }

  /** The criteria of other expressions may be added. */
  lemma Others(e: Expr, dates: Dates, v: set<AtomKind>, w: set<AtomKind>)
    requires WellFormed(e, dates) && Kinds(e, dates) !! w
    ensures WellFormed(AsRead(e), dates) && WellFormed(AllOf(e), dates)
    ensures True(e, dates, v + w) == True(e, dates, v) == True(e, dates, w + v)
    ensures True(AsRead(e), dates, v + w) == True(AsRead(e), dates, v) == True(AsRead(e), dates, w + v)
    ensures True(AllOf(e), dates, v + w) == True(AllOf(e), dates, v) == True(AllOf(e), dates, w + v)
  {
    AsReadKinds(e, dates);
    assert v + w == w + v;
    OnlyItsKinds(e, dates, v + w, v);
    OnlyItsKinds(AsRead(e), dates, v + w, v);
    OnlyItsKinds(AllOf(e), dates, v + w, v);
  }

  /** Whether meant, understood or required at each operand, the expression can be made true
      and can be made false. */
  lemma {:induction false} Settle(e: Expr, dates: Dates, want: bool) returns (v: set<AtomKind>)
    requires WellFormed(e, dates) && AllDistinct(e, dates)
    ensures WellFormed(AsRead(e), dates) && WellFormed(AllOf(e), dates) && v <= Kinds(e, dates)
    ensures True(e, dates, v) == want && True(AsRead(e), dates, v) == want && True(AllOf(e), dates, v) == want
  {
    AsReadWellFormed(e, dates);
    match e
    case Paren(f) => v := Settle(f, dates, want);
    case Bang(f) => v := Settle(f, dates, !want);
    case Tilde(f) => v := Settle(f, dates, want);
    case Amp(l, r) =>
      var a := Settle(l, dates, want);
      var b := Settle(r, dates, want);
      Joined(l, r, dates, a, b);
      v := a + b;
    case Bar(l, r) =>
      var a := Settle(l, dates, want);
      var b := Settle(r, dates, want);
      Joined(l, r, dates, a, b);
      v := a + b;
      assert True(Paren(AsRead(l)), dates, v) == want;
    case Plain(c) => v := if want then {Letter(c)} else {};
    case Dated(c, arg) => v := if want then {Since(c, dates(arg).value)} else {};
  }

  /** Two operands without a common criterium are settled each on its own. */
  lemma Joined(l: Expr, r: Expr, dates: Dates, a: set<AtomKind>, b: set<AtomKind>)
    requires WellFormed(l, dates) && WellFormed(r, dates) && Kinds(l, dates) !! Kinds(r, dates)
    requires a <= Kinds(l, dates) && b <= Kinds(r, dates)
    ensures WellFormed(AsRead(l), dates) && WellFormed(AllOf(l), dates)
    ensures WellFormed(AsRead(r), dates) && WellFormed(AllOf(r), dates)
    ensures True(l, dates, a + b) == True(l, dates, a)
    ensures True(AsRead(l), dates, a + b) == True(AsRead(l), dates, a)
    ensures True(r, dates, a + b) == True(r, dates, b)
    ensures True(AsRead(r), dates, a + b) == True(AsRead(r), dates, b)
    ensures True(AllOf(r), dates, a + b) == True(AllOf(r), dates, b)
  {
    Others(l, dates, a, b);
    Others(r, dates, b, a);
  }

  /** When the `or` is required as a whole: its first operand alone does not suffice. */
  lemma {:induction false} SplitOr(e: Expr, dates: Dates) returns (v: set<AtomKind>)
    requires WellFormed(e, dates) && AllDistinct(e, dates) && Core(e).Bar?
    ensures WellFormed(AllOf(e), dates) && v <= Kinds(e, dates)
    ensures True(e, dates, v) && !True(AllOf(e), dates, v)
  {
    AsReadWellFormed(e, dates);
    match e
    case Paren(f) => v := SplitOr(f, dates);
    case Bar(l, r) =>
      var a := Settle(l, dates, true);
      var b := Settle(r, dates, false);
      Joined(l, r, dates, a, b);
      v := a + b;
  }

  /** An expression that is not safe, without repeated criteria, is misunderstood for some
      values of its criteria. */
  lemma {:induction false} Misunderstood(e: Expr, dates: Dates) returns (v: set<AtomKind>)
    requires WellFormed(e, dates) && AllDistinct(e, dates) && !Safe(e)
    ensures WellFormed(AsRead(e), dates) && v <= Kinds(e, dates)
    ensures True(e, dates, v) != True(AsRead(e), dates, v)
    decreases e, 0
  {
    AsReadWellFormed(e, dates);
    match e
    case Paren(f) => v := Misunderstood(f, dates);
    case Bang(f) => v := Misunderstood(f, dates);
    case Tilde(f) => v := Misunderstood(f, dates);
    case Bar(l, r) =>
      var a, b;
      if !Safe(l) {
        a := Misunderstood(l, dates);
        b := Settle(r, dates, false);
      } else {
        a := Settle(l, dates, false);
        b := Misunderstood(r, dates);
      }
      Joined(l, r, dates, a, b);
      v := a + b;
    case Amp(l, r) =>
      var a, b;
      if !Safe(l) {
        a := Misunderstood(l, dates);
        b := Settle(r, dates, true);
      } else {
        a := Settle(l, dates, true);
        b := MisunderstoodRight(r, dates);
      }
      Joined(l, r, dates, a, b);
      v := a + b;
  }

  /** The same for the right operand of &. */
  lemma {:induction false} MisunderstoodRight(r: Expr, dates: Dates) returns (b: set<AtomKind>)
    requires WellFormed(r, dates) && AllDistinct(r, dates) && !(Safe(r) && !Core(r).Bar?)
    ensures WellFormed(AllOf(r), dates) && b <= Kinds(r, dates)
    ensures True(r, dates, b) != True(AllOf(r), dates, b)
    decreases r, 1
  {
    if Core(r).Bar? {
      b := SplitOr(r, dates);
    } else {
      AllOfOther(r);
      b := Misunderstood(r, dates);
    }
  }

  /** What is built means what was written, whatever the entries and the criteria. */
  ghost predicate Understood(e: Expr, dates: Dates)
    requires WellFormed(e, dates)
  {
    forall x: int, y: int, atoms: Atoms<int> ::
      Eval(Build(e, dates), x, y, atoms) == Meaning(e, dates, x, y, atoms)
  }

  /** Without repeated criteria, parsing preserves the meaning exactly when no | is the right
      operand of an &. */
  lemma UnderstoodIffSafe(e: Expr, dates: Dates)
    requires WellFormed(e, dates)
    ensures Parse(Text(e), dates) == Ok(Build(e, dates))
    ensures Safe(e) ==> Understood(e, dates)
    ensures AllDistinct(e, dates) ==> (Safe(e) <==> Understood(e, dates))
  {
    ParseText(e, dates);
    if Safe(e) {
      forall x: int, y: int, atoms: Atoms<int>
        ensures Eval(Build(e, dates), x, y, atoms) == Meaning(e, dates, x, y, atoms)
      {
        BuildMeans(e, dates, x, y, atoms);
      }
    } else if AllDistinct(e, dates) {
      var v := Misunderstood(e, dates);
      BuildMeansAsRead(e, dates, 0, 0, Holding(v));
    }
  }
}
