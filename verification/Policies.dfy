/** Overwriting policies: conditions, actions and chains of them, and the parser that makes
    them from a string. */
module Policies {
  import opened Criteria
  import opened CriteriaTexts

  /** An action for the data and one for the extended attributes, each by its letter. */
  datatype Action = Action(data: char, ea: char)

  const UNDEFINED: char := '*'

  datatype Policy =
    | Constant(action: Action)
    | Testing(input: Crit, goTrue: Policy, goFalse: Policy)
    | Chain(sequence: seq<Policy>)

  // ----- evaluation

  /** What a chain has decided, once the next policy has answered. */
  function Updated(was: Action, now: Action): Action {
    Action(if now.data != UNDEFINED then now.data else was.data, if now.ea != UNDEFINED then now.ea else was.ea)
  }

  predicate Decided(a: Action) {
    a.data != UNDEFINED && a.ea != UNDEFINED
  }

  function GetAction<E>(p: Policy, x: E, y: E, atoms: Atoms<E>): Action
    decreases p, 1
  {
    match p
    case Constant(a) => a
    case Testing(c, t, f) => if Eval(c, x, y, atoms) then GetAction(t, x, y, atoms) else GetAction(f, x, y, atoms)
    case Chain(s) => InTurn(Action(UNDEFINED, UNDEFINED), s, x, y, atoms)
  }

  /** The policies in turn, up to the moment both actions are decided. */
  function InTurn<E>(was: Action, s: seq<Policy>, x: E, y: E, atoms: Atoms<E>): Action
    decreases s, 0
  {
    if s == [] || Decided(was) then was
    else InTurn(Updated(was, GetAction(s[0], x, y, atoms)), s[1..], x, y, atoms)
  }

  /** crit_chain::get_action. */
  method ChainAction<E>(sequence: seq<Policy>, x: E, y: E, atoms: Atoms<E>) returns (r: Action)
    ensures r == GetAction(Chain(sequence), x, y, atoms)
  {
    var data, ea := UNDEFINED, UNDEFINED;
    var it := 0;
    while it < |sequence| && (data == UNDEFINED || ea == UNDEFINED)
      invariant it <= |sequence|
      invariant InTurn(Action(data, ea), sequence[it..], x, y, atoms) == GetAction(Chain(sequence), x, y, atoms)
    {
      assert sequence[it..][1..] == sequence[it + 1..];
      var tmp := GetAction(sequence[it], x, y, atoms);
      if data == UNDEFINED || tmp.data != UNDEFINED {
        data := tmp.data;
      }
      if ea == UNDEFINED || tmp.ea != UNDEFINED {
        ea := tmp.ea;
      }
      it := it + 1;
    }
    r := Action(data, ea);
  }

  /** The last action defined by one of the first n policies, if any. */
  function LastData(acts: seq<Action>, n: nat): char
    requires n <= |acts|
  {
    if n == 0 then UNDEFINED else if acts[n - 1].data != UNDEFINED then acts[n - 1].data else LastData(acts, n - 1)
  }

  function LastEa(acts: seq<Action>, n: nat): char
    requires n <= |acts|
  {
    if n == 0 then UNDEFINED else if acts[n - 1].ea != UNDEFINED then acts[n - 1].ea else LastEa(acts, n - 1)
  }

  /** The first n policies decide. */
  predicate Suffices(acts: seq<Action>, n: nat)
    requires n <= |acts|
  {
    LastData(acts, n) != UNDEFINED && LastEa(acts, n) != UNDEFINED
  }

  function Answers<E>(s: seq<Policy>, x: E, y: E, atoms: Atoms<E>): (r: seq<Action>)
    ensures |r| == |s| && forall i :: 0 <= i < |s| ==> r[i] == GetAction(s[i], x, y, atoms)
  {
    if s == [] then [] else [GetAction(s[0], x, y, atoms)] + Answers(s[1..], x, y, atoms)
  }

  /** A chain asks its policies up to the first moment both actions are defined, and answers
      with the last definition of each. */
  lemma ChainMeans<E>(s: seq<Policy>, x: E, y: E, atoms: Atoms<E>) returns (n: nat)
    ensures var acts := Answers(s, x, y, atoms);
            && n <= |s| && (n == |s| || Suffices(acts, n)) && (forall m :: 0 <= m < n ==> !Suffices(acts, m))
            && GetAction(Chain(s), x, y, atoms) == Action(LastData(acts, n), LastEa(acts, n))
  {
    n := 0;
    var acts := Answers(s, x, y, atoms);
    assert s[0..] == s;
    while n < |s| && !Suffices(acts, n)
      invariant n <= |s| && forall m :: 0 <= m < n ==> !Suffices(acts, m)
      invariant InTurn(Action(LastData(acts, n), LastEa(acts, n)), s[n..], x, y, atoms) ==
                  GetAction(Chain(s), x, y, atoms)
    {
      assert s[n..][1..] == s[n + 1..];
      n := n + 1;
    }
  }

  // ----- parsing

  const DATA_LETTERS := "POSTR*A"
  const EA_LETTERS := "postmnr*a"

  function AddToChain(l: Policy, r: Policy): Policy {
    Chain([l] + if r.Chain? then r.sequence else [r])
  }

  function ParseConstant(s: seq<char>): Result<Policy> {
    if |s| != 2 then Err(UnknownExpression)
    else if s[0] !in DATA_LETTERS || s[1] !in EA_LETTERS then Err(UnknownCharacter)
    else Ok(Constant(Action(s[0], s[1])))
  }

  /** crit_action_create_from_string. */
  function ParsePolicy(s: seq<char>, dates: Dates): Result<Policy>
    decreases |s|, 2
  {
    if s == [] then Err(EmptyString)
    else
      match Find(s, 0, ';')
      case Unbalanced => Err(UnbalancedParenthesis)
      case Found(i) =>
        var l :- ParsePolicy(s[..i], dates);
        var r :- ParsePolicy(s[i + 1..], dates);
        Ok(AddToChain(l, r))
      case Nowhere => if s[0] == '{' then ParseTesting(s, dates) else ParseConstant(s)
  }

  /** The condition ends at the first }, the action at the first ], both out of parentheses;
      what follows is the action taken otherwise. */
  function ParseTesting(s: seq<char>, dates: Dates): Result<Policy>
    requires s != [] && s[0] == '{'
    decreases |s|, 1
  {
    var i, j := Find(s, 0, '}'), Find(s, 0, ']');
    if i.Unbalanced? then Err(UnbalancedParenthesis)
    else if i.Nowhere? then Err(MissingBrace)
    else if i.index + 1 == |s| || s[i.index + 1] != '[' then Err(MissingBracket)
    else if j.Unbalanced? then Err(UnbalancedParenthesis)
    else if j.Nowhere? then Err(MissingBracket)
    else ParseParts(s, i.index, j.index, dates)
  }

  function ParseParts(s: seq<char>, i: nat, j: nat, dates: Dates): Result<Policy>
    requires 0 < i < |s| && j < |s|
    decreases |s|, 0
  {
    if j < i + 2 then Both(Parse(s[1..i], dates), Err(UnknownExpression), NO_ACTION)  // the bracket is in the condition
    else
      Both(Parse(s[1..i], dates), ParsePolicy(s[i + 2..j], dates),
           if j + 1 == |s| then NO_ACTION else ParsePolicy(s[j + 1..], dates))
  }

  const NO_ACTION: Result<Policy> := Ok(Constant(Action(UNDEFINED, UNDEFINED)))

  /** The test, or the first error. */
  function Both(c: Result<Crit>, t: Result<Policy>, f: Result<Policy>): Result<Policy> {
    var input :- c;
    var goTrue :- t;
    var goFalse :- f;
    Ok(Testing(input, goTrue, goFalse))
  }

  // ----- policies as they are written

  datatype Expression =
    | Act(action: Action)
    | If(input: Expr, taken: Expression, otherwise: Option<Expression>)
    | Then(first: Expression, rest: Expression)

  datatype Option<+T> = None | Some(value: T)

  function PolicyText(p: Expression): seq<char> {
    match p
    case Act(a) => [a.data, a.ea]
    case If(c, t, f) => TestText(Text(c), PolicyText(t)) + (match f case None => [] case Some(g) => PolicyText(g))
    case Then(f, r) => PolicyText(f) + [';'] + PolicyText(r)
  }

  function TestText(c: seq<char>, t: seq<char>): seq<char> {
    ['{'] + c + ['}', '['] + t + [']']
  }

  predicate ActionOk(a: Action) {
    a.data in DATA_LETTERS && a.ea in EA_LETTERS
  }

  /** Chains are not put in conditions, conditions are not nested in the action taken when
      they hold. */
  predicate Parsable(p: Expression, dates: Dates) {
    match p
    case Act(a) => ActionOk(a)
    case If(c, t, f) =>
      && WellFormed(c, dates) && t.Act? && ActionOk(t.action)
      && (f.Some? ==> !f.value.Then? && Parsable(f.value, dates))
    case Then(f, r) => !f.Then? && Parsable(f, dates) && Parsable(r, dates)
  }

  function BuildPolicy(p: Expression, dates: Dates): Policy
    requires Parsable(p, dates)
  {
    match p
    case Act(a) => Constant(a)
    case If(c, t, f) =>
      Testing(Build(c, dates), Constant(t.action),
              if f.None? then Constant(Action(UNDEFINED, UNDEFINED)) else BuildPolicy(f.value, dates))
    case Then(f, r) => AddToChain(BuildPolicy(f, dates), BuildPolicy(r, dates))
  }

  // ----- scanning

  /** The parentheses match, and c does not show out of them. */
  predicate Hides(s: seq<char>, c: char) {
    Depth(s, 0) == 0 && Find(s, 0, c) == Nowhere
  }

  lemma HidesBoth(a: seq<char>, b: seq<char>, c: char)
    requires Hides(a, c) && Hides(b, c)
    ensures Hides(a + b, c)
  {
    FindAppend(a, b, 0, c);
    DepthAppend(a, b, 0);
  }

  lemma HidesOne(b: char, c: char)
    requires b != '(' && b != ')' && b != c
    ensures Hides([b], c)
  {
    ScanOne(b, 0, c);
  }

  /** The bytes the syntax of policies is made of. */
  predicate Mark(c: char) {
    c == ';' || c == '}' || c == ']' || c == '{' || c == '['
  }

  lemma {:induction false} TextHides(e: Expr, dates: Dates, c: char)
    requires WellFormed(e, dates) && Mark(c)
    ensures Hides(Text(e), c)
  {
    match e
    case Plain(b) => HidesOne(b, c);
    case Dated(b, arg) =>
      PlainScan(arg, 0);
      ScanBrackets(arg, c);
      HidesOne(b, c);
      assert Text(e) == [b] + (['('] + arg + [')']);
      HidesBoth([b], ['('] + arg + [')'], c);
    case Paren(f) =>
      TextHides(f, dates, c);
      ScanBrackets(Text(f), c);
    case Bang(f) =>
      TextHides(f, dates, c);
      ScanPrefix('!', Text(f), c);
    case Tilde(f) =>
      TextHides(f, dates, c);
      ScanPrefix('~', Text(f), c);
    case Amp(l, r) =>
      TextHides(l, dates, c);
      TextHides(r, dates, c);
      ScanOperation(Text(l), '&', Text(r), c);
    case Bar(l, r) =>
      TextHides(l, dates, c);
      TextHides(r, dates, c);
      ScanOperation(Text(l), '|', Text(r), c);
  }

  lemma ActionHides(a: Action, c: char)
    requires ActionOk(a) && Mark(c)
    ensures Hides([a.data, a.ea], c)
  {
    HidesOne(a.data, c);
    HidesOne(a.ea, c);
    assert [a.data, a.ea] == [a.data] + [a.ea];
    HidesBoth([a.data], [a.ea], c);
  }

  /** The text of a test, and what is found in it. */
  lemma TestScan(c: seq<char>, t: seq<char>, rest: seq<char>)
    requires Hides(c, '}') && Hides(c, ']') && Hides(t, ']')
    ensures var s, i, j := TestText(c, t) + rest, |c| + 1, |c| + |t| + 3;
            && Find(s, 0, '}') == Found(i) && Find(s, 0, ']') == Found(j) && j < |s|
            && s[0] == '{' && s[i + 1] == '[' && s[1..i] == c && s[i + 2..j] == t && s[j + 1..] == rest
  {
    var s, i, j := TestText(c, t) + rest, |c| + 1, |c| + |t| + 3;
    var open, middle := ['{'] + c, ['}', '['] + t;
    HidesOne('{', '}');
    HidesBoth(['{'], c, '}');
    assert s == open + ['}'] + (['['] + t + [']'] + rest);
    ScanFinds(open, '}', ['['] + t + [']'] + rest);
    HidesOne('{', ']');
    HidesOne('}', ']');
    HidesOne('[', ']');
    HidesBoth(['{'], c, ']');
    HidesBoth(['}'], ['['], ']');
    assert ['}'] + ['['] == ['}', '['];
    HidesBoth(['}', '['], t, ']');
    HidesBoth(open, middle, ']');
    assert s == (open + middle) + [']'] + rest;
    ScanFinds(open + middle, ']', rest);
  }

  /** A text that is not a chain shows no semicolon. */
  lemma {:induction false} NoSemicolon(p: Expression, dates: Dates)
    requires Parsable(p, dates) && !p.Then?
    ensures Hides(PolicyText(p), ';')
  {
    match p
    case Act(a) => ActionHides(a, ';');
    case If(c, t, f) =>
      TextHides(c, dates, ';');
      ActionHides(t.action, ';');
      TestHides(Text(c), PolicyText(t));
      if f.Some? {
        NoSemicolon(f.value, dates);
        HidesBoth(TestText(Text(c), PolicyText(t)), PolicyText(f.value), ';');
      } else {
        assert PolicyText(p) == TestText(Text(c), PolicyText(t));
      }
  }

  lemma TestHides(c: seq<char>, t: seq<char>)
    requires Hides(c, ';') && Hides(t, ';')
    ensures Hides(TestText(c, t), ';')
  {
    HidesOne('{', ';');
    HidesOne('}', ';');
    HidesOne('[', ';');
    HidesOne(']', ';');
    HidesBoth(['{'], c, ';');
    HidesBoth(['}'], ['['], ';');
    assert ['}'] + ['['] == ['}', '['];
    HidesBoth(['{'] + c, ['}', '['], ';');
    HidesBoth(['{'] + c + ['}', '['], t, ';');
    HidesBoth(['{'] + c + ['}', '['] + t, [']'], ';');
  }

  /** The parser builds what was written. */
  lemma {:induction false} PolicyParses(p: Expression, dates: Dates)
    requires Parsable(p, dates)
    ensures ParsePolicy(PolicyText(p), dates) == Ok(BuildPolicy(p, dates)) && PolicyText(p) != []
  {
    match p
    case Act(a) => ActionHides(a, ';');
    case If(c, t, f) =>
      NoSemicolon(p, dates);
      TestParses(c, t.action, f, dates);
    case Then(f, r) =>
      NoSemicolon(f, dates);
      PolicyParses(f, dates);
      PolicyParses(r, dates);
      ScanFinds(PolicyText(f), ';', PolicyText(r));
  }

  lemma {:induction false} TestParses(c: Expr, a: Action, f: Option<Expression>, dates: Dates)
    requires Parsable(If(c, Act(a), f), dates)
    ensures var p := If(c, Act(a), f);
            PolicyText(p) != [] && PolicyText(p)[0] == '{' &&
            ParseTesting(PolicyText(p), dates) == Ok(BuildPolicy(p, dates))
    decreases f
  {
    var t := PolicyText(Act(a));
    var rest := match f case None => [] case Some(g) => PolicyText(g);
    var s, i, j := TestText(Text(c), t) + rest, |Text(c)| + 1, |Text(c)| + |t| + 3;
    TextHides(c, dates, '}');
    TextHides(c, dates, ']');
    ActionHides(a, ']');
    TestScan(Text(c), t, rest);
    TestFound(s, i, j, dates);
    ParseText(c, dates);
    ActionParses(a, dates);
    if f.Some? {
      PolicyParses(f.value, dates);
    }
    PartsParse(s, i, j, dates, Build(c, dates), Constant(a),
               if f.None? then NO_ACTION else Ok(BuildPolicy(f.value, dates)));
  }

  lemma ActionParses(a: Action, dates: Dates)
    requires ActionOk(a)
    ensures ParsePolicy([a.data, a.ea], dates) == Ok(Constant(a))
  {
    ActionHides(a, ';');
  }

  lemma TestFound(s: seq<char>, i: nat, j: nat, dates: Dates)
    requires s != [] && s[0] == '{' && Find(s, 0, '}') == Found(i) && Find(s, 0, ']') == Found(j)
    requires i + 1 < |s| && s[i + 1] == '['
    ensures 0 < i && ParseTesting(s, dates) == ParseParts(s, i, j, dates)
  {
  }

  lemma PartsRefused(s: seq<char>, i: nat, j: nat, dates: Dates)
    requires 0 < i && i + 2 <= j < |s| && ParsePolicy(s[i + 2..j], dates).Err?
    ensures ParseParts(s, i, j, dates).Err?
  {
  }

  lemma PartsParse(s: seq<char>, i: nat, j: nat, dates: Dates, c: Crit, t: Policy, f: Result<Policy>)
    requires 0 < i && i + 2 <= j < |s| && Parse(s[1..i], dates) == Ok(c) && ParsePolicy(s[i + 2..j], dates) == Ok(t)
    requires f == if s[j + 1..] == [] then NO_ACTION else ParsePolicy(s[j + 1..], dates)
    ensures ParseParts(s, i, j, dates) == Both(Ok(c), Ok(t), f)
  {
  }

  // ----- nothing else is accepted

  /** What does not show in a text does not show in a part of it. */
  lemma PartHides(a: seq<char>, b: seq<char>, d: seq<char>, c: char)
    requires Hides(a, c) && Find(a + b + d, 0, c) == Nowhere
    ensures !Find(b, 0, c).Found?
  {
    assert a + b + d == a + (b + d);
    FindAppend(a, b + d, 0, c);
    if Find(b, 0, c).Found? {
      FindKeeps(b, d, 0, c);
    }
  }

  lemma ThenShows(p: Expression, dates: Dates)
    requires Parsable(p, dates) && p.Then?
    ensures Find(PolicyText(p), 0, ';').Found?
  {
    NoSemicolon(p.first, dates);
    ScanFinds(PolicyText(p.first), ';', PolicyText(p.rest));
  }

  lemma IfShows(p: Expression, dates: Dates)
    requires Parsable(p, dates) && p.If?
    ensures Find(PolicyText(p), 0, ']').Found?
  {
    var t := PolicyText(p.taken);
    TextHides(p.input, dates, '}');
    TextHides(p.input, dates, ']');
    ActionHides(p.taken.action, ']');
    TestScan(Text(p.input), t, match p.otherwise case None => [] case Some(g) => PolicyText(g));
  }

  /** Every string the parser accepts is the text of a parsable policy. */
  lemma {:induction false} PolicyAccepted(s: seq<char>, dates: Dates) returns (p: Expression)
    requires ParsePolicy(s, dates).Ok? && forall a :: PlainDates(dates, a)
    ensures Parsable(p, dates) && PolicyText(p) == s
    decreases |s|, 1
  {
    match Find(s, 0, ';')
    case Found(i) =>
      FoundIsFirst(s, 0, ';');
      SplitAt(s, i);
      var l := PolicyAccepted(s[..i], dates);
      var r := PolicyAccepted(s[i + 1..], dates);
      if l.Then? {
        ThenShows(l, dates);
      }
      p := Then(l, r);
    case Nowhere =>
      if s[0] == '{' {
        p := TestAccepted(s, dates);
      } else {
        p := Act(Action(s[0], s[1]));
        assert s == [s[0], s[1]];
      }
  }

  /** The parts of a test that is accepted. */
  lemma PartsOf(s: seq<char>, dates: Dates) returns (i: nat, j: nat)
    requires s != [] && s[0] == '{' && ParseTesting(s, dates).Ok?
    ensures Find(s, 0, '}') == Found(i) && Find(s, 0, ']') == Found(j)
    ensures 0 < i && i + 2 <= j < |s| && s[i] == '}' && s[i + 1] == '[' && s[j] == ']'
    ensures Parse(s[1..i], dates).Ok? && ParsePolicy(s[i + 2..j], dates).Ok?
    ensures j + 1 < |s| ==> ParsePolicy(s[j + 1..], dates).Ok?
  {
    i, j := Find(s, 0, '}').index, Find(s, 0, ']').index;
  }

  lemma {:induction false} TestAccepted(s: seq<char>, dates: Dates) returns (p: Expression)
    requires s != [] && s[0] == '{' && Find(s, 0, ';') == Nowhere
    requires ParseTesting(s, dates).Ok? && forall a :: PlainDates(dates, a)
    ensures Parsable(p, dates) && PolicyText(p) == s
    decreases |s|, 0
  {
    var i, j := PartsOf(s, dates);
    var c := Accepted(s[1..i], dates);
    var t := PolicyAccepted(s[i + 2..j], dates);
    var rest := s[j + 1..];
    TestSplit(s, i, j);
    FoundIsFirst(s, 0, ']');
    ActionAlone(c, t, s[..j], rest, dates);
    if rest == [] {
      p := If(c, t, None);
      assert PolicyText(p) == TestText(Text(c), PolicyText(t)) + [];
    } else {
      var f := PolicyAccepted(rest, dates);
      RestHides(c, t, rest, dates);
      if f.Then? {
        ThenShows(f, dates);
      }
      p := If(c, t, Some(f));
    }
  }

  lemma TestSplit(s: seq<char>, i: nat, j: nat)
    requires 0 < i && i + 2 <= j < |s| && s[0] == '{' && s[i] == '}' && s[i + 1] == '[' && s[j] == ']'
    ensures s == TestText(s[1..i], s[i + 2..j]) + s[j + 1..]
    ensures s[..j] == ['{'] + s[1..i] + ['}', '['] + s[i + 2..j]
  {
  }

  /** The action of an accepted condition is a plain action. */
  lemma ActionAlone(c: Expr, t: Expression, front: seq<char>, rest: seq<char>, dates: Dates)
    requires WellFormed(c, dates) && Parsable(t, dates)
    requires front == ['{'] + Text(c) + ['}', '['] + PolicyText(t) && Find(front, 0, ']') == Nowhere
    requires Find(TestText(Text(c), PolicyText(t)) + rest, 0, ';') == Nowhere
    ensures t.Act?
  {
    var open := ['{'] + Text(c) + ['}', '['];
    OpenHides(c, dates, ']');
    OpenHides(c, dates, ';');
    assert front == open + PolicyText(t) + [];
    PartHides(open, PolicyText(t), [], ']');
    assert TestText(Text(c), PolicyText(t)) + rest == open + PolicyText(t) + ([']'] + rest);
    PartHides(open, PolicyText(t), [']'] + rest, ';');
    if t.Then? {
      ThenShows(t, dates);
    } else if t.If? {
      IfShows(t, dates);
    }
  }

  lemma RestHides(c: Expr, t: Expression, rest: seq<char>, dates: Dates)
    requires WellFormed(c, dates) && Parsable(t, dates) && t.Act?
    requires Find(TestText(Text(c), PolicyText(t)) + rest, 0, ';') == Nowhere
    ensures !Find(rest, 0, ';').Found?
  {
    TextHides(c, dates, ';');
    ActionHides(t.action, ';');
    TestHides(Text(c), PolicyText(t));
    assert TestText(Text(c), PolicyText(t)) + rest == TestText(Text(c), PolicyText(t)) + rest + [];
    PartHides(TestText(Text(c), PolicyText(t)), rest, [], ';');
  }

  lemma OpenHides(c: Expr, dates: Dates, b: char)
    requires WellFormed(c, dates) && (b == ';' || b == ']')
    ensures Hides(['{'] + Text(c) + ['}', '['], b)
  {
    TextHides(c, dates, b);
    HidesOne('{', b);
    HidesOne('}', b);
    HidesOne('[', b);
    HidesBoth(['{'], Text(c), b);
    HidesBoth(['}'], ['['], b);
    assert ['}'] + ['['] == ['}', '['];
    HidesBoth(['{'] + Text(c), ['}', '['], b);
  }

  // ----- meaning

  /** Every condition of the policy is understood as it is written. */
  predicate SafeConditions(p: Expression) {
    match p
    case Act(_) => true
    case If(c, t, f) => Safe(c) && (f.Some? ==> SafeConditions(f.value))
    case Then(f, r) => SafeConditions(f) && SafeConditions(r)
  }

  /** How many policies of a chain are asked, n being known to be asked. */
  function Asked(acts: seq<Action>, n: nat): (r: nat)
    requires n <= |acts|
    ensures n <= r <= |acts|
    decreases |acts| - n
  {
    if n == |acts| || Suffices(acts, n) then n else Asked(acts, n + 1)
  }

  /** The last definitions among the policies asked. */
  function Outcome(acts: seq<Action>): Action {
    Action(LastData(acts, Asked(acts, 0)), LastEa(acts, Asked(acts, 0)))
  }

  /** What a policy means for an entry in place and an entry to be added. */
  function PolicyMeaning<E>(p: Expression, dates: Dates, x: E, y: E, atoms: Atoms<E>): Action
    requires Parsable(p, dates)
    decreases p, 1
  {
    match p
    case Act(a) => a
    case If(c, t, f) =>
      if Meaning(c, dates, x, y, atoms) then t.action
      else if f.None? then Action(UNDEFINED, UNDEFINED) else PolicyMeaning(f.value, dates, x, y, atoms)
    case Then(_, _) => Outcome(Meanings(p, dates, x, y, atoms))
  }

  /** What each policy of a chain means. */
  function Meanings<E>(p: Expression, dates: Dates, x: E, y: E, atoms: Atoms<E>): seq<Action>
    requires Parsable(p, dates)
    decreases p, if p.Then? then 0 else 2
  {
    match p
    case Then(f, r) => [PolicyMeaning(f, dates, x, y, atoms)] + Meanings(r, dates, x, y, atoms)
    case _ => [PolicyMeaning(p, dates, x, y, atoms)]
  }

  /** The policies of the chain that is built. */
  function Sequence(p: Expression, dates: Dates): seq<Policy>
    requires Parsable(p, dates)
  {
    match p
    case Then(f, r) => [BuildPolicy(f, dates)] + Sequence(r, dates)
    case _ => [BuildPolicy(p, dates)]
  }

  lemma {:induction false} BuildsSequence(p: Expression, dates: Dates)
    requires Parsable(p, dates)
    ensures if p.Then? then BuildPolicy(p, dates) == Chain(Sequence(p, dates))
            else !BuildPolicy(p, dates).Chain? && Sequence(p, dates) == [BuildPolicy(p, dates)]
  {
    if p.Then? {
      BuildsSequence(p.rest, dates);
    }
  }

  lemma {:induction false} AskedIs(acts: seq<Action>, n: nat, m: nat)
    requires n <= m <= |acts| && (m == |acts| || Suffices(acts, m)) && forall k :: n <= k < m ==> !Suffices(acts, k)
    ensures Asked(acts, n) == m
    decreases m - n
  {
    if n < m {
      AskedIs(acts, n + 1, m);
    }
  }

  /** What is built from a policy means what the policy means, whatever the entries and the
      atomic criteria. */
  lemma {:induction false} PolicyMeans<E>(p: Expression, dates: Dates, x: E, y: E, atoms: Atoms<E>)
    requires Parsable(p, dates) && SafeConditions(p)
    ensures GetAction(BuildPolicy(p, dates), x, y, atoms) == PolicyMeaning(p, dates, x, y, atoms)
    decreases p, 1
  {
    match p
    case Act(_) =>
    case If(c, t, f) =>
      BuildMeans(c, dates, x, y, atoms);
      if f.Some? {
        PolicyMeans(f.value, dates, x, y, atoms);
      }
    case Then(_, _) =>
      SequenceMeans(p, dates, x, y, atoms);
      BuildsSequence(p, dates);
      var n := ChainMeans(Sequence(p, dates), x, y, atoms);
      AskedIs(Meanings(p, dates, x, y, atoms), 0, n);
  }

  lemma {:induction false} SequenceMeans<E>(p: Expression, dates: Dates, x: E, y: E, atoms: Atoms<E>)
    requires Parsable(p, dates) && SafeConditions(p)
    ensures Answers(Sequence(p, dates), x, y, atoms) == Meanings(p, dates, x, y, atoms)
    decreases p, if p.Then? then 0 else 2
  {
    if p.Then? {
      PolicyMeans(p.first, dates, x, y, atoms);
      SequenceMeans(p.rest, dates, x, y, atoms);
      AnswersCons(BuildPolicy(p.first, dates), Sequence(p.rest, dates), x, y, atoms);
    } else {
      PolicyMeans(p, dates, x, y, atoms);
      AnswersCons(BuildPolicy(p, dates), [], x, y, atoms);
    }
  }

  lemma AnswersCons<E>(p: Policy, s: seq<Policy>, x: E, y: E, atoms: Atoms<E>)
    ensures Answers([p] + s, x, y, atoms) == [GetAction(p, x, y, atoms)] + Answers(s, x, y, atoms)
  {
    assert ([p] + s)[1..] == s;
  }

  // ----- what is not accepted

  /** The text of a condition, up to its action included. */
  function Opened(d: Expr, a: Action): seq<char> {
    ['{'] + Text(d) + ['}', '['] + [a.data, a.ea]
  }

  /** A condition whose action is itself a condition is refused, whatever follows: its action
      is taken to end at the bracket that ends the inner one. The manual gives such policies
      as examples. */
  lemma NestedRefused(c: Expr, d: Expr, a: Action, after: seq<char>, dates: Dates)
    requires WellFormed(c, dates) && WellFormed(d, dates) && ActionOk(a)
    requires Hides(TestText(Text(c), Opened(d, a)) + after, ';')
    ensures ParsePolicy(TestText(Text(c), Opened(d, a)) + after, dates).Err?
  {
    UnclosedHides(d, a, dates, ']');
    UnclosedRefused(d, a, dates);
    RefusedInside(c, Opened(d, a), after, dates);
  }

  /** A condition is refused when its action is. */
  lemma RefusedInside(c: Expr, t: seq<char>, after: seq<char>, dates: Dates)
    requires WellFormed(c, dates) && Hides(t, ']') && ParsePolicy(t, dates).Err?
    requires Hides(TestText(Text(c), t) + after, ';')
    ensures ParsePolicy(TestText(Text(c), t) + after, dates).Err?
  {
    var s, i, j := TestText(Text(c), t) + after, |Text(c)| + 1, |Text(c)| + |t| + 3;
    TextHides(c, dates, '}');
    TextHides(c, dates, ']');
    TestScan(Text(c), t, after);
    TestRefused(s, i, j, dates);
  }

  lemma TestRefused(s: seq<char>, i: nat, j: nat, dates: Dates)
    requires s != [] && s[0] == '{' && Hides(s, ';') && Find(s, 0, '}') == Found(i) && Find(s, 0, ']') == Found(j)
    requires i + 2 <= j < |s| && s[i + 1] == '[' && ParsePolicy(s[i + 2..j], dates).Err?
    ensures ParsePolicy(s, dates).Err?
  {
    TestFound(s, i, j, dates);
    PartsRefused(s, i, j, dates);
  }

  lemma UnclosedHides(d: Expr, a: Action, dates: Dates, c: char)
    requires WellFormed(d, dates) && ActionOk(a) && (c == ';' || c == ']')
    ensures Hides(Opened(d, a), c)
  {
    OpenHides(d, dates, c);
    ActionHides(a, c);
    HidesBoth(['{'] + Text(d) + ['}', '['], [a.data, a.ea], c);
  }

  lemma UnclosedRefused(d: Expr, a: Action, dates: Dates)
    requires WellFormed(d, dates) && ActionOk(a)
    ensures ParsePolicy(Opened(d, a), dates).Err?
  {
    UnclosedHides(d, a, dates, ']');
    UnclosedHides(d, a, dates, ';');
    assert Opened(d, a)[0] == '{';
  }

  lemma {:induction false} PlainHides(s: seq<char>, c: char)
    requires NoParen(s) && c !in s
    ensures Hides(s, c)
  {
    if s != [] {
      PlainHides(s[1..], c);
    }
  }

  // ----- the characters

  ghost predicate IsDataAction(c: char) {
    c == 'P' || c == 'O' || c == 'S' || c == 'T' || c == 'R' || c == '*' || c == 'A'
  }

  ghost predicate IsEaAction(c: char) {
    c == 'p' || c == 'o' || c == 's' || c == 't' || c == 'm' || c == 'n' || c == 'r' || c == '*' || c == 'a'
  }

  lemma InActions(a: char, b: char)
    ensures (a in DATA_LETTERS <==> IsDataAction(a)) && (b in EA_LETTERS <==> IsEaAction(b))
  {
    assert DATA_LETTERS[0] == 'P' && DATA_LETTERS[1] == 'O' && DATA_LETTERS[2] == 'S' && DATA_LETTERS[3] == 'T';
    assert DATA_LETTERS[4] == 'R' && DATA_LETTERS[5] == '*' && DATA_LETTERS[6] == 'A' && |DATA_LETTERS| == 7;
    assert EA_LETTERS[0] == 'p' && EA_LETTERS[1] == 'o' && EA_LETTERS[2] == 's' && EA_LETTERS[3] == 't';
    assert EA_LETTERS[4] == 'm' && EA_LETTERS[5] == 'n' && EA_LETTERS[6] == 'r' && EA_LETTERS[7] == '*';
    assert EA_LETTERS[8] == 'a' && |EA_LETTERS| == 9;
  }

  lemma OneRefused(a: char, dates: Dates)
    ensures ParsePolicy([a], dates).Err?
  {
    OneFound(a, ';');
    OneFound(a, '}');
    OneFound(a, ']');
    assert [a][..0] == [] && [a][1..] == [];
  }

  lemma TwoScanned(a: char, b: char)
    ensures var r := Find([a, b], 0, ';');
            if a == ';' then r == Found(0) else if a == ')' || (a != '(' && b == ')') then r == Unbalanced
            else if a != '(' && b == ';' then r == Found(1) else r == Nowhere
    ensures a == '{' && b == '}' ==> Find([a, b], 0, '}') == Found(1)
    ensures a == '{' && b != '}' ==> !Find([a, b], 0, '}').Found?
  {
    var s := [a, b];
    assert s[1..] == [b] && [b][1..] == [];
    OneFound(b, ';');
    assert Find([b], 1, ';') == Nowhere && Find([b], 1, '}') == Nowhere;
    assert Find(s, 0, ';') == if a == ';' then Found(0) else if a == ')' then Unbalanced
                              else Shift(1, Find([b], if a == '(' then 1 else 0, ';'));
  }

  /** Two characters are an action exactly when they are these. */
  lemma TwoLetters(a: char, b: char, dates: Dates)
    ensures if IsDataAction(a) && IsEaAction(b) then ParsePolicy([a, b], dates) == Ok(Constant(Action(a, b)))
            else ParsePolicy([a, b], dates).Err?
  {
    var s := [a, b];
    if IsDataAction(a) && IsEaAction(b) {
      ActionParses(Action(a, b), dates);
    } else {
      InActions(a, b);
      TwoScanned(a, b);
      OneRefused(a, dates);
      OneRefused(b, dates);
      assert s[..0] == [] && s[..1] == [a] && s[1..] == [b] && s[2..] == [];
    }
  }

  /** A test with another action, and without. */
  lemma TestWritten(dates: Dates)
    ensures ParsePolicy("{D}[Pp]Oo", dates) ==
              Ok(Testing(Atom(Letter('D')), Constant(Action('P', 'p')), Constant(Action('O', 'o'))))
  {
    var d, p, o := Plain('D'), Act(Action('P', 'p')), Act(Action('O', 'o'));
    var two := If(d, p, Some(o));
    assert Text(d) == "D" && PolicyText(p) == "Pp" && PolicyText(o) == "Oo";
    assert Parsable(two, dates) && PolicyText(two) == "{D}[Pp]Oo";
    PolicyParses(two, dates);
  }

  lemma ShortTestWritten(dates: Dates)
    ensures ParsePolicy("{D}[Pp]", dates) ==
              Ok(Testing(Atom(Letter('D')), Constant(Action('P', 'p')), Constant(Action('*', '*'))))
  {
    var d, p := Plain('D'), Act(Action('P', 'p'));
    var one := If(d, p, None);
    assert Text(d) == "D" && PolicyText(p) == "Pp";
    assert Parsable(one, dates) && PolicyText(one) == "{D}[Pp]";
    PolicyParses(one, dates);
  }

  lemma ActionWritten(a: Action, dates: Dates)
    requires ActionOk(a)
    ensures Parsable(Act(a), dates) && PolicyText(Act(a)) == [a.data, a.ea]
    ensures BuildPolicy(Act(a), dates) == Constant(a)
  {
  }

  /** An action before a policy; a policy that is a chain gives its own policies. */
  lemma ActionFirst(a: Action, r: Expression, dates: Dates)
    requires ActionOk(a) && Parsable(r, dates)
    ensures Parsable(Then(Act(a), r), dates) && PolicyText(Then(Act(a), r)) == [a.data, a.ea] + [';'] + PolicyText(r)
    ensures var p := BuildPolicy(r, dates);
            BuildPolicy(Then(Act(a), r), dates) == Chain([Constant(a)] + if p.Chain? then p.sequence else [p])
  {
    ActionWritten(a, dates);
  }

  /** Three actions make one chain. */
  lemma ChainWritten(a: Action, b: Action, c: Action, dates: Dates)
    requires ActionOk(a) && ActionOk(b) && ActionOk(c)
    ensures ParsePolicy([a.data, a.ea, ';', b.data, b.ea, ';', c.data, c.ea], dates) ==
              Ok(Chain([Constant(a), Constant(b), Constant(c)]))
  {
    var two := Then(Act(b), Act(c));
    ActionWritten(c, dates);
    ActionFirst(b, Act(c), dates);
    ActionFirst(a, two, dates);
    PolicyParses(Then(Act(a), two), dates);
    Eight(a, b, c);
    assert BuildPolicy(two, dates).sequence == [Constant(b)] + [Constant(c)];
    assert [Constant(a)] + ([Constant(b)] + [Constant(c)]) == [Constant(a), Constant(b), Constant(c)];
  }

  lemma Eight(a: Action, b: Action, c: Action)
    ensures [a.data, a.ea] + [';'] + ([b.data, b.ea] + [';'] + [c.data, c.ea]) ==
            [a.data, a.ea, ';', b.data, b.ea, ';', c.data, c.ea]
  {
  }

  /** One of the examples of the manual, without its blanks: if the types differ, then if the
      entry to be added is a directory it is taken, otherwise it is not. */
  lemma ManualExampleRefused(dates: Dates)
    ensures ParsePolicy("{!T}[{~D}[Oo]Pp]", dates).Err?
  {
    var c, d := Bang(Plain('T')), Tilde(Plain('D'));
    var s := TestText(Text(c), Opened(d, Action('O', 'o'))) + "Pp]";
    assert WellFormed(c, dates) && WellFormed(d, dates);
    assert Text(c) == "!T" && Text(d) == "~D";
    assert s == "{!T}[{~D}[Oo]Pp]";
    PlainHides(s, ';');
    NestedRefused(c, d, Action('O', 'o'), "Pp]", dates);
  }
}
