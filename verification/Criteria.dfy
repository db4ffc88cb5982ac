/** The criteria of overwriting policies: the objects, their evaluation, and the parser that
    builds them from a string. */
module Criteria {

  datatype AtomKind = Letter(c: char) | Since(c: char, date: nat)

  /** The criterium objects. In the source the class of `or` derives from that of `and`. */
  datatype Crit =
    | Atom(kind: AtomKind)
    | Not(c: Crit)
    | Invert(c: Crit)
    | And(ops: seq<Crit>)
    | Or(ops: seq<Crit>)

  /** The value of each atomic criterium for an entry in place and an entry to be added. */
  type Atoms<!E> = (AtomKind, E, E) -> bool

  predicate Eval<E>(c: Crit, x: E, y: E, atoms: Atoms<E>) {
    match c
    case Atom(k) => atoms(k, x, y)
    case Not(d) => !Eval(d, x, y, atoms)
    case Invert(d) => Eval(d, y, x, atoms)
    case And(ops) => forall i :: 0 <= i < |ops| ==> Eval(ops[i], x, y, atoms)
    case Or(ops) => exists i :: 0 <= i < |ops| && Eval(ops[i], x, y, atoms)
  }

  // ----- blanks

  predicate IsSpace(c: char) { c == ' ' || c == '\r' || c == '\n' || c == '\t' }

  function WithoutSpaces(s: seq<char>): seq<char> {
    if s == [] then [] else (if IsSpace(s[0]) then [] else [s[0]]) + WithoutSpaces(s[1..])
  }

  /** crit_action_canonize_string. */
  method Canonize(s: seq<char>) returns (r: seq<char>)
    ensures r == WithoutSpaces(s)
    ensures forall i :: 0 <= i < |r| ==> r[i] != ' ' && r[i] != '\t' && r[i] != '\n' && r[i] != '\r'
  {
    NoBlankLeft(s);
    r := [];
    var it := 0;
    assert r + WithoutSpaces(s[0..]) == WithoutSpaces(s);
    while it < |s|
      invariant 0 <= it <= |s| && r + WithoutSpaces(s[it..]) == WithoutSpaces(s)
    {
      assert s[it..][1..] == s[it + 1..];
      Regroup(r, if IsSpace(s[it]) then [] else [s[it]], WithoutSpaces(s[it + 1..]));
      if !IsSpace(s[it]) {
        r := r + [s[it]];
      }
      it := it + 1;
    }
  }

  lemma Regroup<T>(a: seq<T>, b: seq<T>, c: seq<T>)
    ensures a + (b + c) == (a + b) + c && (b == [] ==> a + b == a)
  {
  }

  ghost predicate NoBlank(s: seq<char>) {
    forall i :: 0 <= i < |s| ==> s[i] != ' ' && s[i] != '\t' && s[i] != '\n' && s[i] != '\r'
  }

  lemma {:induction false} NoBlankLeft(s: seq<char>)
    ensures NoBlank(WithoutSpaces(s))
  {
    if s != [] {
      NoBlankLeft(s[1..]);
    }
  }

  /** A string without blanks stays as it is. */
  lemma {:induction false} NothingToRemove(s: seq<char>)
    requires NoBlank(s)
    ensures WithoutSpaces(s) == s
  {
    if s != [] {
      NothingToRemove(s[1..]);
      assert s == [s[0]] + s[1..];
    }
  }

  /** Where blanks are put in a string does not matter. */
  lemma {:induction false} SpacesDoNotMatter(a: seq<char>, b: char, c: seq<char>)
    requires b == ' ' || b == '\t' || b == '\n' || b == '\r'
    ensures WithoutSpaces(a + [b] + c) == WithoutSpaces(a + c)
  {
    if a == [] {
      assert a + [b] + c == [b] + c && a + c == c && ([b] + c)[1..] == c;
    } else {
      assert (a + [b] + c)[1..] == a[1..] + [b] + c && (a + c)[1..] == a[1..] + c;
      SpacesDoNotMatter(a[1..], b, c);
    }
  }

  // ----- searching out of parentheses

  datatype Search = Found(index: nat) | Nowhere | Unbalanced

  /** The first c out of parentheses, with d of them already open. */
  function Find(s: seq<char>, d: nat, c: char): (r: Search)
    ensures r.Found? ==> r.index < |s| && s[r.index] == c
  {
    if s == [] then Nowhere
    else if s[0] == c && d == 0 then Found(0)
    else if s[0] == ')' && d == 0 then Unbalanced
    else
      match Find(s[1..], if s[0] == '(' then d + 1 else if s[0] == ')' then d - 1 else d, c)
      case Found(i) => Found(i + 1)
      case r => r
  }

  /** How many parentheses are open after s, unless one was closed too many. */
  function Depth(s: seq<char>, d: nat): (r: int)
    ensures r >= -1
  {
    if s == [] then d
    else if s[0] == ')' && d == 0 then -1
    else Depth(s[1..], if s[0] == '(' then d + 1 else if s[0] == ')' then d - 1 else d)
  }

  /** How many more parentheses are opened than closed in the first i bytes. */
  ghost function Level(s: seq<char>, i: nat): int
    requires i <= |s|
  {
    if i == 0 then 0
    else Level(s, i - 1) + if s[i - 1] == '(' then 1 else if s[i - 1] == ')' then -1 else 0
  }

  /** Up to i, with d parentheses already open, none is closed too many and c does not show
      out of them. */
  ghost predicate Unseen(s: seq<char>, d: nat, c: char, i: nat)
    requires i <= |s|
  {
    && (forall j {:trigger Level(s, j)} :: 0 <= j <= i ==> d + Level(s, j) >= 0)
    && (forall j {:trigger s[j]} :: 0 <= j < i && s[j] == c ==> d + Level(s, j) != 0)
  }

  /** r says where c is first seen out of parentheses, or that it is not, or that before it a
      parenthesis is closed too many. */
  ghost predicate Searched(s: seq<char>, d: nat, c: char, r: Search) {
    match r
    case Found(i) => i < |s| && s[i] == c && d + Level(s, i) == 0 && Unseen(s, d, c, i)
    case Nowhere => Unseen(s, d, c, |s|)
    case Unbalanced =>
      exists j: nat {:trigger Unseen(s, d, c, j)} ::
        j < |s| && s[j] == ')' && c != ')' && d + Level(s, j) == 0 && Unseen(s, d, c, j)
  }

  lemma {:induction false} LevelCons(s: seq<char>, i: nat)
    requires 0 < i <= |s|
    ensures Level(s, i) == Level(s, 1) + Level(s[1..], i - 1)
    decreases i
  {
    if i > 1 {
      LevelCons(s, i - 1);
      assert s[i - 1] == s[1..][i - 2];
    }
  }

  lemma UnseenCons(s: seq<char>, d: nat, d1: nat, c: char, i: nat)
    requires 0 < i <= |s| && d1 == d + Level(s, 1) && Unseen(s[1..], d1, c, i - 1) && (s[0] == c ==> d != 0)
    ensures Unseen(s, d, c, i)
  {
    forall j {:trigger Level(s, j)} | 0 <= j <= i ensures d + Level(s, j) >= 0 {
      if j > 0 {
        LevelCons(s, j);
      }
    }
    forall j {:trigger s[j]} | 0 <= j < i && s[j] == c ensures d + Level(s, j) != 0 {
      if j > 0 {
        LevelCons(s, j);
        assert s[1..][j - 1] == c;
      }
    }
  }

  lemma {:induction false} FindMeans(s: seq<char>, d: nat, c: char)
    ensures Searched(s, d, c, Find(s, d, c))
    decreases |s|
  {
    if s == [] {
      assert Unseen(s, d, c, 0);
    } else if s[0] == c && d == 0 {
      assert Unseen(s, d, c, 0);
    } else if s[0] == ')' && d == 0 {
      assert Unseen(s, d, c, 0);
    } else {
      var d1: nat := if s[0] == '(' then d + 1 else if s[0] == ')' then d - 1 else d;
      assert Level(s, 0) == 0 && Level(s, 1) == d1 - d;
      FindMeans(s[1..], d1, c);
      match Find(s[1..], d1, c)
      case Found(i) =>
        UnseenCons(s, d, d1, c, i + 1);
        LevelCons(s, i + 1);
      case Nowhere =>
        UnseenCons(s, d, d1, c, |s|);
      case Unbalanced =>
        var j: nat :| j < |s| - 1 && s[1..][j] == ')' && c != ')' && d1 + Level(s[1..], j) == 0
                      && Unseen(s[1..], d1, c, j);
        UnseenCons(s, d, d1, c, j + 1);
        LevelCons(s, j + 1);
    }
  }

  /** line_tools_find_first_char_out_of_parenth. */
  method FindFirst(s: seq<char>, c: char) returns (r: Search)
    ensures r == Find(s, 0, c) && Searched(s, 0, c, r)
  {
    FindMeans(s, 0, c);
    var it, parenth := 0, 0;
    assert s[0..] == s;
    while it < |s| && (s[it] != c || parenth > 0)
      invariant 0 <= it <= |s| && parenth >= 0
      invariant Find(s, 0, c) == Shift(it, Find(s[it..], parenth, c))
    {
      assert s[it..][1..] == s[it + 1..];
      if s[it] == '(' {
        parenth := parenth + 1;
      } else if s[it] == ')' {
        if parenth > 0 {
          parenth := parenth - 1;
        } else {
          return Unbalanced;
        }
      }
      it := it + 1;
    }
    r := if it < |s| then Found(it) else Nowhere;
  }

  function Shift(n: nat, r: Search): Search {
    match r
    case Found(i) => Found(n + i)
    case _ => r
  }

  // ----- the parser

  datatype ParseError =
    | EmptyString | UnbalancedParenthesis | UnknownWithArgument | BadDate | UnknownCharacter
    | UnknownExpression | MissingBrace | MissingBracket

  datatype Result<+T> = Ok(value: T) | Err(error: ParseError)
  {
    predicate IsFailure() { Err? }

    function PropagateFailure<U>(): Result<U>
      requires Err?
    {
      Err(error)
    }

    function Extract(): T
      requires Ok?
    {
      value
    }
  }

  const LETTERS := "IDFHARBSYXermbsT"

  /** Conversion of a date argument, by code that is not part of this model. */
  datatype Date = Date(value: nat) | NotADate
  type Dates = seq<char> -> Date

  /** Adding the second operand: an operand of the same class gives its own operands. */
  function AddOr(l: Crit, r: Crit): Crit {
    if r.Or? then Or([l] + r.ops) else Or([l, r])
  }

  /** The same; but an `or` is of the class of `and` too. */
  function AddAnd(l: Crit, r: Crit): Crit {
    if r.And? || r.Or? then And([l] + r.ops) else And([l, r])
  }

  function ParseAtom(s: seq<char>, dates: Dates): Result<Crit>
    requires s != []
  {
    if |s| >= 4 && s[1] == '(' && s[|s| - 1] == ')' then
      if s[0] == 'R' || s[0] == 'r' then
        match dates(s[2..|s| - 1])
        case Date(d) => Ok(Atom(Since(s[0], d)))
        case NotADate => Err(BadDate)
      else Err(UnknownWithArgument)
    else if |s| == 1 then
      if s[0] in LETTERS then Ok(Atom(Letter(s[0]))) else Err(UnknownCharacter)
    else Err(UnknownExpression)
  }

  /** criterium_create_from_string; each part parsed is strictly shorter. */
  function Parse(s: seq<char>, dates: Dates): Result<Crit>
    decreases |s|
  {
    if s == [] then Err(EmptyString)
    else
      match Find(s, 0, '|')
      case Unbalanced => Err(UnbalancedParenthesis)
      case Found(i) =>
        var l :- Parse(s[..i], dates);
        var r :- Parse(s[i + 1..], dates);
        Ok(AddOr(l, r))
      case Nowhere =>
        match Find(s, 0, '&')
        case Unbalanced => Err(UnbalancedParenthesis)
        case Found(i) =>
          var l :- Parse(s[..i], dates);
          var r :- Parse(s[i + 1..], dates);
          Ok(AddAnd(l, r))
        case Nowhere => ParseUnary(s, dates)
  }

  function ParseUnary(s: seq<char>, dates: Dates): Result<Crit>
    requires s != []
    decreases |s|, 0
  {
    if s[0] == '(' && s[|s| - 1] == ')' then Parse(s[1..|s| - 1], dates)
    else if s[0] == '!' then
      var c :- Parse(s[1..], dates);
      Ok(Not(c))
    else if s[0] == '~' then
      var c :- Parse(s[1..], dates);
      Ok(Invert(c))
    else ParseAtom(s, dates)
  }

  lemma Pair<T>(a: T, b: T)
    ensures [a] + [b] == [a, b]
  {
  }

  /** The same, building the nodes operand by operand. */
  method CreateFromString(s: seq<char>, dates: Dates) returns (r: Result<Crit>)
    ensures r == Parse(s, dates)
    decreases |s|, 1
  {
    if s == [] {
      return Err(EmptyString);
    }
    var it := FindFirst(s, '|');
    if it.Unbalanced? {
      return Err(UnbalancedParenthesis);
    }
    if it.Found? {
      var operand := [];
      var tmp :- CreateFromString(s[..it.index], dates);
      operand := operand + [tmp];
      assert operand == [tmp];
      tmp :- CreateFromString(s[it.index + 1..], dates);
      Pair(operand[0], tmp);
      operand := operand + if tmp.Or? then tmp.ops else [tmp];
      return Ok(Or(operand));
    }
    it := FindFirst(s, '&');
    if it.Unbalanced? {
      return Err(UnbalancedParenthesis);
    }
    if it.Found? {
      var operand := [];
      var tmp :- CreateFromString(s[..it.index], dates);
      operand := operand + [tmp];
      assert operand == [tmp];
      tmp :- CreateFromString(s[it.index + 1..], dates);
      Pair(operand[0], tmp);
      operand := operand + if tmp.And? || tmp.Or? then tmp.ops else [tmp];
      return Ok(And(operand));
    }
    if s[0] == '(' && s[|s| - 1] == ')' {
      r := CreateFromString(s[1..|s| - 1], dates);
    } else if s[0] == '!' {
      var tmp :- CreateFromString(s[1..], dates);
      r := Ok(Not(tmp));
    } else if s[0] == '~' {
      var tmp :- CreateFromString(s[1..], dates);
      r := Ok(Invert(tmp));
    } else {
      r := ParseAtom(s, dates);
    }
  }
}
