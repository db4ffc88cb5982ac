/** Filters built from lists of rules: the masks, and the two ways of combining them. */
module Filters {

  /** Masks; a leaf is any predicate on names or paths. */
  datatype Mask<!X> =
    | Leaf(covers: X -> bool)
    | Never(m: Mask<X>)
    | Et(lst: seq<Mask<X>>)
    | Ou(lst: seq<Mask<X>>)
    | Bool(b: bool)

  /** A mask that combines no mask at all cannot be asked. */
  predicate Usable<X>(m: Mask<X>) {
    match m
    case Never(n) => Usable(n)
    case Et(lst) => lst != [] && forall i :: 0 <= i < |lst| ==> Usable(lst[i])
    case Ou(lst) => lst != [] && forall i :: 0 <= i < |lst| ==> Usable(lst[i])
    case _ => true
  }

  predicate Covers<X>(m: Mask<X>, x: X) {
    match m
    case Leaf(p) => p(x)
    case Never(n) => !Covers(n, x)
    case Et(lst) => forall i :: 0 <= i < |lst| ==> Covers(lst[i], x)
    case Ou(lst) => exists i :: 0 <= i < |lst| && Covers(lst[i], x)
    case Bool(b) => b
  }

  /** A rule of the command line. */
  datatype Rule<!X> = Rule(included: bool, covers: X -> bool)

  /** A mask object to which masks are added. */
  class ListMask<X> {
    const isOu: bool
    var lst: seq<Mask<X>>

    constructor (isOu: bool)
      ensures this.isOu == isOu && lst == []
    {
      this.isOu, lst := isOu, [];
    }

    /** add_mask keeps a copy. */
    method AddMask(m: Mask<X>)
      modifies this
      ensures lst == old(lst) + [m]
    {
      lst := lst + [m];
    }

    function Value(): Mask<X>
      reads this
    {
      if isOu then Ou(lst) else Et(lst)
    }
  }

  /** The mask being built: none, one that will not change, or one that still grows. */
  datatype Pointer<!X> = Null | Fixed(m: Mask<X>) | Growing(node: ListMask<X>)

  // ----- ordered rules

  /** The answer of the rules, by the rule that decides: the last one that matches; when
      none does, the contrary of what the first one is for. */
  predicate LastMatch<X>(rules: seq<Rule<X>>, x: X) {
    if rules == [] then true
    else
      var n := |rules| - 1;
      if rules[n].covers(x) then rules[n].included
      else if n == 0 then !rules[0].included
      else LastMatch(rules[..n], x)
  }

  /** The same, with the deciding rule in view. */
  lemma {:induction false} LastMatchMeans<X>(rules: seq<Rule<X>>, x: X)
    ensures LastMatch(rules, x) <==>
              || (exists k :: 0 <= k < |rules| && rules[k].covers(x) && rules[k].included &&
                    forall j :: k < j < |rules| ==> !rules[j].covers(x))
              || ((forall k :: 0 <= k < |rules| ==> !rules[k].covers(x)) && (rules == [] || !rules[0].included))
    decreases |rules|
  {
    if rules != [] {
      var n := |rules| - 1;
      LastMatchMeans(rules[..n], x);
      if LastMatch(rules, x) && !rules[n].covers(x) && n > 0 {
        if k :| 0 <= k < n && rules[..n][k].covers(x) && rules[..n][k].included &&
                forall j :: k < j < n ==> !rules[..n][j].covers(x) {
          assert rules[k].covers(x) && forall j :: k < j < |rules| ==> !rules[j].covers(x);
        }
      }
    }
  }

  ghost predicate Means<X(!new)>(m: Mask<X>, rules: seq<Rule<X>>) {
    Usable(m) && forall x: X :: Covers(m, x) <==> LastMatch(rules, x)
  }

  lemma FirstRule<X(!new)>(r: Rule<X>)
    ensures Means(if r.included then Leaf(r.covers) else Never(Leaf(r.covers)), [r])
  {
    var leaf := Leaf(r.covers);
    assert Usable(leaf);
    forall x: X ensures Covers(if r.included then leaf else Never(leaf), x) <==> LastMatch([r], x) {
      assert Covers(leaf, x) == r.covers(x);
    }
  }

  /** A mask in or after others in an `or`, or its contrary in an `and`. */
  lemma NextRule<X(!new)>(m: Mask<X>, rules: seq<Rule<X>>, r: Rule<X>)
    requires rules != [] && Means(m, rules)
    ensures r.included ==> Means(Ou([m, Leaf(r.covers)]), rules + [r])
    ensures !r.included ==> Means(Et([m, Never(Leaf(r.covers))]), rules + [r])
  {
    assert (rules + [r])[..|rules|] == rules;
    var two := if r.included then [m, Leaf(r.covers)] else [m, Never(Leaf(r.covers))];
    assert Usable(two[0]) && Usable(two[1]);
    forall x: X ensures r.included ==> (Covers(Ou(two), x) <==> LastMatch(rules + [r], x))
      ensures !r.included ==> (Covers(Et(two), x) <==> LastMatch(rules + [r], x))
    {
      assert Covers(two[0], x) == LastMatch(rules, x);
      assert Covers(two[1], x) == if r.included then r.covers(x) else !r.covers(x);
    }
  }

  /** The same when the mask already is of that class. */
  lemma NextRuleGrows<X(!new)>(lst: seq<Mask<X>>, rules: seq<Rule<X>>, r: Rule<X>)
    requires rules != [] && Means(if r.included then Ou(lst) else Et(lst), rules)
    ensures r.included ==> Means(Ou(lst + [Leaf(r.covers)]), rules + [r])
    ensures !r.included ==> Means(Et(lst + [Never(Leaf(r.covers))]), rules + [r])
  {
    assert (rules + [r])[..|rules|] == rules;
    var n := |lst|;
    var more := lst + [if r.included then Leaf(r.covers) else Never(Leaf(r.covers))];
    assert more[n] == if r.included then Leaf(r.covers) else Never(Leaf(r.covers));
    forall x: X ensures r.included ==> (Covers(Ou(more), x) <==> LastMatch(rules + [r], x))
      ensures !r.included ==> (Covers(Et(more), x) <==> LastMatch(rules + [r], x))
    {
      assert Covers(if r.included then Ou(lst) else Et(lst), x) == LastMatch(rules, x);
      assert Covers(more[n], x) == if r.included then r.covers(x) else !r.covers(x);
      assert forall i :: 0 <= i < n ==> more[i] == lst[i];
      if r.included && Covers(Ou(lst), x) {
        var i :| 0 <= i < n && Covers(lst[i], x);
        assert Covers(more[i], x);
      }
    }
  }

  /** What is built so far; one of the two growing masks may be the mask itself. */
  ghost predicate Built<X(!new)>(ret: Pointer<X>, ou: ListMask?<X>, et: ListMask?<X>, rules: seq<Rule<X>>)
    reads if ret.Growing? then {ret.node} else {}
  {
    && (ou != null ==> ret == Growing(ou) && ou.isOu)
    && (et != null ==> ret == Growing(et) && !et.isOu)
    && match ret
       case Null => rules == []
       case Fixed(m) => rules != [] && Means(m, rules)
       case Growing(n) => rules != [] && Means(n.Value(), rules)
  }

  function ValueOf<X>(ret: Pointer<X>): Mask<X>
    reads if ret.Growing? then {ret.node} else {}
  {
    match ret
    case Null => Bool(true)
    case Fixed(m) => m
    case Growing(n) => n.Value()
  }

  /** One more rule that includes. */
  method Include<X(!new)>(ret: Pointer<X>, ou: ListMask?<X>, et: ListMask?<X>, r: Rule<X>, ghost rules: seq<Rule<X>>)
    returns (ret2: Pointer<X>, ou2: ListMask?<X>, et2: ListMask?<X>)
    requires r.included && Built(ret, ou, et, rules)
    modifies if ret.Growing? then {ret.node} else {}
    ensures Built(ret2, ou2, et2, rules + [r])
    ensures ret2.Growing? ==> ret2 == ret || fresh(ret2.node)
  {
    ret2, ou2, et2 := ret, ou, et;
    if ret.Null? {
      FirstRule(r);
      assert rules + [r] == [r];
      ret2 := Fixed(Leaf(r.covers));
    } else if ou != null {
      NextRuleGrows(ou.lst, rules, r);
      ou.AddMask(Leaf(r.covers));
    } else {
      NextRule(ValueOf(ret), rules, r);
      ou2 := new ListMask(true);
      ou2.AddMask(ValueOf(ret));
      ou2.AddMask(Leaf(r.covers));
      assert ou2.lst == [ValueOf(ret), Leaf(r.covers)];
      ret2, et2 := Growing(ou2), null;
    }
  }

  /** One more rule that excludes. */
  method Exclude<X(!new)>(ret: Pointer<X>, ou: ListMask?<X>, et: ListMask?<X>, r: Rule<X>, ghost rules: seq<Rule<X>>)
    returns (ret2: Pointer<X>, ou2: ListMask?<X>, et2: ListMask?<X>)
    requires !r.included && Built(ret, ou, et, rules)
    modifies if ret.Growing? then {ret.node} else {}
    ensures Built(ret2, ou2, et2, rules + [r])
    ensures ret2.Growing? ==> ret2 == ret || fresh(ret2.node)
  {
    ret2, ou2, et2 := ret, ou, et;
    if ret.Null? {
      FirstRule(r);
      assert rules + [r] == [r];
      ret2 := Fixed(Never(Leaf(r.covers)));
    } else if et != null {
      NextRuleGrows(et.lst, rules, r);
      et.AddMask(Never(Leaf(r.covers)));
    } else {
      NextRule(ValueOf(ret), rules, r);
      et2 := new ListMask(false);
      et2.AddMask(ValueOf(ret));
      et2.AddMask(Never(Leaf(r.covers)));
      assert et2.lst == [ValueOf(ret), Never(Leaf(r.covers))];
      ret2, ou2 := Growing(et2), null;
    }
  }

  /** make_ordered_mask: the last matching rule decides. */
  method MakeOrderedMask<X(!new)>(rules: seq<Rule<X>>) returns (m: Mask<X>)
    ensures Usable(m) && forall x: X :: Covers(m, x) <==> LastMatch(rules, x)
  {
    var ret: Pointer<X>, ou: ListMask?<X>, et: ListMask?<X> := Null, null, null;
    var k := 0;
    while k < |rules|
      invariant k <= |rules| && Built(ret, ou, et, rules[..k])
      invariant ret.Growing? ==> fresh(ret.node)
    {
      assert rules[..k + 1] == rules[..k] + [rules[k]];
      if rules[k].included {
        ret, ou, et := Include(ret, ou, et, rules[k], rules[..k]);
      } else {
        ret, ou, et := Exclude(ret, ou, et, rules[k], rules[..k]);
      }
      k := k + 1;
    }
    assert rules[..k] == rules;
    m := ValueOf(ret);
  }

  // ----- unordered rules

  /** Some rule of that sort matches. */
  predicate Matches<X>(rules: seq<Rule<X>>, included: bool, x: X) {
    exists k :: 0 <= k < |rules| && rules[k].included == included && rules[k].covers(x)
  }

  /** The masks of the rules of one sort. */
  ghost predicate Gathers<X(!new)>(lst: seq<Mask<X>>, rules: seq<Rule<X>>, included: bool) {
    && (forall i :: 0 <= i < |lst| ==> Usable(lst[i]))
    && (lst == [] <==> forall k :: 0 <= k < |rules| ==> rules[k].included != included)
    && (forall x: X :: Covers(Ou(lst), x) <==> Matches(rules, included, x))
  }

  lemma GathersMore<X(!new)>(lst: seq<Mask<X>>, rules: seq<Rule<X>>, included: bool, r: Rule<X>)
    requires Gathers(lst, rules, included)
    ensures Gathers(if r.included == included then lst + [Leaf(r.covers)] else lst, rules + [r], included)
  {
    var more, all := if r.included == included then lst + [Leaf(r.covers)] else lst, rules + [r];
    assert all[|rules|] == r && forall k :: 0 <= k < |rules| ==> all[k] == rules[k];
    forall x: X ensures Covers(Ou(more), x) <==> Matches(all, included, x) {
      assert Covers(Ou(lst), x) <==> Matches(rules, included, x);
      if Covers(Ou(lst), x) {
        var i :| 0 <= i < |lst| && Covers(lst[i], x);
        assert Covers(more[i], x);
      }
      if Matches(rules, included, x) {
        var k :| 0 <= k < |rules| && rules[k].included == included && rules[k].covers(x);
        assert all[k].included == included && all[k].covers(x);
      }
      if r.included == included && r.covers(x) {
        assert Covers(more[|lst|], x);
      }
    }
  }

  /** make_unordered_mask: an include must match when there are some, and no exclude may. */
  method MakeUnorderedMask<X(!new)>(rules: seq<Rule<X>>) returns (m: Mask<X>)
    ensures Usable(m)
    ensures forall x: X :: Covers(m, x) <==>
              ((forall k :: 0 <= k < |rules| ==> !rules[k].included) || Matches(rules, true, x))
                && !Matches(rules, false, x)
  {
    var inclusions := new ListMask<X>(true);
    var exclusions := new ListMask<X>(true);
    var k := 0;
    while k < |rules|
      invariant k <= |rules| && Gathers(inclusions.lst, rules[..k], true) && Gathers(exclusions.lst, rules[..k], false)
      invariant inclusions.isOu && exclusions.isOu && fresh(inclusions) && fresh(exclusions) && inclusions != exclusions
    {
      assert rules[..k + 1] == rules[..k] + [rules[k]];
      GathersMore(inclusions.lst, rules[..k], true, rules[k]);
      GathersMore(exclusions.lst, rules[..k], false, rules[k]);
      if rules[k].included {
        inclusions.AddMask(Leaf(rules[k].covers));
      } else {
        exclusions.AddMask(Leaf(rules[k].covers));
      }
      k := k + 1;
    }
    assert rules[..k] == rules;
    var ret := new ListMask<X>(false);
    if |inclusions.lst| > 0 {
      ret.AddMask(inclusions.Value());
    } else {
      ret.AddMask(Bool(true));
    }
    if |exclusions.lst| > 0 {
      ret.AddMask(Never(exclusions.Value()));
    }
    m := ret.Value();
    Combined(m, rules, inclusions.lst, exclusions.lst);
  }

  lemma Combined<X(!new)>(m: Mask<X>, rules: seq<Rule<X>>, inclusions: seq<Mask<X>>, exclusions: seq<Mask<X>>)
    requires Gathers(inclusions, rules, true) && Gathers(exclusions, rules, false)
    requires m == Et([if inclusions != [] then Ou(inclusions) else Bool(true)] +
                     if exclusions != [] then [Never(Ou(exclusions))] else [])
    ensures Usable(m)
    ensures forall x: X :: Covers(m, x) <==>
              ((forall k :: 0 <= k < |rules| ==> !rules[k].included) || Matches(rules, true, x))
                && !Matches(rules, false, x)
  {
    var a := if inclusions != [] then Ou(inclusions) else Bool(true);
    assert m.lst[0] == a;
    assert exclusions != [] ==> m.lst[1] == Never(Ou(exclusions));
    forall x: X ensures Covers(m, x) <==>
              ((forall k :: 0 <= k < |rules| ==> !rules[k].included) || Matches(rules, true, x))
                && !Matches(rules, false, x)
    {
      assert Covers(Ou(exclusions), x) <==> Matches(rules, false, x);
      assert Covers(Ou(inclusions), x) <==> Matches(rules, true, x);
      assert Covers(m, x) <==> Covers(a, x) && (exclusions != [] ==> !Covers(Ou(exclusions), x));
    }
  }
}
