/** Completing an aborted backup: which etoile each etiquette of the reference gets. */
module StarOrigins {
  import opened Entries
  import opened ValueTrees
  import opened Forests
  import opened Destruction
  import opened Absence

  /** A link of etiquette k of the reference is at the same path as a link of the current
      tree, whose etoile is that star. */
  ghost predicate Met(cur: seq<Node>, ref: seq<Node>, k: nat, star: Star)
    decreases ref, 1
  {
    exists j {:trigger ref[j]} :: 0 <= j < |ref| && MetAt(cur, ref[j], k, star)
  }

  ghost predicate MetAt(cur: seq<Node>, e: Node, k: nat, star: Star)
    decreases e, 2
  {
    var i := IndexOf(cur, e.Name());
    && i.Some?
    && var n := cur[i.value];
       match e
       case NDir(_, _, kids) => n.NDir? && Met(n.kids, kids, k, star)
       case NLink(_, etiquette, _) => etiquette == k && n.NLink? && star == Star(n.etiquette, n.ino)
       case NLeaf(_) => false
  }

  /** The inode is that of some link of etiquette k of the reference, made unsaved. */
  ghost predicate UnsavedFrom(ref: seq<Node>, k: nat, ino: Inode) {
    exists j {:trigger ref[j]} :: 0 <= j < |ref| && UnsavedFromOne(ref[j], k, ino)
  }

  ghost predicate UnsavedFromOne(e: Node, k: nat, ino: Inode) {
    match e
    case NDir(_, _, kids) => UnsavedFrom(kids, k, ino)
    case NLink(_, etiquette, i) => etiquette == k && MadeUnsaved(i, ino)
    case NLeaf(_) => false
  }

  /** The star of etiquette k is that of a link found at the same path, or is a new one that
      has a number from lo on, below hi, and the unsaved inode of the reference. */
  ghost predicate Origin(cur: seq<Node>, ref: seq<Node>, lo: nat, hi: nat, k: nat, star: Star) {
    Met(cur, ref, k, star) || (lo <= star.etiquette < hi && UnsavedFrom(ref, k, star.ino))
  }

  ghost predicate OriginOne(cur: seq<Node>, e: Node, lo: nat, hi: nat, k: nat, star: Star) {
    MetAt(cur, e, k, star) || (lo <= star.etiquette < hi && UnsavedFromOne(e, k, star.ino))
  }

  lemma NothingMet(ref: seq<Node>, k: nat, star: Star)
    ensures !Met([], ref, k, star)
  {
  }

  /** A link found later at the same path was there from the beginning. */
  lemma MetBefore(cur: seq<Node>, ref: seq<Node>, s: Stars, k: nat, star: Star)
    requires ref != [] && Unique(ref) && Met(CompleteOne(cur, ref[0], s).0, ref[1..], k, star)
    ensures Met(cur, ref, k, star)
  {
    var cur2, rest := CompleteOne(cur, ref[0], s).0, ref[1..];
    CompleteOneShape(cur, ref[0], s);
    var j :| 0 <= j < |rest| && MetAt(cur2, rest[j], k, star);
    assert rest[j] == ref[j + 1];
    assert MetAt(cur, ref[j + 1], k, star);
  }

  /** Every star of now that was not in s has its origin in the two trees. */
  ghost predicate Explained(cur: seq<Node>, ref: seq<Node>, s: Stars, now: Stars) {
    forall k {:trigger now.of[k]} :: k in now.of && k !in s.of ==> Origin(cur, ref, s.next, now.next, k, now.of[k])
  }

  ghost predicate ExplainedOne(cur: seq<Node>, e: Node, s: Stars, now: Stars) {
    forall k {:trigger now.of[k]} :: k in now.of && k !in s.of ==> OriginOne(cur, e, s.next, now.next, k, now.of[k])
  }

  lemma {:induction false} StarsMeant(cur: seq<Node>, ref: seq<Node>, s: Stars)
    requires AllUnique(ref)
    ensures Explained(cur, ref, s, Complete(cur, ref, s).1)
    decreases ref, 0
  {
    if ref != [] {
      var one, rest := CompleteOne(cur, ref[0], s), ref[1..];
      var r := Complete(one.0, rest, one.1).1;
      UniqueTail(ref);
      StarsMeantOne(cur, ref[0], s);
      StarsMeant(one.0, rest, one.1);
      StarsWithinOne(cur, ref[0], s);
      StarsWithin(one.0, rest, one.1);
      forall k {:trigger r.of[k]} | k in r.of && k !in s.of ensures Origin(cur, ref, s.next, r.next, k, r.of[k]) {
        if k in one.1.of {
          assert OriginOne(cur, ref[0], s.next, one.1.next, k, one.1.of[k]);
        } else {
          OriginBefore(cur, ref, s, r.next, k, r.of[k]);
        }
      }
    }
  }

  lemma OriginBefore(cur: seq<Node>, ref: seq<Node>, s: Stars, hi: nat, k: nat, star: Star)
    requires ref != [] && Unique(ref) && s.next <= CompleteOne(cur, ref[0], s).1.next
    requires Origin(CompleteOne(cur, ref[0], s).0, ref[1..], CompleteOne(cur, ref[0], s).1.next, hi, k, star)
    ensures Origin(cur, ref, s.next, hi, k, star)
  {
    var rest := ref[1..];
    if Met(CompleteOne(cur, ref[0], s).0, rest, k, star) {
      MetBefore(cur, ref, s, k, star);
    } else {
      var j :| 0 <= j < |rest| && UnsavedFromOne(rest[j], k, star.ino);
      assert rest[j] == ref[j + 1];
    }
  }

  lemma {:induction false} StarsMeantOne(cur: seq<Node>, e: Node, s: Stars)
    requires e.NDir? ==> AllUnique(e.kids)
    ensures ExplainedOne(cur, e, s, CompleteOne(cur, e, s).1)
    decreases e, 1
  {
    var i, now := IndexOf(cur, e.Name()), CompleteOne(cur, e, s).1;
    if e.NDir? && i.None? {
      StarsMeant([], e.kids, s);
      assert now == Complete([], e.kids, s).1;
      forall k {:trigger now.of[k]} | k in now.of && k !in s.of
        ensures OriginOne(cur, e, s.next, now.next, k, now.of[k]) {
        NothingMet(e.kids, k, now.of[k]);
      }
    } else if e.NDir? && cur[i.value].NDir? {
      StarsMeant(cur[i.value].kids, e.kids, s);
      assert now == Complete(cur[i.value].kids, e.kids, s).1;
    }
  }

  // ----- the link that decides

  /** What a link of the reference decides of its etoile: the one of the link found here, or a
      new one for that inode. */
  datatype Decision = Found(star: Star) | Fresh(ino: Inode)

  /** The first link of etiquette k, in the order of the walk, that is missing or is a link
      here too. */
  ghost function FirstDecision(cur: seq<Node>, ref: seq<Node>, k: nat): Option<Decision>
    decreases ref, 0
  {
    if ref == [] then None
    else
      var d := DecisionOf(cur, ref[0], k);
      if d.Some? then d else FirstDecision(cur, ref[1..], k)
  }

  ghost function DecisionOf(cur: seq<Node>, e: Node, k: nat): Option<Decision>
    decreases e, 1
  {
    var i := IndexOf(cur, e.Name());
    match e
    case NDir(_, _, kids) =>
      if i.None? then FirstDecision([], kids, k)
      else if cur[i.value].NDir? then FirstDecision(cur[i.value].kids, kids, k) else None
    case NLink(_, etiquette, ino) =>
      if etiquette != k then None
      else if i.None? then Some(Fresh(ino))
      else if cur[i.value].NLink? then Some(Found(Star(cur[i.value].etiquette, cur[i.value].ino))) else None
    case NLeaf(_) => None
  }

  /** The etoile of k among now is as decided, new ones having numbers from lo on. */
  ghost predicate AsDecided(d: Option<Decision>, k: nat, now: Stars, lo: nat) {
    match d
    case None => k !in now.of
    case Some(Found(star)) => k in now.of && now.of[k] == star
    case Some(Fresh(ino)) =>
      k in now.of && lo <= now.of[k].etiquette < now.next && MadeUnsaved(ino, now.of[k].ino)
  }

  ghost predicate AllDecided(cur: seq<Node>, ref: seq<Node>, s: Stars, now: Stars) {
    forall k: nat {:trigger FirstDecision(cur, ref, k)} :: k !in s.of ==>
      AsDecided(FirstDecision(cur, ref, k), k, now, s.next)
  }

  /** Entries added, or changed below, under another name do not matter. */
  lemma {:induction false} SameDecision(cur: seq<Node>, cur2: seq<Node>, ref: seq<Node>, k: nat)
    requires forall j :: 0 <= j < |ref| ==>
               var i := IndexOf(cur, ref[j].Name());
               IndexOf(cur2, ref[j].Name()) == i && (i.Some? ==> cur2[i.value] == cur[i.value])
    ensures FirstDecision(cur2, ref, k) == FirstDecision(cur, ref, k)
    decreases ref
  {
    if ref != [] {
      assert forall j :: 0 <= j < |ref| - 1 ==> ref[1..][j] == ref[j + 1];
      SameDecision(cur, cur2, ref[1..], k);
    }
  }

  lemma DecisionAfter(cur: seq<Node>, ref: seq<Node>, s: Stars, k: nat)
    requires ref != [] && Unique(ref)
    ensures FirstDecision(CompleteOne(cur, ref[0], s).0, ref[1..], k) == FirstDecision(cur, ref[1..], k)
  {
    var cur2, rest := CompleteOne(cur, ref[0], s).0, ref[1..];
    CompleteOneShape(cur, ref[0], s);
    forall j | 0 <= j < |rest|
      ensures var i := IndexOf(cur, rest[j].Name());
              IndexOf(cur2, rest[j].Name()) == i && (i.Some? ==> cur2[i.value] == cur[i.value])
    {
      assert rest[j] == ref[j + 1];
    }
    SameDecision(cur, cur2, rest, k);
  }

  /** The first link that can decides of the etoile of its etiquette. */
  lemma {:induction false} StarDecided(cur: seq<Node>, ref: seq<Node>, s: Stars, k: nat)
    requires AllUnique(ref) && k !in s.of
    ensures AsDecided(FirstDecision(cur, ref, k), k, Complete(cur, ref, s).1, s.next)
    decreases ref, 0
  {
    if ref != [] {
      var one, rest := CompleteOne(cur, ref[0], s), ref[1..];
      UniqueTail(ref);
      StarDecidedOne(cur, ref[0], s, k);
      StarsWithinOne(cur, ref[0], s);
      StarsWithin(one.0, rest, one.1);
      if k !in one.1.of {
        DecisionAfter(cur, ref, s, k);
        StarDecided(one.0, rest, one.1, k);
      }
    }
  }

  lemma {:induction false} StarDecidedOne(cur: seq<Node>, e: Node, s: Stars, k: nat)
    requires (e.NDir? ==> AllUnique(e.kids)) && k !in s.of
    ensures AsDecided(DecisionOf(cur, e, k), k, CompleteOne(cur, e, s).1, s.next)
    decreases e, 1
  {
    var i := IndexOf(cur, e.Name());
    if e.NDir? && i.None? {
      StarDecided([], e.kids, s, k);
    } else if e.NDir? && cur[i.value].NDir? {
      StarDecided(cur[i.value].kids, e.kids, s, k);
    }
  }

  lemma StarsDecided(cur: seq<Node>, ref: seq<Node>, s: Stars)
    requires AllUnique(ref)
    ensures AllDecided(cur, ref, s, Complete(cur, ref, s).1)
  {
    forall k: nat {:trigger FirstDecision(cur, ref, k)} | k !in s.of
      ensures AsDecided(FirstDecision(cur, ref, k), k, Complete(cur, ref, s).1, s.next)
    {
      StarDecided(cur, ref, s, k);
    }
  }

  // ----- numbers

  /** All numbers are below next, and those from lo on differ. */
  ghost predicate Numbered(s: Stars, lo: nat) {
    && (forall k {:trigger s.of[k]} :: k in s.of ==> s.of[k].etiquette < s.next)
    && (forall a, b {:trigger s.of[a], s.of[b]} ::
          a in s.of && b in s.of && a != b && s.of[a].etiquette >= lo ==> s.of[a].etiquette != s.of[b].etiquette)
  }

  /** The links met at the same paths have numbers below lo. */
  ghost predicate OldMet(cur: seq<Node>, ref: seq<Node>, lo: nat) {
    forall k, star {:trigger Met(cur, ref, k, star)} :: Met(cur, ref, k, star) ==> star.etiquette < lo
  }

  ghost predicate OldMetAt(cur: seq<Node>, e: Node, lo: nat) {
    forall k, star {:trigger MetAt(cur, e, k, star)} :: MetAt(cur, e, k, star) ==> star.etiquette < lo
  }

  /** New etoiles get numbers that differ from each other and from those of the links found. */
  lemma {:induction false} StarsNumbered(cur: seq<Node>, ref: seq<Node>, s: Stars, lo: nat)
    requires AllUnique(ref) && lo <= s.next && Numbered(s, lo) && OldMet(cur, ref, lo)
    ensures Numbered(Complete(cur, ref, s).1, lo) && s.next <= Complete(cur, ref, s).1.next
    decreases ref, 0
  {
    if ref != [] {
      var one, rest := CompleteOne(cur, ref[0], s), ref[1..];
      UniqueTail(ref);
      assert OldMetAt(cur, ref[0], lo) by {
        assert forall k, star {:trigger MetAt(cur, ref[0], k, star)} :: MetAt(cur, ref[0], k, star) ==>
                 Met(cur, ref, k, star);
      }
      StarsNumberedOne(cur, ref[0], s, lo);
      forall k, star {:trigger Met(one.0, rest, k, star)} | Met(one.0, rest, k, star) ensures star.etiquette < lo {
        MetBefore(cur, ref, s, k, star);
      }
      StarsNumbered(one.0, rest, one.1, lo);
    }
  }

  lemma {:induction false} StarsNumberedOne(cur: seq<Node>, e: Node, s: Stars, lo: nat)
    requires (e.NDir? ==> AllUnique(e.kids)) && lo <= s.next && Numbered(s, lo) && OldMetAt(cur, e, lo)
    ensures Numbered(CompleteOne(cur, e, s).1, lo) && s.next <= CompleteOne(cur, e, s).1.next
    decreases e, 1
  {
    var i := IndexOf(cur, e.Name());
    match e
    case NDir(_, _, kids) =>
      if i.None? {
        assert forall k, star :: !Met([], kids, k, star);
        StarsNumbered([], kids, s, lo);
      } else if cur[i.value].NDir? {
        forall k, star {:trigger Met(cur[i.value].kids, kids, k, star)} | Met(cur[i.value].kids, kids, k, star)
          ensures star.etiquette < lo
        {
          assert MetAt(cur, e, k, star);
        }
        StarsNumbered(cur[i.value].kids, kids, s, lo);
      }
    case NLink(_, etiquette, _) =>
      if i.Some? && cur[i.value].NLink? {
        assert MetAt(cur, e, etiquette, Star(cur[i.value].etiquette, cur[i.value].ino));
      }
    case NLeaf(_) =>
  }

  /** Every link, at all levels, has a number below n. */
  ghost predicate Below(f: seq<Node>, n: nat)
    decreases f, 1
  {
    forall i {:trigger f[i]} :: 0 <= i < |f| ==> BelowOne(f[i], n)
  }

  ghost predicate BelowOne(e: Node, n: nat)
    decreases e, 0
  {
    match e
    case NDir(_, _, kids) => Below(kids, n)
    case NLink(_, etiquette, _) => etiquette < n
    case NLeaf(_) => true
  }

  lemma {:induction false} MetIsBelow(cur: seq<Node>, ref: seq<Node>, k: nat, star: Star, n: nat)
    requires Below(cur, n) && Met(cur, ref, k, star)
    ensures star.etiquette < n
    decreases cur
  {
    var j :| 0 <= j < |ref| && MetAt(cur, ref[j], k, star);
    var i := IndexOf(cur, ref[j].Name()).value;
    assert BelowOne(cur[i], n);
    if cur[i].NDir? {
      MetIsBelow(cur[i].kids, ref[j].kids, k, star, n);
    }
  }

  /** From the beginning: each etiquette of the reference gets the etoile of a link at the
      same path, or a new etoile, unsaved; new etoiles have different numbers, not those of
      the links of the current tree when the first number given is above them. */
  lemma StarsAreExact(cur: seq<Node>, ref: seq<Node>, next: nat)
    requires AllUnique(ref)
    ensures var r := Complete(cur, ref, Stars(map[], next)).1;
            && (forall k {:trigger r.of[k]} :: k in r.of ==> Origin(cur, ref, next, r.next, k, r.of[k]))
            && (Below(cur, next) ==> Numbered(r, next))
  {
    var s := Stars(map[], next);
    StarsMeant(cur, ref, s);
    if Below(cur, next) {
      forall k, star {:trigger Met(cur, ref, k, star)} | Met(cur, ref, k, star) ensures star.etiquette < next {
        MetIsBelow(cur, ref, k, star, next);
      }
      StarsNumbered(cur, ref, s, next);
    }
  }
}
