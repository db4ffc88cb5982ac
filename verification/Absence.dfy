/** Completing an aborted backup with what the reference catalogue has and the current one
    has not: the completion as a function of the two trees, and what it guarantees. */
module Absence {
  import opened Entries
  import opened ValueTrees
  import opened Forests
  import opened Destruction

  /** The etoile a reference etiquette stands for in the current catalogue, and the next
      etiquette to give. */
  datatype Stars = Stars(of: map<nat, Star>, next: nat)
  datatype Star = Star(etiquette: nat, ino: Inode)

  /** An inode whose data and extended attributes are not saved. */
  function Unsaved(i: Inode): Inode {
    i.(saved := NotSaved, ea := if i.ea == EaNone || i.ea == EaRemoved then EaNone else EaPartial)
  }

  function UnsavedLeaf(l: Leaf): Leaf {
    match l
    case Plain(n, i) => Plain(n, Unsaved(i))
    case IgnoredDir(n, i) => IgnoredDir(n, Unsaved(i))
    case _ => l
  }

  /** A link met in the reference and missing here: its star, created when first needed. */
  function NewStar(etiquette: nat, ino: Inode, s: Stars): Stars {
    if etiquette in s.of then s
    else Stars(s.of[etiquette := Star(s.next, Unsaved(ino))], s.next + 1)
  }

  /** A link met in both: the reference etiquette gets the star found here, once. */
  function SeenStar(etiquette: nat, found: Node, s: Stars): Stars {
    if found.NLink? && etiquette !in s.of
    then s.(of := s.of[etiquette := Star(found.etiquette, found.ino)])
    else s
  }

  /** One reference entry met in a directory. */
  function CompleteOne(cur: seq<Node>, e: Node, s: Stars): (seq<Node>, Stars)
    decreases e, 1
  {
    var i := IndexOf(cur, e.Name());
    match e
    case NDir(name, ino, kids) =>
      if i.None? then
        var r := Complete([], kids, s);
        (cur + [NDir(name, Unsaved(ino), r.0)], r.1)
      else if cur[i.value].NDir? then
        var r := Complete(cur[i.value].kids, kids, s);
        (SetKids(cur, name, r.0), r.1)
      else (cur, s)
    case NLink(name, etiquette, ino) =>
      if i.None? then
        var s2 := NewStar(etiquette, ino, s);
        (cur + [NLink(name, s2.of[etiquette].etiquette, s2.of[etiquette].ino)], s2)
      else (cur, SeenStar(etiquette, cur[i.value], s))
    case NLeaf(l) =>
      if l.Detruit? || i.Some? then (cur, s) else (cur + [NLeaf(UnsavedLeaf(l))], s)
  }

  /** All the entries of a reference directory, in order. */
  function Complete(cur: seq<Node>, ref: seq<Node>, s: Stars): (seq<Node>, Stars)
    decreases ref, 0
  {
    if ref == [] then (cur, s)
    else
      var r := CompleteOne(cur, ref[0], s);
      Complete(r.0, ref[1..], r.1)
  }

  // ----- what was there is untouched

  ghost predicate ExtendsNode(a: Node, b: Node)
    decreases a, 0
  {
    a == b || (a.NDir? && b.NDir? && a.name == b.name && a.ino == b.ino && Extends(a.kids, b.kids))
  }

  /** b has the entries of a at the same places, only with more below and after them. */
  ghost predicate Extends(a: seq<Node>, b: seq<Node>)
    decreases a, 1
  {
    |a| <= |b| && forall i {:trigger b[i]} :: 0 <= i < |a| ==> ExtendsNode(a[i], b[i])
  }

  lemma {:induction false} ExtendsTrans(a: seq<Node>, b: seq<Node>, c: seq<Node>)
    requires Extends(a, b) && Extends(b, c)
    ensures Extends(a, c)
    decreases a
  {
    forall i {:trigger c[i]} | 0 <= i < |a| ensures ExtendsNode(a[i], c[i]) {
      assert ExtendsNode(a[i], b[i]) && ExtendsNode(b[i], c[i]);
      if a[i] != b[i] && b[i] != c[i] {
        ExtendsTrans(a[i].kids, b[i].kids, c[i].kids);
      }
    }
  }

  lemma {:induction false} CompleteExtends(cur: seq<Node>, ref: seq<Node>, s: Stars)
    ensures Extends(cur, Complete(cur, ref, s).0)
    decreases ref, 0
  {
    if ref != [] {
      var r := CompleteOne(cur, ref[0], s);
      CompleteOneExtends(cur, ref[0], s);
      CompleteExtends(r.0, ref[1..], r.1);
      ExtendsTrans(cur, r.0, Complete(cur, ref, s).0);
    }
  }

  lemma {:induction false} CompleteOneExtends(cur: seq<Node>, e: Node, s: Stars)
    ensures Extends(cur, CompleteOne(cur, e, s).0)
    decreases e, 1
  {
    var i := IndexOf(cur, e.Name());
    if e.NDir? && i.Some? && cur[i.value].NDir? {
      CompleteExtends(cur[i.value].kids, e.kids, s);
    }
  }

  // ----- what is added, without an order of events

  /** e must be added next to the entries cur. */
  predicate Wanted(cur: seq<Node>, e: Node) {
    !IsDetruit(e) && IndexOf(cur, e.Name()).None?
  }

  /** b is the inode a, but that neither its data nor its extended attributes are saved: these
      are at most known to exist, unless they had been removed. */
  ghost predicate MadeUnsaved(a: Inode, b: Inode) {
    && b.saved == NotSaved
    && (a.ea == EaNone || a.ea == EaRemoved ==> b.ea == EaNone)
    && (a.ea == EaPartial || a.ea == EaFake || a.ea == EaFull ==> b.ea == EaPartial)
    && b.uid == a.uid && b.gid == a.gid && b.perm == a.perm
    && b.lastAccess == a.lastAccess && b.lastModif == a.lastModif && b.lastChange == a.lastChange
    && b.eaData == a.eaData && b.device == a.device && b.payload == a.payload
  }

  /** n is what e becomes when it is added; `of` says which etoile each link gets. */
  ghost predicate CopyOf(e: Node, n: Node, of: map<nat, Star>)
    decreases e, 2
  {
    match e
    case NDir(name, ino, kids) =>
      n.NDir? && n.name == name && MadeUnsaved(ino, n.ino) && Completed([], kids, n.kids, of)
    case NLink(name, etiquette, _) =>
      etiquette in of && n == NLink(name, of[etiquette].etiquette, of[etiquette].ino)
    case NLeaf(Plain(name, ino)) =>
      n.NLeaf? && n.leaf.Plain? && n.leaf.leafName == name && MadeUnsaved(ino, n.leaf.ino)
    case NLeaf(IgnoredDir(name, ino)) =>
      n.NLeaf? && n.leaf.IgnoredDir? && n.leaf.leafName == name && MadeUnsaved(ino, n.leaf.ino)
    case NLeaf(_) => n == e
  }

  /** b is what the entry a, already there, becomes. */
  ghost predicate KeptAs(a: Node, ref: seq<Node>, b: Node, of: map<nat, Star>)
    decreases ref, 0
  {
    if a.NDir? && IndexOf(ref, a.name).Some? && ref[IndexOf(ref, a.name).value].NDir? then
      b.NDir? && b.name == a.name && b.ino == a.ino &&
      Completed(a.kids, ref[IndexOf(ref, a.name).value].kids, b.kids, of)
    else b == a
  }

  /** now is cur completed with ref: the entries of cur at their places, then exactly one
      copy of each non-deleted entry of ref whose name was missing. */
  ghost predicate Completed(cur: seq<Node>, ref: seq<Node>, now: seq<Node>, of: map<nat, Star>)
    decreases ref, 1
  {
    && |cur| <= |now| && Unique(now)
    && (forall i {:trigger now[i]} :: 0 <= i < |cur| ==> KeptAs(cur[i], ref, now[i], of))
    && (forall j {:trigger ref[j]} :: 0 <= j < |ref| && Wanted(cur, ref[j]) ==>
          IndexOf(now, ref[j].Name()).Some? && CopyOf(ref[j], now[IndexOf(now, ref[j].Name()).value], of))
    && OnlyWanted(cur, ref, now)
  }

  /** Every entry added has the name of a wanted one. */
  ghost predicate OnlyWanted(cur: seq<Node>, ref: seq<Node>, now: seq<Node>) {
    forall p {:trigger now[p]} :: |cur| <= p < |now| ==> NamedWanted(cur, ref, now[p].Name())
  }

  ghost predicate NamedWanted(cur: seq<Node>, ref: seq<Node>, n: string) {
    exists j :: 0 <= j < |ref| && Wanted(cur, ref[j]) && ref[j].Name() == n
  }

  ghost predicate Within(a: map<nat, Star>, b: map<nat, Star>) {
    forall k {:trigger k in b} {:trigger a[k]} :: k in a ==> k in b && b[k] == a[k]
  }

  /** Which etoile a reference etiquette gets is decided once. */
  lemma {:induction false} StarsWithin(cur: seq<Node>, ref: seq<Node>, s: Stars)
    ensures Within(s.of, Complete(cur, ref, s).1.of) && s.next <= Complete(cur, ref, s).1.next
    decreases ref, 0
  {
    if ref != [] {
      var r := CompleteOne(cur, ref[0], s);
      StarsWithinOne(cur, ref[0], s);
      StarsWithin(r.0, ref[1..], r.1);
    }
  }

  lemma {:induction false} StarsWithinOne(cur: seq<Node>, e: Node, s: Stars)
    ensures Within(s.of, CompleteOne(cur, e, s).1.of) && s.next <= CompleteOne(cur, e, s).1.next
    decreases e, 1
  {
    var i := IndexOf(cur, e.Name());
    if e.NDir? {
      if i.None? {
        StarsWithin([], e.kids, s);
      } else if cur[i.value].NDir? {
        StarsWithin(cur[i.value].kids, e.kids, s);
      }
    }
  }

  lemma {:induction false} CompletedMore(cur: seq<Node>, ref: seq<Node>, now: seq<Node>, a: map<nat, Star>,
                                         b: map<nat, Star>)
    requires Completed(cur, ref, now, a) && Within(a, b)
    ensures Completed(cur, ref, now, b)
    decreases ref, 1
  {
    forall i {:trigger now[i]} | 0 <= i < |cur| ensures KeptAs(cur[i], ref, now[i], b) {
      assert KeptAs(cur[i], ref, now[i], a);
      if cur[i].NDir? && IndexOf(ref, cur[i].name).Some? {
        var e := ref[IndexOf(ref, cur[i].name).value];
        if e.NDir? {
          CompletedMore(cur[i].kids, e.kids, now[i].kids, a, b);
        }
      }
    }
    forall j {:trigger ref[j]} | 0 <= j < |ref| && Wanted(cur, ref[j])
      ensures IndexOf(now, ref[j].Name()).Some? && CopyOf(ref[j], now[IndexOf(now, ref[j].Name()).value], b)
    {
      CopyOfMore(ref[j], now[IndexOf(now, ref[j].Name()).value], a, b);
    }
  }

  lemma {:induction false} CopyOfMore(e: Node, n: Node, a: map<nat, Star>, b: map<nat, Star>)
    requires CopyOf(e, n, a) && Within(a, b)
    ensures CopyOf(e, n, b)
    decreases e, 2
  {
    if e.NDir? {
      CompletedMore([], e.kids, n.kids, a, b);
    }
  }

  // ----- the completion meets it

  /** What one step does to the list. */
  lemma CompleteOneShape(cur: seq<Node>, e: Node, s: Stars)
    ensures var r := CompleteOne(cur, e, s).0;
            && |r| == |cur| + (if Wanted(cur, e) then 1 else 0)
            && (Wanted(cur, e) ==> r[|cur|].Name() == e.Name())
            && (forall i {:trigger r[i]} :: 0 <= i < |cur| ==> r[i].Name() == cur[i].Name())
            && (forall i {:trigger r[i]} ::
                  0 <= i < |cur| && (IndexOf(cur, e.Name()) != Some(i) || !e.NDir? || !cur[i].NDir?) ==> r[i] == cur[i])
    ensures forall n :: n != e.Name() ==> IndexOf(CompleteOne(cur, e, s).0, n) == IndexOf(cur, n)
  {
    var r := CompleteOne(cur, e, s).0;
    forall n | n != e.Name() ensures IndexOf(r, n) == IndexOf(cur, n) {
      IndexOfSameNames(cur, r, n);
    }
  }

  lemma ShapeUnique(cur: seq<Node>, e: Node, s: Stars)
    requires Unique(cur)
    ensures Unique(CompleteOne(cur, e, s).0)
  {
    CompleteOneShape(cur, e, s);
    var r := CompleteOne(cur, e, s).0;
    forall i, j | 0 <= i < j < |r| ensures r[i].Name() != r[j].Name() {
    }
  }

  /** The slot of an entry already there, after the step for e and the rest. */
  lemma KeptStep(cur: seq<Node>, ref: seq<Node>, s: Stars, now: seq<Node>, of: map<nat, Star>, i: nat)
    requires ref != [] && Unique(ref) && Unique(cur) && i < |cur|
    requires Within(CompleteOne(cur, ref[0], s).1.of, of)
    requires Completed(CompleteOne(cur, ref[0], s).0, ref[1..], now, of)
    requires cur[i].NDir? && ref[0].NDir? ==>
               var r := Complete(cur[i].kids, ref[0].kids, s);
               Completed(cur[i].kids, ref[0].kids, r.0, r.1.of)
    ensures i < |now| && KeptAs(cur[i], ref, now[i], of)
  {
    var e, rest, cur2 := ref[0], ref[1..], CompleteOne(cur, ref[0], s).0;
    CompleteOneShape(cur, e, s);
    assert KeptAs(cur2[i], rest, now[i], of);
    if cur[i].Name() == e.Name() {
      OnlyFirst(ref);
      if cur[i].NDir? && e.NDir? {
        IndexOfUnique(cur, e.Name(), i);
        var r := Complete(cur[i].kids, e.kids, s);
        assert cur2[i] == NDir(cur[i].name, cur[i].ino, r.0);
        CompletedMore(cur[i].kids, e.kids, r.0, r.1.of, of);
      }
    } else {
      TailIndex(ref, cur[i].Name());
    }
  }

  lemma OnlyFirst(ref: seq<Node>)
    requires ref != [] && Unique(ref)
    ensures IndexOf(ref, ref[0].Name()) == Some(0) && IndexOf(ref[1..], ref[0].Name()).None?
  {
    assert forall j :: 0 <= j < |ref| - 1 ==> ref[1..][j] == ref[j + 1];
    IndexOfUnique(ref, ref[0].Name(), 0);
  }

  lemma TailIndex(ref: seq<Node>, n: string)
    requires ref != [] && ref[0].Name() != n
    ensures match IndexOf(ref[1..], n)
            case None => IndexOf(ref, n).None?
            case Some(j) => IndexOf(ref, n) == Some(j + 1)
  {
  }

  /** The entry e itself, when it is wanted. */
  lemma WantedStep(cur: seq<Node>, ref: seq<Node>, s: Stars, now: seq<Node>, of: map<nat, Star>)
    requires ref != [] && Unique(ref) && Wanted(cur, ref[0])
    requires Within(CompleteOne(cur, ref[0], s).1.of, of)
    requires Completed(CompleteOne(cur, ref[0], s).0, ref[1..], now, of)
    requires ref[0].NDir? ==> var r := Complete([], ref[0].kids, s); Completed([], ref[0].kids, r.0, r.1.of)
    ensures IndexOf(now, ref[0].Name()) == Some(|cur|) && CopyOf(ref[0], now[|cur|], of)
  {
    var e, rest, cur2 := ref[0], ref[1..], CompleteOne(cur, ref[0], s).0;
    CompleteOneShape(cur, e, s);
    assert KeptAs(cur2[|cur|], rest, now[|cur|], of);
    assert forall j :: 0 <= j < |rest| ==> rest[j] == ref[j + 1];
    assert IndexOf(rest, e.Name()).None?;
    assert now[|cur|] == cur2[|cur|];
    IndexOfUnique(now, e.Name(), |cur|);
    if e.NDir? {
      var r := Complete([], e.kids, s);
      CompletedMore([], e.kids, r.0, r.1.of, of);
    }
  }

  lemma CompletedStep(cur: seq<Node>, ref: seq<Node>, s: Stars, now: seq<Node>, of: map<nat, Star>)
    requires ref != [] && Unique(ref) && Unique(cur)
    requires Within(CompleteOne(cur, ref[0], s).1.of, of)
    requires Completed(CompleteOne(cur, ref[0], s).0, ref[1..], now, of)
    requires forall i :: 0 <= i < |cur| && cur[i].NDir? && ref[0].NDir? ==>
               var r := Complete(cur[i].kids, ref[0].kids, s); Completed(cur[i].kids, ref[0].kids, r.0, r.1.of)
    requires ref[0].NDir? ==> var r := Complete([], ref[0].kids, s); Completed([], ref[0].kids, r.0, r.1.of)
    ensures Completed(cur, ref, now, of)
  {
    var e, rest, cur2 := ref[0], ref[1..], CompleteOne(cur, ref[0], s).0;
    CompleteOneShape(cur, e, s);
    forall i {:trigger now[i]} | 0 <= i < |cur| ensures KeptAs(cur[i], ref, now[i], of) {
      KeptStep(cur, ref, s, now, of, i);
    }
    CopiesStep(cur, ref, s, now, of);
    OnlyWantedStep(cur, ref, s, now, of);
  }

  lemma CopiesStep(cur: seq<Node>, ref: seq<Node>, s: Stars, now: seq<Node>, of: map<nat, Star>)
    requires ref != [] && Unique(ref) && Unique(cur)
    requires Within(CompleteOne(cur, ref[0], s).1.of, of)
    requires Completed(CompleteOne(cur, ref[0], s).0, ref[1..], now, of)
    requires ref[0].NDir? ==> var r := Complete([], ref[0].kids, s); Completed([], ref[0].kids, r.0, r.1.of)
    ensures forall j {:trigger ref[j]} :: 0 <= j < |ref| && Wanted(cur, ref[j]) ==>
              IndexOf(now, ref[j].Name()).Some? && CopyOf(ref[j], now[IndexOf(now, ref[j].Name()).value], of)
  {
    var e, rest, cur2 := ref[0], ref[1..], CompleteOne(cur, ref[0], s).0;
    CompleteOneShape(cur, e, s);
    forall j {:trigger ref[j]} | 0 <= j < |ref| && Wanted(cur, ref[j])
      ensures IndexOf(now, ref[j].Name()).Some? && CopyOf(ref[j], now[IndexOf(now, ref[j].Name()).value], of)
    {
      if j == 0 {
        WantedStep(cur, ref, s, now, of);
      } else {
        assert rest[j - 1] == ref[j] && Wanted(cur2, rest[j - 1]);
      }
    }
  }

  lemma OnlyWantedStep(cur: seq<Node>, ref: seq<Node>, s: Stars, now: seq<Node>, of: map<nat, Star>)
    requires ref != [] && Unique(ref) && Unique(cur)
    requires Within(CompleteOne(cur, ref[0], s).1.of, of)
    requires Completed(CompleteOne(cur, ref[0], s).0, ref[1..], now, of)
    requires ref[0].NDir? ==> var r := Complete([], ref[0].kids, s); Completed([], ref[0].kids, r.0, r.1.of)
    ensures OnlyWanted(cur, ref, now)
  {
    forall p {:trigger now[p]} | |cur| <= p < |now| ensures NamedWanted(cur, ref, now[p].Name()) {
      AddedIsWanted(cur, ref, s, now, of, p);
    }
  }

  /** One entry added, by this step or by the rest. */
  lemma AddedIsWanted(cur: seq<Node>, ref: seq<Node>, s: Stars, now: seq<Node>, of: map<nat, Star>, p: nat)
    requires ref != [] && Unique(ref) && Unique(cur) && |cur| <= p < |now|
    requires Within(CompleteOne(cur, ref[0], s).1.of, of)
    requires Completed(CompleteOne(cur, ref[0], s).0, ref[1..], now, of)
    requires ref[0].NDir? ==> var r := Complete([], ref[0].kids, s); Completed([], ref[0].kids, r.0, r.1.of)
    ensures NamedWanted(cur, ref, now[p].Name())
  {
    var rest, cur2 := ref[1..], CompleteOne(cur, ref[0], s).0;
    CompleteOneShape(cur, ref[0], s);
    if p < |cur2| {
      WantedStep(cur, ref, s, now, of);
      assert Wanted(cur, ref[0]) && ref[0].Name() == now[p].Name();
    } else {
      assert OnlyWanted(cur2, rest, now) && NamedWanted(cur2, rest, now[p].Name());
      var j :| 0 <= j < |rest| && Wanted(cur2, rest[j]) && rest[j].Name() == now[p].Name();
      StillWanted(cur, ref, s, j);
      assert Wanted(cur, ref[j + 1]) && ref[j + 1].Name() == now[p].Name();
    }
  }

  lemma StillWanted(cur: seq<Node>, ref: seq<Node>, s: Stars, j: nat)
    requires ref != [] && Unique(ref) && j < |ref| - 1 && Wanted(CompleteOne(cur, ref[0], s).0, ref[1..][j])
    ensures Wanted(cur, ref[j + 1]) && ref[j + 1] == ref[1..][j]
  {
    CompleteOneShape(cur, ref[0], s);
  }

  /** The completion keeps every entry there, adds exactly a copy of every missing one, and
      gives all the added links of one reference etiquette one etoile. */
  lemma {:induction false} CompleteIsCompleted(cur: seq<Node>, ref: seq<Node>, s: Stars)
    requires AllUnique(cur) && AllUnique(ref)
    ensures var r := Complete(cur, ref, s); Completed(cur, ref, r.0, r.1.of) && AllUnique(r.0)
    decreases ref, 0
  {
    if ref == [] {
      assert forall i :: 0 <= i < |cur| ==> KeptAs(cur[i], ref, cur[i], s.of);
    } else {
      var e, r := ref[0], CompleteOne(cur, ref[0], s);
      assert forall j :: 0 <= j < |ref[1..]| ==> ref[1..][j] == ref[j + 1];
      forall i | 0 <= i < |cur| && cur[i].NDir? && e.NDir?
        ensures var q := Complete(cur[i].kids, e.kids, s); Completed(cur[i].kids, e.kids, q.0, q.1.of) && AllUnique(q.0)
      {
        CompleteIsCompleted(cur[i].kids, e.kids, s);
      }
      if e.NDir? {
        CompleteIsCompleted([], e.kids, s);
      }
      CompleteOneUnique(cur, e, s);
      CompleteIsCompleted(r.0, ref[1..], r.1);
      StarsWithin(r.0, ref[1..], r.1);
      CompletedStep(cur, ref, s, Complete(cur, ref, s).0, Complete(cur, ref, s).1.of);
    }
  }

  lemma CompleteOneUnique(cur: seq<Node>, e: Node, s: Stars)
    requires AllUnique(cur)
    requires forall i :: 0 <= i < |cur| && cur[i].NDir? && e.NDir? ==> AllUnique(Complete(cur[i].kids, e.kids, s).0)
    requires e.NDir? ==> AllUnique(Complete([], e.kids, s).0)
    ensures AllUnique(CompleteOne(cur, e, s).0)
  {
    CompleteOneShape(cur, e, s);
    ShapeUnique(cur, e, s);
  }
}
