/** Recording as destroyed what a reference catalogue has and the current one has not:
    the merge, as a function of the two trees, and what it guarantees. */
module Destruction {
  import opened Entries
  import opened ValueTrees
  import opened Forests
  import opened Tokens

  const SIGNATURE_IGNORED: bv8 := 0x69
  const SIGNATURE_IGNORED_DIR: bv8 := 0x6A
  const SIGNATURE_DETRUIT: bv8 := 0x78

  predicate IsDetruit(n: Node) {
    n.NLeaf? && n.leaf.Detruit?
  }

  /** The signature of the entry itself, or of the hosted inode of a link. */
  function SignatureOf(n: Node): bv8 {
    match n
    case NDir(_, ino, _) => Signature(ino)
    case NLink(_, _, ino) => Signature(ino)
    case NLeaf(Plain(_, ino)) => Signature(ino)
    case NLeaf(Detruit(_, _, _)) => SIGNATURE_DETRUIT
    case NLeaf(Ignored(_)) => SIGNATURE_IGNORED
    case NLeaf(IgnoredDir(_, _)) => SIGNATURE_IGNORED_DIR
  }

  /** The deletion record of a reference entry, dated like the directory it is put in. */
  function Gone(n: Node, mtime: nat): Node {
    NLeaf(Detruit(n.Name(), SignatureOf(n), mtime))
  }

  /** One reference entry met in a directory. */
  function MergeOne(cur: seq<Node>, e: Node, mtime: nat): seq<Node>
    decreases e, 1
  {
    if IsDetruit(e) then cur
    else
      match IndexOf(cur, e.Name())
      case None => cur + [Gone(e, mtime)]
      case Some(i) =>
        if e.NDir? && cur[i].NDir?
        then SetKids(cur, e.name, Merge(cur[i].kids, e.kids, cur[i].ino.lastModif))
        else cur
  }

  /** All the entries of a reference directory, in order. */
  function Merge(cur: seq<Node>, ref: seq<Node>, mtime: nat): seq<Node>
    decreases ref, 0
  {
    if ref == [] then cur else Merge(MergeOne(cur, ref[0], mtime), ref[1..], mtime)
  }

  // ----- the same result, stated without an order of events

  /** An entry of the current directory afterwards: only a directory that is a directory
      in the reference too is entered. */
  function MergedNode(n: Node, ref: seq<Node>): Node
    decreases n, 2
  {
    match n
    case NDir(name, ino, kids) =>
      var j := IndexOf(ref, name);
      if j.Some? && ref[j.value].NDir? then NDir(name, ino, Exact(kids, ref[j.value].kids, ino.lastModif)) else n
    case _ => n
  }

  /** Each non-deleted entry of the reference whose name is missing, in order. */
  function Missing(cur: seq<Node>, ref: seq<Node>, mtime: nat): seq<Node>
    decreases ref
  {
    if ref == [] then []
    else
      (if !IsDetruit(ref[0]) && IndexOf(cur, ref[0].Name()).None? then [Gone(ref[0], mtime)] else [])
      + Missing(cur, ref[1..], mtime)
  }

  /** Existing entries in place, then one deletion record per missing entry. */
  function Exact(cur: seq<Node>, ref: seq<Node>, mtime: nat): seq<Node>
    decreases cur, 4
  {
    Kept(cur, ref) + Missing(cur, ref, mtime)
  }

  function Kept(cur: seq<Node>, ref: seq<Node>): (r: seq<Node>)
    ensures |r| == |cur|
    decreases cur, 3
  {
    seq(|cur|, i requires 0 <= i < |cur| => MergedNode(cur[i], ref))
  }

  /** The first reference entry does not matter for an entry of another name, nor when
      they are not both directories. */
  lemma MergedNodeTail(n: Node, ref: seq<Node>)
    requires ref != [] && Unique(ref)
    requires n.Name() != ref[0].Name() || !n.NDir? || !ref[0].NDir?
    ensures MergedNode(n, ref) == MergedNode(n, ref[1..])
  {
    if n.NDir? && n.Name() == ref[0].Name() {
      forall j | 0 <= j < |ref[1..]| ensures ref[1..][j].Name() != n.Name() {
        assert ref[1..][j] == ref[j + 1];
      }
    }
  }

  lemma {:induction false} MissingSameNames(a: seq<Node>, b: seq<Node>, ref: seq<Node>, mtime: nat)
    requires forall j :: 0 <= j < |ref| ==> (IndexOf(a, ref[j].Name()).None? <==> IndexOf(b, ref[j].Name()).None?)
    ensures Missing(a, ref, mtime) == Missing(b, ref, mtime)
    decreases ref
  {
    if ref != [] {
      assert forall j :: 0 <= j < |ref[1..]| ==> ref[1..][j] == ref[j + 1];
      MissingSameNames(a, b, ref[1..], mtime);
    }
  }

  lemma UniqueTail(f: seq<Node>)
    requires f != [] && AllUnique(f)
    ensures AllUnique(f[1..]) && forall j :: 0 <= j < |f[1..]| ==> f[1..][j].Name() != f[0].Name()
  {
    assert forall j :: 0 <= j < |f[1..]| ==> f[1..][j] == f[j + 1];
  }

  /** One step adds at most one entry, named like e, and changes at most the children of
      the directory named like e. */
  lemma MergeOneShape(cur: seq<Node>, e: Node, mtime: nat)
    ensures var r := MergeOne(cur, e, mtime);
            && |cur| <= |r| <= |cur| + 1
            && (|r| == |cur| + 1 <==> !IsDetruit(e) && IndexOf(cur, e.Name()).None?)
            && (|r| == |cur| + 1 ==> r == cur + [Gone(e, mtime)])
            && (forall i {:trigger r[i]} :: 0 <= i < |cur| ==> r[i].Name() == cur[i].Name())
            && (forall i {:trigger r[i]} ::
                  0 <= i < |cur| && (IndexOf(cur, e.Name()) != Some(i) || !e.NDir? || !cur[i].NDir?) ==> r[i] == cur[i])
    ensures forall n :: n != e.Name() ==> IndexOf(MergeOne(cur, e, mtime), n) == IndexOf(cur, n)
  {
    var r := MergeOne(cur, e, mtime);
    forall n | n != e.Name() ensures IndexOf(r, n) == IndexOf(cur, n) {
      IndexOfSameNames(cur, r, n);
    }
  }

  lemma ExactSlot(cur: seq<Node>, ref: seq<Node>, mtime: nat, i: nat)
    requires ref != [] && AllUnique(ref) && i < |cur|
    requires cur[i].NDir? && ref[0].NDir? ==>
               Merge(cur[i].kids, ref[0].kids, cur[i].ino.lastModif) ==
                 Exact(cur[i].kids, ref[0].kids, cur[i].ino.lastModif)
    requires Unique(cur)
    ensures i < |MergeOne(cur, ref[0], mtime)|
    ensures MergedNode(MergeOne(cur, ref[0], mtime)[i], ref[1..]) == MergedNode(cur[i], ref)
  {
    var e, rest, cur2 := ref[0], ref[1..], MergeOne(cur, ref[0], mtime);
    UniqueTail(ref);
    MergeOneShape(cur, e, mtime);
    if cur[i].Name() == e.Name() && e.NDir? && cur[i].NDir? {
      IndexOfUnique(cur, e.Name(), i);
      assert IndexOf(rest, e.Name()).None?;
      assert IndexOf(ref, e.Name()) == Some(0);
    } else {
      assert cur2[i] == cur[i];
      MergedNodeTail(cur[i], ref);
    }
  }

  /** What one reference entry changes, in the order-free form. */
  lemma ExactStep(cur: seq<Node>, ref: seq<Node>, mtime: nat)
    requires ref != [] && AllUnique(cur) && AllUnique(ref)
    requires forall i :: 0 <= i < |cur| && cur[i].NDir? && ref[0].NDir? ==>
               Merge(cur[i].kids, ref[0].kids, cur[i].ino.lastModif) ==
                 Exact(cur[i].kids, ref[0].kids, cur[i].ino.lastModif)
    ensures Exact(MergeOne(cur, ref[0], mtime), ref[1..], mtime) == Exact(cur, ref, mtime)
  {
    var e, rest, cur2 := ref[0], ref[1..], MergeOne(cur, ref[0], mtime);
    UniqueTail(ref);
    MergeOneShape(cur, e, mtime);
    MissingSameNames(cur2, cur, rest, mtime);
    var added := if |cur2| > |cur| then [Gone(e, mtime)] else [];
    KeptStep(cur, ref, mtime);
    Assoc(Kept(cur, ref), added, Missing(cur, rest, mtime));
  }

  lemma KeptStep(cur: seq<Node>, ref: seq<Node>, mtime: nat)
    requires ref != [] && AllUnique(cur) && AllUnique(ref)
    requires forall i :: 0 <= i < |cur| && cur[i].NDir? && ref[0].NDir? ==>
               Merge(cur[i].kids, ref[0].kids, cur[i].ino.lastModif) ==
                 Exact(cur[i].kids, ref[0].kids, cur[i].ino.lastModif)
    ensures var cur2 := MergeOne(cur, ref[0], mtime);
            Kept(cur2, ref[1..]) == Kept(cur, ref) + if |cur2| > |cur| then [Gone(ref[0], mtime)] else []
  {
    var cur2 := MergeOne(cur, ref[0], mtime);
    MergeOneShape(cur, ref[0], mtime);
    forall i | 0 <= i < |cur| ensures Kept(cur2, ref[1..])[i] == Kept(cur, ref)[i] {
      ExactSlot(cur, ref, mtime, i);
    }
  }

  lemma {:induction false} MergeIsExact(cur: seq<Node>, ref: seq<Node>, mtime: nat)
    requires AllUnique(cur) && AllUnique(ref)
    ensures AllUnique(Merge(cur, ref, mtime))
    ensures Merge(cur, ref, mtime) == Exact(cur, ref, mtime)
    decreases ref
  {
    if ref == [] {
      assert forall i :: 0 <= i < |cur| ==> MergedNode(cur[i], []) == cur[i];
      assert Exact(cur, ref, mtime) == cur;
    } else {
      var e, cur2 := ref[0], MergeOne(cur, ref[0], mtime);
      forall i | 0 <= i < |cur| && cur[i].NDir? && e.NDir?
        ensures Merge(cur[i].kids, e.kids, cur[i].ino.lastModif) == Exact(cur[i].kids, e.kids, cur[i].ino.lastModif)
        ensures AllUnique(Merge(cur[i].kids, e.kids, cur[i].ino.lastModif))
      {
        MergeIsExact(cur[i].kids, e.kids, cur[i].ino.lastModif);
      }
      ExactStep(cur, ref, mtime);
      UniqueTail(ref);
      MergeOneUnique(cur, e, mtime);
      MergeIsExact(cur2, ref[1..], mtime);
    }
  }

  lemma MergeOneUnique(cur: seq<Node>, e: Node, mtime: nat)
    requires AllUnique(cur)
    requires forall i :: 0 <= i < |cur| && cur[i].NDir? && e.NDir? ==>
               AllUnique(Merge(cur[i].kids, e.kids, cur[i].ino.lastModif))
    ensures AllUnique(MergeOne(cur, e, mtime))
  {
    MergeOneShape(cur, e, mtime);
    var r := MergeOne(cur, e, mtime);
    forall i, j | 0 <= i < j < |r| ensures r[i].Name() != r[j].Name() {
    }
  }

  lemma {:induction false} MissingHas(cur: seq<Node>, ref: seq<Node>, mtime: nat, j: nat)
    requires j < |ref| && !IsDetruit(ref[j]) && IndexOf(cur, ref[j].Name()).None?
    ensures Gone(ref[j], mtime) in Missing(cur, ref, mtime)
    decreases ref
  {
    if j > 0 {
      assert ref[1..][j - 1] == ref[j];
      MissingHas(cur, ref[1..], mtime, j - 1);
    }
  }

  lemma {:induction false} MissingOnly(cur: seq<Node>, ref: seq<Node>, mtime: nat, k: nat)
    requires k < |Missing(cur, ref, mtime)|
    ensures exists j :: 0 <= j < |ref| && !IsDetruit(ref[j]) && IndexOf(cur, ref[j].Name()).None? &&
                        Missing(cur, ref, mtime)[k] == Gone(ref[j], mtime)
    decreases ref
  {
    var here := !IsDetruit(ref[0]) && IndexOf(cur, ref[0].Name()).None?;
    if !here || k > 0 {
      var k2 := if here then k - 1 else k;
      MissingOnly(cur, ref[1..], mtime, k2);
      var j :| 0 <= j < |ref[1..]| && !IsDetruit(ref[1..][j]) && IndexOf(cur, ref[1..][j].Name()).None? &&
               Missing(cur, ref[1..], mtime)[k2] == Gone(ref[1..][j], mtime);
      assert ref[1..][j] == ref[j + 1];
    }
  }

  lemma {:induction false} NothingMissing(cur: seq<Node>, ref: seq<Node>, mtime: nat)
    requires forall j :: 0 <= j < |ref| && !IsDetruit(ref[j]) ==> IndexOf(cur, ref[j].Name()).Some?
    ensures Missing(cur, ref, mtime) == []
    decreases ref
  {
    if ref != [] {
      assert forall j :: 0 <= j < |ref[1..]| ==> ref[1..][j] == ref[j + 1];
      NothingMissing(cur, ref[1..], mtime);
    }
  }

  lemma ExactAt(cur: seq<Node>, ref: seq<Node>, mtime: nat, i: nat)
    requires i < |Exact(cur, ref, mtime)|
    ensures i < |cur| ==> Exact(cur, ref, mtime)[i] == MergedNode(cur[i], ref)
    ensures i >= |cur| ==> exists j :: 0 <= j < |ref| && !IsDetruit(ref[j]) && IndexOf(cur, ref[j].Name()).None? &&
                                       Exact(cur, ref, mtime)[i] == Gone(ref[j], mtime)
  {
    if i >= |cur| {
      MissingOnly(cur, ref, mtime, i - |cur|);
    }
  }

  // ----- the same, each record and each directory described by its fields

  /** n is the deletion record of e: its name, the letter of what it was, the date given. */
  ghost predicate RecordOfEntry(e: Node, n: Node, mtime: nat) {
    && n.NLeaf? && n.leaf.Detruit? && n.leaf.leafName == e.Name() && n.leaf.date == mtime
    && match e
       case NDir(_, ino, _) => SignedAs(ino, n.leaf.signe)
       case NLink(_, _, ino) => SignedAs(ino, n.leaf.signe)
       case NLeaf(Plain(_, ino)) => SignedAs(ino, n.leaf.signe)
       case NLeaf(Ignored(_)) => n.leaf.signe == 0x69
       case NLeaf(IgnoredDir(_, _)) => n.leaf.signe == 0x6A
       case NLeaf(Detruit(_, _, _)) => false
  }

  /** e is no deletion record and no entry of cur has its name. */
  ghost predicate Lost(cur: seq<Node>, e: Node) {
    !(e.NLeaf? && e.leaf.Detruit?) && forall i {:trigger cur[i]} :: 0 <= i < |cur| ==> cur[i].Name() != e.Name()
  }

  /** b is what the entry a, already there, becomes: a directory that is one in the reference
      too keeps its name and inode, and records what is lost below it. */
  ghost predicate EntryRecorded(a: Node, ref: seq<Node>, b: Node)
    decreases a, 0
  {
    if a.NDir? && exists j :: 0 <= j < |ref| && ref[j].NDir? && ref[j].name == a.name then
      && b.NDir? && b.name == a.name && b.ino == a.ino
      && forall j {:trigger ref[j]} :: 0 <= j < |ref| && ref[j].NDir? && ref[j].name == a.name ==>
           Recorded(a.kids, ref[j].kids, b.kids, a.ino.lastModif)
    else b == a
  }

  /** now is cur with what it has lost of ref recorded: the entries of cur at their places,
      then one record of each lost entry. */
  ghost predicate Recorded(cur: seq<Node>, ref: seq<Node>, now: seq<Node>, mtime: nat)
    decreases cur, 1
  {
    && |cur| <= |now| && Unique(now)
    && (forall i {:trigger now[i]} :: 0 <= i < |cur| ==> EntryRecorded(cur[i], ref, now[i]))
    && RecordsOnly(cur, ref, now, mtime)
    && EachRecorded(cur, ref, now, mtime)
  }

  ghost predicate RecordsOnly(cur: seq<Node>, ref: seq<Node>, now: seq<Node>, mtime: nat) {
    forall k {:trigger now[k]} :: |cur| <= k < |now| ==>
      exists j :: 0 <= j < |ref| && Lost(cur, ref[j]) && RecordOfEntry(ref[j], now[k], mtime)
  }

  ghost predicate EachRecorded(cur: seq<Node>, ref: seq<Node>, now: seq<Node>, mtime: nat) {
    forall j {:trigger ref[j]} :: 0 <= j < |ref| && Lost(cur, ref[j]) ==>
      exists k :: |cur| <= k < |now| && RecordOfEntry(ref[j], now[k], mtime)
  }

  lemma GoneIsRecord(e: Node, mtime: nat)
    requires !IsDetruit(e)
    ensures RecordOfEntry(e, Gone(e, mtime), mtime)
  {
    match e
    case NDir(_, ino, _) => SignedIsRead(ino, Signature(ino));
    case NLink(_, _, ino) => SignedIsRead(ino, Signature(ino));
    case NLeaf(Plain(_, ino)) => SignedIsRead(ino, Signature(ino));
    case NLeaf(_) =>
  }

  lemma RecordsMade(cur: seq<Node>, ref: seq<Node>, mtime: nat)
    ensures RecordsOnly(cur, ref, Exact(cur, ref, mtime), mtime)
    ensures EachRecorded(cur, ref, Exact(cur, ref, mtime), mtime)
  {
    var now := Exact(cur, ref, mtime);
    forall k {:trigger now[k]} | |cur| <= k < |now|
      ensures exists j :: 0 <= j < |ref| && Lost(cur, ref[j]) && RecordOfEntry(ref[j], now[k], mtime)
    {
      ExactAt(cur, ref, mtime, k);
      var j :| 0 <= j < |ref| && !IsDetruit(ref[j]) && IndexOf(cur, ref[j].Name()).None? &&
               now[k] == Gone(ref[j], mtime);
      GoneIsRecord(ref[j], mtime);
    }
    forall j {:trigger ref[j]} | 0 <= j < |ref| && Lost(cur, ref[j])
      ensures exists k :: |cur| <= k < |now| && RecordOfEntry(ref[j], now[k], mtime)
    {
      MissingHas(cur, ref, mtime, j);
      GoneIsRecord(ref[j], mtime);
      var k :| 0 <= k < |Missing(cur, ref, mtime)| && Missing(cur, ref, mtime)[k] == Gone(ref[j], mtime);
      assert now[|cur| + k] == Gone(ref[j], mtime);
    }
  }

  /** The merge records what is lost, in every pair of directories of one path. */
  lemma {:induction false} MergeRecords(cur: seq<Node>, ref: seq<Node>, mtime: nat)
    requires AllUnique(cur) && AllUnique(ref)
    ensures Recorded(cur, ref, Merge(cur, ref, mtime), mtime)
    decreases cur
  {
    var now := Merge(cur, ref, mtime);
    MergeIsExact(cur, ref, mtime);
    RecordsMade(cur, ref, mtime);
    forall i {:trigger now[i]} | 0 <= i < |cur| ensures EntryRecorded(cur[i], ref, now[i]) {
      ExactAt(cur, ref, mtime, i);
      var a := cur[i];
      forall j {:trigger ref[j]} | 0 <= j < |ref| && ref[j].NDir? && a.NDir? && ref[j].name == a.name
        ensures IndexOf(ref, a.name) == Some(j)
        ensures now[i].NDir? && Recorded(a.kids, ref[j].kids, now[i].kids, a.ino.lastModif)
      {
        IndexOfUnique(ref, a.name, j);
        MergeRecords(a.kids, ref[j].kids, a.ino.lastModif);
        MergeIsExact(a.kids, ref[j].kids, a.ino.lastModif);
      }
    }
  }

  lemma HasName(f: seq<Node>, i: nat)
    requires i < |f|
    ensures IndexOf(f, f[i].Name()).Some?
  {
  }

  /** Some non-deleted entry of that name. */
  ghost predicate Alive(ref: seq<Node>, n: string) {
    exists j :: 0 <= j < |ref| && !IsDetruit(ref[j]) && ref[j].Name() == n
  }

  lemma MissingNamed(cur: seq<Node>, ref: seq<Node>, mtime: nat, n: string)
    requires IndexOf(cur, n).None? && Alive(ref, n)
    ensures IndexOf(Exact(cur, ref, mtime), n).Some?
  {
    var j :| 0 <= j < |ref| && !IsDetruit(ref[j]) && ref[j].Name() == n;
    MissingHas(cur, ref, mtime, j);
    var k :| 0 <= k < |Missing(cur, ref, mtime)| && Missing(cur, ref, mtime)[k] == Gone(ref[j], mtime);
    HasName(Exact(cur, ref, mtime), |cur| + k);
  }

  lemma ExactNamed(cur: seq<Node>, ref: seq<Node>, mtime: nat, i: nat)
    requires i < |Exact(cur, ref, mtime)|
    ensures var n := Exact(cur, ref, mtime)[i].Name(); IndexOf(cur, n).Some? || Alive(ref, n)
  {
    ExactAt(cur, ref, mtime, i);
    if i < |cur| {
      HasName(cur, i);
    }
  }

  /** The names afterwards are the old names plus the non-deleted names of the reference. */
  lemma MergedNames(cur: seq<Node>, ref: seq<Node>, mtime: nat, n: string)
    requires AllUnique(cur) && AllUnique(ref)
    ensures IndexOf(Merge(cur, ref, mtime), n).Some? <==> IndexOf(cur, n).Some? || Alive(ref, n)
  {
    MergeIsExact(cur, ref, mtime);
    var x := Exact(cur, ref, mtime);
    if IndexOf(x, n).Some? {
      ExactNamed(cur, ref, mtime, IndexOf(x, n).value);
    }
    if IndexOf(cur, n).Some? {
      ExactAt(cur, ref, mtime, IndexOf(cur, n).value);
      HasName(x, IndexOf(cur, n).value);
    } else if Alive(ref, n) {
      MissingNamed(cur, ref, mtime, n);
    }
  }

  /** A second call changes nothing. */
  lemma {:induction false} MergeTwice(cur: seq<Node>, ref: seq<Node>, mtime: nat)
    requires AllUnique(cur) && AllUnique(ref)
    ensures Merge(Merge(cur, ref, mtime), ref, mtime) == Merge(cur, ref, mtime)
    decreases cur
  {
    var x := Merge(cur, ref, mtime);
    MergeIsExact(cur, ref, mtime);
    MergeIsExact(x, ref, mtime);
    NothingNewMissing(cur, ref, mtime);
    forall i | 0 <= i < |x| ensures Kept(x, ref)[i] == x[i] {
      ExactAt(cur, ref, mtime, i);
      if i < |cur| {
        KeptTwice(cur, ref, i);
      }
    }
    assert Kept(x, ref) == x;
  }

  lemma NothingNewMissing(cur: seq<Node>, ref: seq<Node>, mtime: nat)
    requires AllUnique(cur) && AllUnique(ref)
    ensures Missing(Merge(cur, ref, mtime), ref, mtime) == []
  {
    var x := Merge(cur, ref, mtime);
    forall j | 0 <= j < |ref| && !IsDetruit(ref[j]) ensures IndexOf(x, ref[j].Name()).Some? {
      MergedNames(cur, ref, mtime, ref[j].Name());
    }
    NothingMissing(x, ref, mtime);
  }

  lemma {:induction false} KeptTwice(cur: seq<Node>, ref: seq<Node>, i: nat)
    requires AllUnique(cur) && AllUnique(ref) && i < |cur|
    ensures MergedNode(MergedNode(cur[i], ref), ref) == MergedNode(cur[i], ref)
    decreases cur, 0
  {
    var n := cur[i];
    if n.NDir? {
      var j := IndexOf(ref, n.name);
      if j.Some? && ref[j.value].NDir? {
        var k, rk, m := n.kids, ref[j.value].kids, n.ino.lastModif;
        MergeTwice(k, rk, m);
        MergeIsExact(k, rk, m);
        MergeIsExact(Exact(k, rk, m), rk, m);
      }
    }
  }
}
