/** The comparing cursor: a walk through another catalogue's entries, followed here even
    through directories that do not exist here. */
module Comparing {
  import opened Entries
  import opened Snapshots
  import opened Catalogues

  // ----- signatures

  function ToLower(b: bv8): bv8 {
    if 0x41 <= b <= 0x5A then b | CASE_BIT else b
  }

  /** compatible_signature; 'e' and 'f' both stand for plain files. */
  predicate CompatibleSignature(a: bv8, b: bv8) {
    var la, lb := ToLower(a & !SAVED_FAKE_BIT), ToLower(b & !SAVED_FAKE_BIT);
    if la == 0x65 || la == 0x66 then lb == 0x65 || lb == 0x66 else lb == la
  }

  lemma LowerSignature(i: Inode)
    ensures ToLower(Signature(i) & !SAVED_FAKE_BIT) == BaseSignature(i.payload)
  {
  }

  /** Two inodes are of compatible type iff they are of the same kind, saved or not; the
      former letter e is that of a plain file. */
  lemma CompatibleIffSameKind(i: Inode, j: Inode)
    ensures CompatibleSignature(Signature(i), Signature(j)) <==> BaseSignature(i.payload) == BaseSignature(j.payload)
    ensures CompatibleSignature(0x65, Signature(i)) <==> i.payload.Regular?
    ensures CompatibleSignature(Signature(i), 0x65) <==> i.payload.Regular?
  {
    LowerSignature(i);
    LowerSignature(j);
    BaseIsKnown(i.payload);
    BaseIsKnown(j.payload);
    assert ToLower(0x65 & !SAVED_FAKE_BIT) == 0x65;
    ByLowered(Signature(i), Signature(j), BaseSignature(i.payload), BaseSignature(j.payload));
    ByLowered(0x65, Signature(i), 0x65, BaseSignature(i.payload));
    ByLowered(Signature(i), 0x65, BaseSignature(i.payload), 0x65);
  }

  lemma BaseIsKnown(p: Payload)
    ensures BaseSignature(p) != 0x65 && (BaseSignature(p) == 0x66 <==> p.Regular?)
  {
  }

  lemma ByLowered(a: bv8, b: bv8, x: bv8, y: bv8)
    requires ToLower(a & !SAVED_FAKE_BIT) == x && ToLower(b & !SAVED_FAKE_BIT) == y
    ensures CompatibleSignature(a, b) <==> if x == 0x65 || x == 0x66 then y == 0x65 || y == 0x66 else y == x
  {
  }

  /** The signature of an entry that is an inode. */
  function InodeSignature(e: Entry): Option<bv8> {
    match e
    case EDir(d) => Some(Signature(d.ino))
    case EMirage(_, s) => Some(Signature(s.ino))
    case ELeaf(Plain(_, i)) => Some(Signature(i))
    case ELeaf(IgnoredDir(_, _)) => Some(0x6A)
    case ELeaf(_) => None
  }

  // ----- where the cursor is

  /** The directory being compared, and the missing directories entered below it. */
  datatype Where = Where(dir: DirRef, out: seq<string>)

  /** The deepest existing directory on a path, and the rest of the path. */
  function Deepest(t: Tree, d: DirRef, path: seq<string>): (w: Where)
    requires t.Ok() && d in t.kids
    ensures w.dir in t.kids
    decreases |path|
  {
    if path == [] then Where(d, [])
    else
      match Find(t.kids[d], path[0])
      case Some(EDir(c)) => ChildInTree(t, d, path[0]); Deepest(t, c, path[1..])
      case _ => Where(d, path)
  }

  lemma ChildInTree(t: Tree, d: DirRef, n: string)
    requires t.Ok() && d in t.kids && Find(t.kids[d], n).Some? && Find(t.kids[d], n).value.EDir?
    ensures var c := Find(t.kids[d], n).value.dir; c in t.up && t.up[c] == d && c.name == n
  {
    var i :| 0 <= i < |t.kids[d]| && t.kids[d][i] == Find(t.kids[d], n).value;
  }

  /** The entry a path leads to. */
  function EntryAt(t: Tree, d: DirRef, path: seq<string>): Option<Entry>
    requires t.Ok() && d in t.kids && path != []
    decreases |path|
  {
    var f := Find(t.kids[d], path[0]);
    if |path| == 1 then f
    else
      match f
      case Some(EDir(c)) => ChildInTree(t, d, path[0]); EntryAt(t, c, path[1..])
      case _ => None
  }

  /** How one compared item moves the cursor; None for the end of the root directory. */
  function CompareMove(t: Tree, w: Where, ev: Event): (r: Option<Where>)
    requires t.Ok() && w.dir in t.kids
    ensures r.Some? ==> r.value.dir in t.kids
  {
    match ev
    case Eod =>
      if w.out != [] then Some(Where(w.dir, w.out[..|w.out| - 1]))
      else if w.dir in t.up then Some(Where(t.up[w.dir], []))
      else None
    case Item(EDir(d)) =>
      if w.out != [] then Some(Where(w.dir, w.out + [d.name]))
      else (match Find(t.kids[w.dir], d.name)
            case Some(EDir(c)) => ChildInTree(t, w.dir, d.name); Some(Where(c, []))
            case _ => Some(Where(w.dir, [d.name])))
    case Item(_) => Some(w)
  }

  /** The same item, seen from the stream alone: the path of the current directory. */
  function PathMove(path: seq<string>, ev: Event): Option<seq<string>> {
    match ev
    case Eod => if path == [] then None else Some(path[..|path| - 1])
    case Item(EDir(d)) => Some(path + [d.name])
    case Item(_) => Some(path)
  }

  lemma {:induction false} DeepestPush(t: Tree, d: DirRef, path: seq<string>, n: string)
    requires t.Ok() && d in t.kids
    ensures var w := Deepest(t, d, path);
            Deepest(t, d, path + [n]) == if w.out != [] then Where(w.dir, w.out + [n]) else Deepest(t, w.dir, [n])
    decreases |path|
  {
    if path == [] {
      assert path + [n] == [n];
    } else {
      assert (path + [n])[0] == path[0] && (path + [n])[1..] == path[1..] + [n];
      match Find(t.kids[d], path[0])
      case Some(EDir(c)) =>
        ChildInTree(t, d, path[0]);
        DeepestPush(t, c, path[1..], n);
      case _ =>
    }
  }

  lemma {:induction false} DeepestPop(t: Tree, d: DirRef, path: seq<string>)
    requires t.Ok() && d in t.kids && path != []
    ensures var w := Deepest(t, d, path);
            if w.out != [] then Deepest(t, d, path[..|path| - 1]) == Where(w.dir, w.out[..|w.out| - 1])
            else w.dir in t.up && Deepest(t, d, path[..|path| - 1]) == Where(t.up[w.dir], [])
    decreases |path|
  {
    var n, p := path[|path| - 1], path[..|path| - 1];
    assert path == p + [n];
    DeepestPush(t, d, p, n);
    var w := Deepest(t, d, p);
    if w.out == [] && Find(t.kids[w.dir], n).Some? && Find(t.kids[w.dir], n).value.EDir? {
      ChildInTree(t, w.dir, n);
    }
  }

  /** One item: if the cursor is the lookup of the stream's path before it, it still is
      after it, and the only failure is a close without an open. */
  lemma CompareRefinesLookup(t: Tree, path: seq<string>, ev: Event)
    requires t.Ok()
    ensures var r, p := CompareMove(t, Deepest(t, t.root, path), ev), PathMove(path, ev);
            && (r.Some? <==> p.Some?)
            && (p.Some? ==> r.value == Deepest(t, t.root, p.value))
  {
    var w := Deepest(t, t.root, path);
    match ev
    case Eod =>
      if path != [] {
        DeepestPop(t, t.root, path);
      }
    case Item(EDir(d)) =>
      DeepestPush(t, t.root, path, d.name);
    case Item(_) =>
  }

  /** The cursor after a stream of items, from reset_compare. */
  function CompareRun(t: Tree, evs: seq<Event>): (r: Option<Where>)
    requires t.Ok()
    ensures r.Some? ==> r.value.dir in t.kids
  {
    if evs == [] then Some(Where(t.root, []))
    else match CompareRun(t, evs[..|evs| - 1])
      case Some(w) => CompareMove(t, w, evs[|evs| - 1])
      case None => None
  }

  function PathRun(evs: seq<Event>): Option<seq<string>> {
    if evs == [] then Some([])
    else match PathRun(evs[..|evs| - 1])
      case Some(p) => PathMove(p, evs[|evs| - 1])
      case None => None
  }

  /** After any stream, the comparing cursor is the deepest existing directory on the
      stream's path, with exactly the missing suffix. */
  lemma {:induction false} CompareRunRefinesLookup(t: Tree, evs: seq<Event>)
    requires t.Ok()
    ensures CompareRun(t, evs).Some? <==> PathRun(evs).Some?
    ensures PathRun(evs).Some? ==> CompareRun(t, evs).value == Deepest(t, t.root, PathRun(evs).value)
    decreases |evs|
  {
    if evs != [] {
      var pre := evs[..|evs| - 1];
      CompareRunRefinesLookup(t, pre);
      if PathRun(pre).Some? {
        CompareRefinesLookup(t, PathRun(pre).value, evs[|evs| - 1]);
      }
    }
  }

  // ----- what is answered

  datatype Answer = Present(extracted: Entry) | Closed | Absent | NoParent | Bug

  lemma {:induction false} EntryAtDeepest(t: Tree, d: DirRef, path: seq<string>, n: string)
    requires t.Ok() && d in t.kids
    ensures var w := Deepest(t, d, path);
            EntryAt(t, d, path + [n]) == if w.out == [] then Find(t.kids[w.dir], n) else None
    decreases |path|
  {
    if path == [] {
      assert path + [n] == [n];
    } else {
      assert (path + [n])[0] == path[0] && (path + [n])[1..] == path[1..] + [n];
      match Find(t.kids[d], path[0])
      case Some(EDir(c)) =>
        ChildInTree(t, d, path[0]);
        EntryAtDeepest(t, c, path[1..], n);
      case _ =>
    }
  }

  /** The name same_as compares: that of the hosted inode for a link, which is the name of
      the link it was first met with. */
  function ComparedName(e: Entry): string
    reads if e.EMirage? then {e.star} else {}
  {
    if e.EMirage? then e.star.hostedName else e.Name()
  }

  /** same_as between the entries found and searched. */
  method SameAs(src: Entry, dst: Entry) returns (b: bool)
    requires InodeSignature(src).Some? && InodeSignature(dst).Some?
    ensures b <==> ComparedName(src) == ComparedName(dst) &&
                   CompatibleSignature(InodeSignature(dst).value, InodeSignature(src).value)
  {
    var a, c := ComparedName(src), ComparedName(dst);
    b := a == c && CompatibleSignature(InodeSignature(dst).value, InodeSignature(src).value);
  }

  /** The target and the entry of that name found here are of compatible nature. */
  predicate Compatible(target: Entry, found: Entry) {
    if InodeSignature(target).Some? then
      InodeSignature(found).Some? && CompatibleSignature(InodeSignature(found).value, InodeSignature(target).value)
    else
      target.ELeaf? && target.leaf.Detruit? && found.ELeaf? && found.leaf.Detruit?
  }

  /** What is answered of an entry, when the directory searched has f under its name. */
  function AnswerFor(target: Entry, f: Option<Entry>): Answer
    reads if target.EMirage? then {target.star} else {}
    reads if f.Some? && f.value.EMirage? then {f.value.star} else {}
  {
    if f.None? then Absent
    else if target.ELeaf? && target.leaf.Ignored? then Bug
    else if !Compatible(target, f.value) then Absent
    else if InodeSignature(target).Some? && ComparedName(target) != ComparedName(f.value) then Absent
    else if f.value.EMirage? then Present(ELeaf(Plain(f.value.star.hostedName, f.value.star.ino)))
    else Present(f.value)
  }

  // ----- the same answer, by the nature of the two entries

  ghost predicate SameClass(a: Payload, b: Payload) {
    && (a.Regular? <==> b.Regular?) && (a.Door? <==> b.Door?) && (a.Lien? <==> b.Lien?)
    && (a.CharDev? <==> b.CharDev?) && (a.BlockDev? <==> b.BlockDev?)
    && (a.Tube? <==> b.Tube?) && (a.Prise? <==> b.Prise?) && (a.Dir? <==> b.Dir?)
  }

  /** An inode i called n is found in f, a directory, a link or a plain inode, iff that is of
      the class of i and of the name n, the name of a link being that of what it hosts. */
  ghost predicate AnswersInode(i: Inode, n: string, f: Entry, r: Answer)
    reads if f.EMirage? then {f.star} else {}
  {
    match f
    case EDir(d) => r == if SameClass(i.payload, d.ino.payload) && d.name == n then Present(f) else Absent
    case EMirage(_, s) =>
      r == if SameClass(i.payload, s.ino.payload) && s.hostedName == n then Present(ELeaf(Plain(n, s.ino))) else Absent
    case ELeaf(Plain(m, j)) => r == if SameClass(i.payload, j.payload) && m == n then Present(f) else Absent
    case ELeaf(_) => r == Absent
  }

  /** r is the answer for target when e has its name. A deletion record is found in a
      deletion record only, an inode in an inode only. */
  ghost predicate Answers(target: Entry, e: Option<Entry>, r: Answer)
    reads if target.EMirage? then {target.star} else {}
    reads if e.Some? && e.value.EMirage? then {e.value.star} else {}
  {
    if e.None? then r == Absent
    else
      match target
      case EDir(d) => AnswersInode(d.ino, d.name, e.value, r)
      case EMirage(_, s) => AnswersInode(s.ino, s.hostedName, e.value, r)
      case ELeaf(Plain(n, i)) => AnswersInode(i, n, e.value, r)
      case ELeaf(Detruit(_, _, _)) =>
        r == if e.value.ELeaf? && e.value.leaf.Detruit? then Present(e.value) else Absent
      case ELeaf(IgnoredDir(_, _)) =>
        r == if e.value.ELeaf? && e.value.leaf.IgnoredDir? then Present(e.value) else Absent
      case ELeaf(Ignored(_)) => r == Bug
  }

  /** A directory or a plain inode of the class of i is there. */
  ghost predicate FoundOfClass(i: Inode, e: Option<Entry>) {
    match e
    case Some(EDir(d)) => SameClass(i.payload, d.ino.payload)
    case Some(ELeaf(Plain(_, j))) => SameClass(i.payload, j.payload)
    case _ => false
  }

  lemma SameLetter(i: Inode, j: Inode)
    ensures CompatibleSignature(Signature(i), Signature(j)) <==> SameClass(i.payload, j.payload)
    ensures CompatibleSignature(Signature(i), Signature(j)) <==> CompatibleSignature(Signature(j), Signature(i))
    ensures !CompatibleSignature(0x6A, Signature(i)) && !CompatibleSignature(Signature(i), 0x6A)
  {
    CompatibleIffSameKind(i, j);
    CompatibleIffSameKind(j, i);
    LowerSignature(i);
  }

  lemma AnswersInodeMade(target: Entry, i: Inode, n: string, f: Entry)
    requires InodeSignature(target) == Some(Signature(i)) && ComparedName(target) == n
    ensures AnswersInode(i, n, f, AnswerFor(target, Some(f)))
  {
    match f
    case EDir(d) => SameLetter(i, d.ino);
    case EMirage(_, s) => SameLetter(i, s.ino);
    case ELeaf(Plain(_, j)) => SameLetter(i, j);
    case ELeaf(_) => SameLetter(i, i);
  }

  lemma IgnoredDirAnswered(target: Entry, f: Entry)
    requires target.ELeaf? && target.leaf.IgnoredDir? && f.Name() == target.Name()
    ensures Answers(target, Some(f), AnswerFor(target, Some(f)))
  {
    match f
    case EDir(d) => SameLetter(d.ino, d.ino);
    case EMirage(_, s) => SameLetter(s.ino, s.ino);
    case ELeaf(Plain(_, j)) => SameLetter(j, j);
    case ELeaf(_) =>
  }

  /** What compare answers is that. */
  lemma AnswerByNature(target: Entry, e: Option<Entry>)
    requires e.Some? ==> e.value.Name() == target.Name()
    ensures Answers(target, e, AnswerFor(target, e))
  {
    if e.Some? {
      match target
      case EDir(d) => AnswersInodeMade(target, d.ino, d.name, e.value);
      case EMirage(_, s) => AnswersInodeMade(target, s.ino, s.hostedName, e.value);
      case ELeaf(Plain(n, i)) => AnswersInodeMade(target, i, n, e.value);
      case ELeaf(IgnoredDir(_, _)) => IgnoredDirAnswered(target, e.value);
      case ELeaf(_) =>
    }
  }

  method Compare(c: Catalogue, target: Event) returns (r: Answer)
    requires c.Valid()
    modifies c`currentCompare, c`outCompare
    ensures c.Valid()
    ensures var w := old(Where(c.currentCompare, c.outCompare));
            var m := CompareMove(c.tree, w, target);
            && Where(c.currentCompare, c.outCompare) == (if m.Some? then m.value else w)
            && (r == NoParent <==> m.None?)
    ensures target.Item? && old(c.outCompare) == [] ==>
              r == AnswerFor(target.entry, Find(c.tree.kids[old(c.currentCompare)], target.entry.Name()))
    ensures target.Item? && old(c.outCompare) == [] ==>
              Answers(target.entry, Find(c.tree.kids[old(c.currentCompare)], target.entry.Name()), r)
    ensures old(c.outCompare) != [] ==> r == Absent
    ensures target == Eod && old(c.outCompare) == [] && r != NoParent ==> r == Closed
  {
    if c.outCompare != [] {
      if target.Item? && target.entry.EDir? {
        c.outCompare := c.outCompare + [target.entry.dir.name];
      } else if target.Eod? {
        c.outCompare := c.outCompare[..|c.outCompare| - 1];
      }
      return Absent;
    }
    if target.Eod? {
      if c.currentCompare !in c.tree.up {
        return NoParent;
      }
      c.currentCompare := c.tree.up[c.currentCompare];
      return Closed;
    }
    var nom := target.entry;
    var found := c.SearchChildren(c.currentCompare, nom.Name());
    if nom.EDir? {
      if found.Some? && found.value.EDir? {
        ChildInTree(c.tree, c.currentCompare, nom.Name());
        c.currentCompare := found.value.dir;
      } else {
        c.outCompare := c.outCompare + [nom.dir.name];
      }
    }
    r := Judge(nom, found);
    AnswerByNature(nom, found);
  }

  /** The answer for an entry, found being what the directory has under its name. */
  method Judge(nom: Entry, found: Option<Entry>) returns (r: Answer)
    ensures r == AnswerFor(nom, found)
  {
    if found.None? {
      return Absent;
    }
    if InodeSignature(nom).Some? {
      if InodeSignature(found.value).None? {
        return Absent;
      }
      var same := SameAs(nom, found.value);
      if !same {
        return Absent;
      }
    } else if nom.leaf.Detruit? {
      if !(found.value.ELeaf? && found.value.leaf.Detruit?) {
        return Absent;
      }
    } else {
      return Bug;
    }
    match found.value
    case EMirage(_, s) => r := Present(ELeaf(Plain(s.hostedName, s.ino)));
    case e => r := Present(e);
  }

  method ResetCompare(c: Catalogue)
    requires c.Valid()
    modifies c`currentCompare, c`outCompare
    ensures c.Valid() && c.currentCompare == c.tree.root && c.outCompare == []
  {
    c.currentCompare := c.tree.root;
    c.outCompare := [];
  }

  /** A part of a stream that never closes more than it opened is such a stream too. */
  lemma {:induction false} PathRunPrefix(evs: seq<Event>, k: nat)
    requires k <= |evs| && PathRun(evs).Some?
    ensures PathRun(evs[..k]).Some?
    decreases |evs|
  {
    if k < |evs| {
      assert evs[..|evs| - 1][..k] == evs[..k];
      PathRunPrefix(evs[..|evs| - 1], k);
    } else {
      assert evs[..k] == evs;
    }
  }

  /** Compares all the items of a stream that never closes more than it opened. */
  method CompareAll(c: Catalogue, evs: seq<Event>)
    requires c.Valid() && PathRun(evs).Some?
    modifies c`currentCompare, c`outCompare
    ensures c.Valid() && Where(c.currentCompare, c.outCompare) == Deepest(c.tree, c.tree.root, PathRun(evs).value)
  {
    ResetCompare(c);
    var k := 0;
    assert evs[..0] == [];
    while k < |evs|
      invariant k <= |evs| && c.Valid() && PathRun(evs[..k]).Some?
      invariant Where(c.currentCompare, c.outCompare) == Deepest(c.tree, c.tree.root, PathRun(evs[..k]).value)
    {
      PathRunPrefix(evs, k + 1);
      assert evs[..k + 1][..k] == evs[..k];
      CompareRefinesLookup(c.tree, PathRun(evs[..k]).value, evs[k]);
      var r := Compare(c, evs[k]);
      k := k + 1;
    }
    assert evs[..k] == evs;
  }

  /** After any such stream, the answer for an entry is that of the entry at its full path,
      by the nature of both. For a plain inode or a directory, no link being there, it is
      found iff that is a directory or a plain inode of its class; a deletion record is found
      iff a deletion record is there. */
  method CompareAfter(c: Catalogue, evs: seq<Event>, target: Entry) returns (r: Answer)
    requires c.Valid() && PathRun(evs).Some?
    modifies c`currentCompare, c`outCompare
    ensures c.Valid()
    ensures var e := EntryAt(c.tree, c.tree.root, PathRun(evs).value + [target.Name()]);
            && r == AnswerFor(target, e)
            && Answers(target, e, r)
            && (target.ELeaf? && target.leaf.Detruit? ==>
                  r == if e.Some? && e.value.ELeaf? && e.value.leaf.Detruit? then Present(e.value) else Absent)
            && (target.EDir? && (e.Some? ==> !e.value.EMirage?) ==>
                  r == if FoundOfClass(target.dir.ino, e) then Present(e.value) else Absent)
            && (target.ELeaf? && target.leaf.Plain? && (e.Some? ==> !e.value.EMirage?) ==>
                  r == if FoundOfClass(target.leaf.ino, e) then Present(e.value) else Absent)
            && (!target.EMirage? && !(target.ELeaf? && target.leaf.Ignored?) && (e.Some? ==> !e.value.EMirage?) ==>
                  r == if e.Some? && Compatible(target, e.value) then Present(e.value) else Absent)
  {
    CompareAll(c, evs);
    EntryAtDeepest(c.tree, c.tree.root, PathRun(evs).value, target.Name());
    FoundHasName(c.tree, c.currentCompare, target.Name());
    r := Compare(c, Item(target));
  }

  lemma FoundHasName(t: Tree, d: DirRef, n: string)
    requires t.Ok() && d in t.kids
    ensures var f := Find(t.kids[d], n); f.Some? ==> f.value.Name() == n
  {
  }

  /** One link to a tube on both sides, under one name; here the tube was first met under that
      name, there under another one: the link is not found. */
  method LinkNotFound(root: Inode, tube: Inode, here: string, there: string)
    returns (c: Catalogue, target: Entry, r: Answer)
    requires tube.payload == Tube && here != there
    ensures c.Valid() && EntryAt(c.tree, c.tree.root, [target.Name()]).Some?
    ensures Compatible(target, EntryAt(c.tree, c.tree.root, [target.Name()]).value)
    ensures r == Absent
  {
    c := new Catalogue(root);
    var mine := new Etoile(here, tube, 0);
    var other := new Etoile(there, tube, 0);
    var e := EMirage(here, mine);
    assert Find(c.tree.kids[c.currentAdd], here).None?;
    var ok := c.Add(Item(e));
    FindOnly(e);
    assert c.tree.kids[c.tree.root] == [e];
    target := EMirage(here, other);
    assert PathRun([]) == Some([]) && [] + [here] == [here];
    r := CompareAfter(c, [], target);
  }

  lemma FindOnly(e: Entry)
    ensures Find([e], e.Name()) == Some(e)
  {
  }
}
