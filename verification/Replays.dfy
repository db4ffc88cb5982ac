/** Reading one catalogue and adding what is read to an empty one copies the tree. */
module Replays {
  import opened Entries
  import opened Snapshots
  import opened Grafting
  import opened Catalogues

  /** clone(): a directory is copied without its children, a link shares its etoile. */
  function Clone(e: Entry, id: nat): Entry {
    match e
    case EDir(d) => EDir(DirRef(id, d.name, d.ino))
    case _ => e
  }

  /** Adds a copy of what was read last. */
  method AddCopy(dst: Catalogue, ev: Event, ghost ts: Tree, ghost r: Reading)
    requires dst.Valid() && ts.NamesOk()
    requires Copied(ts, r, dst.tree, dst.currentAdd) && NextEvent(ts, r) == Some(ev)
    modifies dst`tree, dst`fils, dst`it, dst`currentAdd
    ensures dst.Valid() && Copied(ts, AfterRead(ts, r), dst.tree, dst.currentAdd)
  {
    ghost var td, dd := dst.tree, dst.currentAdd;
    match ev {
      case Item(e) =>
        var c := Clone(e, dst.tree.next);
        CopyIsNew(ts, r, td, dd, e);
        var done := dst.Add(Item(c));
        CopyEntry(ts, r, td, dd, e, c);
      case Eod =>
        CopyEod(ts, r, td, dd);
        var done := dst.Add(Eod);
    }
  }

  /** Reads one item and adds its copy; false once everything has been read. */
  method CopyNext(src: Catalogue, dst: Catalogue) returns (ok: bool)
    requires src.Valid() && dst.Valid() && src != dst
    requires Copied(src.tree, src.Reader(), dst.tree, dst.currentAdd)
    modifies src`currentRead, src`it, dst`tree, dst`fils, dst`it, dst`currentAdd
    ensures src.Valid() && dst.Valid()
    ensures ok ==>
              && Copied(src.tree, src.Reader(), dst.tree, dst.currentAdd)
              && ToRead(src.tree, src.Reader()) < old(ToRead(src.tree, src.Reader()))
    ensures !ok ==> Meaning(dst.tree) == Meaning(src.tree)
  {
    ghost var r := src.Reader();
    var ev;
    ok, ev := src.Read();
    if ok {
      ReadShrinks(src.tree, r);
      AddCopy(dst, ev, src.tree, r);
    } else {
      CopyEnd(src.tree, r, dst.tree, dst.currentAdd);
    }
  }

  method Replay(src: Catalogue) returns (dst: Catalogue)
    requires src.Valid()
    modifies src`currentRead, src`it
    ensures fresh(dst) && dst.Valid() && src.Valid()
    ensures Meaning(dst.tree) == Meaning(src.tree)
  {
    src.ResetRead();
    dst := new Catalogue(src.tree.root.ino);
    dst.ResetAdd();
    ResetIsCopied(src.tree, src.Reader(), dst.tree);
    var ok := true;
    while ok
      invariant fresh(dst) && src.Valid() && dst.Valid()
      invariant ok ==> Copied(src.tree, src.Reader(), dst.tree, dst.currentAdd)
      invariant !ok ==> Meaning(dst.tree) == Meaning(src.tree)
      decreases ok, if ok then ToRead(src.tree, src.Reader()) else 0
    {
      ok := CopyNext(src, dst);
    }
  }
}
