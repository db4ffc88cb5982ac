/** The directory object: an ordered list of entries, a name index beside it and a reading
    cursor, each updated in place. */
module Directories {
  import opened Entries

  function Names(s: seq<Entry>): set<string> {
    set e | e in s :: e.Name()
  }

  /** The name index is exactly the ordered list, seen as a map; names are unique. */
  ghost predicate Indexed(s: seq<Entry>, fils: map<string, Entry>) {
    && UniqueNames(s)
    && (forall i :: 0 <= i < |s| ==> s[i].Name() in fils && fils[s[i].Name()] == s[i])
    && (forall n :: n in fils ==> fils[n] in s && fils[n].Name() == n)
  }

  lemma FindByIndex(s: seq<Entry>, fils: map<string, Entry>, n: string)
    requires Indexed(s, fils)
    ensures Find(s, n) == if n in fils then Some(fils[n]) else None
  {
  }

  lemma IndexedAppend(s: seq<Entry>, fils: map<string, Entry>, r: Entry)
    requires Indexed(s, fils) && Find(s, r.Name()).None?
    ensures Indexed(s + [r], fils[r.Name() := r])
  {
    var s', f' := s + [r], fils[r.Name() := r];
    forall n | n in f' ensures f'[n] in s' && f'[n].Name() == n {
      if n == r.Name() {
        assert s'[|s|] == r;
      } else {
        var i :| 0 <= i < |s| && s[i] == fils[n];
        assert s'[i] == s[i];
      }
    }
  }

  lemma IndexedTake(s: seq<Entry>, fils: map<string, Entry>, k: nat)
    requires Indexed(s, fils) && k <= |s|
    ensures Indexed(s[..k], fils - Names(s[k..]))
  {
    var s', f' := s[..k], fils - Names(s[k..]);
    forall i | 0 <= i < k ensures s'[i].Name() in f' && f'[s'[i].Name()] == s'[i] {
      assert s[i].Name() in fils;
      assert forall j :: k <= j < |s| ==> s[j].Name() != s[i].Name();
    }
    forall n | n in f' ensures f'[n] in s' && f'[n].Name() == n {
      assert n in fils;
      var i :| 0 <= i < |s| && s[i] == fils[n];
      assert i < k;
      assert s'[i] == s[i];
    }
  }

  lemma ErasedAt(s: seq<Entry>, k: nat)
    requires k < |s|
    ensures var w := s[..k] + s[k + 1..];
            && |w| == |s| - 1
            && (forall i {:trigger w[i]} :: 0 <= i < |w| ==> w[i] == s[if i < k then i else i + 1])
            && (forall e {:trigger e in w} :: e in s && e != s[k] ==> e in w)
  {
    var w := s[..k] + s[k + 1..];
    forall e {:trigger e in w} | e in s && e != s[k] ensures e in w {
      var i :| 0 <= i < |s| && s[i] == e;
      assert w[if i < k then i else i - 1] == e;
    }
  }

  lemma IndexedRemove(s: seq<Entry>, fils: map<string, Entry>, k: nat)
    requires Indexed(s, fils) && k < |s|
    ensures Indexed(s[..k] + s[k + 1..], fils - {s[k].Name()})
  {
    ErasedAt(s, k);
    var w, f' := s[..k] + s[k + 1..], fils - {s[k].Name()};
    forall i | 0 <= i < |w| ensures w[i].Name() in f' && f'[w[i].Name()] == w[i] {
      assert s[if i < k then i else i + 1].Name() != s[k].Name();
    }
  }

  class Directory {
    var fils: map<string, Entry>
    var orderedFils: seq<Entry>
    var it: Cursor

    constructor ()
      ensures orderedFils == [] && it == End
      ensures IndexOk() && CursorOk()
    {
      fils := map[];
      orderedFils := [];
      it := End;
    }

    ghost predicate IndexOk()
      reads this`fils, this`orderedFils
    {
      Indexed(orderedFils, fils)
    }

    ghost predicate CursorOk()
      reads this`it, this`orderedFils
    {
      it.At? ==> it.index < |orderedFils|
    }

    /** search_children with the name index. */
    method SearchChildren(n: string) returns (r: Option<Entry>)
      requires IndexOk()
      ensures r == Find(orderedFils, n)
    {
      if n in fils {
        r := Some(fils[n]);
      } else {
        r := None;
      }
      FindByIndex(orderedFils, fils, n);
    }

    /** search_children without the name index. */
    method SearchLinearly(n: string) returns (r: Option<Entry>)
      ensures r == Find(orderedFils, n)
    {
      var ot := 0;
      while ot < |orderedFils| && orderedFils[ot].Name() != n
        invariant 0 <= ot <= |orderedFils|
        invariant Find(orderedFils, n) == Find(orderedFils[ot..], n)
      {
        assert orderedFils[ot..][1..] == orderedFils[ot + 1..];
        ot := ot + 1;
      }
      if ot < |orderedFils| {
        r := Some(orderedFils[ot]);
      } else {
        r := None;
      }
    }

    method ResetReadChildren()
      modifies this`it
      ensures it == Begin(orderedFils) && CursorOk()
    {
      it := Begin(orderedFils);
    }

    method EndRead()
      modifies this`it
      ensures it == End && CursorOk()
    {
      it := End;
    }

    /** The entry under the cursor, or None at the end. */
    method ReadChildren() returns (r: Option<Entry>)
      requires CursorOk()
      modifies this`it
      ensures CursorOk()
      ensures old(Passed(it, orderedFils)) == |orderedFils| ==> r == None && it == old(it)
      ensures old(Passed(it, orderedFils)) < |orderedFils| ==>
                && r == Some(orderedFils[old(Passed(it, orderedFils))])
                && Passed(it, orderedFils) == old(Passed(it, orderedFils)) + 1
    {
      match it
      case At(i) =>
        r := Some(orderedFils[i]);
        it := if i + 1 < |orderedFils| then At(i + 1) else End;
      case End =>
        r := None;
    }

    /** Replaces an entry of the same name, unless both are directories (see README). */
    method AddChildren(r: Entry)
      requires IndexOk() && CursorOk()
      requires r.EDir? ==> Find(orderedFils, r.Name()).Some? ==> !Find(orderedFils, r.Name()).value.EDir?
      modifies this
      ensures IndexOk() && CursorOk()
      ensures orderedFils == Without(old(orderedFils), r.Name()) + [r]
      ensures it == if old(Find(orderedFils, r.Name())).None? then old(it)
                else Begin(Without(old(orderedFils), r.Name()))
    {
      var ancien := SearchChildren(r.Name());
      if ancien.Some? {
        var ok := Remove(ancien.value.Name());
      } else {
        WithoutAbsent(orderedFils, r.Name());
      }
      IndexedAppend(orderedFils, fils, r);
      fils := fils[r.Name() := r];
      orderedFils := orderedFils + [r];
    }

    /** False when no entry has that name; otherwise the reading cursor restarts. */
    method Remove(n: string) returns (ok: bool)
      requires IndexOk() && CursorOk()
      modifies this
      ensures IndexOk() && CursorOk()
      ensures ok <==> old(Find(orderedFils, n)).Some?
      ensures ok ==> orderedFils == Without(old(orderedFils), n) && it == Begin(orderedFils)
      ensures ok ==> Find(orderedFils, n).None?
      ensures !ok ==> orderedFils == old(orderedFils) && it == old(it)
    {
      var ot := 0;
      while ot < |orderedFils| && orderedFils[ot].Name() != n
        invariant 0 <= ot <= |orderedFils|
        invariant forall i :: 0 <= i < ot ==> orderedFils[i].Name() != n
      {
        ot := ot + 1;
      }
      if ot == |orderedFils| {
        return false;
      }
      WithoutAt(orderedFils, n, ot);
      IndexedRemove(orderedFils, fils, ot);
      fils := fils - {n};
      orderedFils := orderedFils[..ot] + orderedFils[ot + 1..];
      ResetReadChildren();
      ok := true;
    }

    /** Drops every entry not yet read. */
    method TailToReadChildren()
      requires IndexOk() && CursorOk()
      modifies this
      ensures IndexOk() && CursorOk()
      ensures orderedFils == old(orderedFils[..Passed(it, orderedFils)])
      ensures it == End
    {
      var from := Passed(it, orderedFils);
      var dest := from;
      while dest < |orderedFils|
        invariant from <= dest <= |orderedFils|
        invariant orderedFils == old(orderedFils) && it == old(it)
        invariant fils == old(fils) - Names(orderedFils[from..dest])
      {
        assert orderedFils[from..dest + 1] == orderedFils[from..dest] + [orderedFils[dest]];
        fils := fils - {orderedFils[dest].Name()};
        dest := dest + 1;
      }
      assert orderedFils[from..dest] == orderedFils[from..];
      IndexedTake(orderedFils, old(fils), from);
      orderedFils := orderedFils[..from];
      it := End;
    }

    method Clear()
      modifies this
      ensures IndexOk() && CursorOk() && orderedFils == [] && it == End
    {
      fils := map[];
      orderedFils := [];
      it := Begin(orderedFils);
    }
  }
}
