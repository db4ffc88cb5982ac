/** A text file with virtual files stacked over it, each made of pieces of the one below,
    read one byte at a time. */
module VirtualFiles {
  import opened Pieces

  datatype Option<+T> = None | Some(value: T)

  /** The content at a level; 0 is the text file. */
  function ContentOf(text: seq<char>, tables: seq<seq<Partie>>, level: nat): seq<char>
    requires level <= |tables|
  {
    if level == 0 then text else Virtual(tables[level - 1], ContentOf(text, tables, level - 1))
  }

  ghost predicate TableOk(text: seq<char>, tables: seq<seq<Partie>>, k: nat)
    requires k < |tables|
  {
    Good(tables[k], |ContentOf(text, tables, k)|)
  }

  ghost predicate TablesOk(text: seq<char>, tables: seq<seq<Partie>>) {
    forall k {:trigger TableOk(text, tables, k)} :: 0 <= k < |tables| ==> TableOk(text, tables, k)
  }

  ghost predicate CursorsOk(tables: seq<seq<Partie>>, cursors: seq<Cursor>) {
    |cursors| == |tables| && forall k {:trigger cursors[k]} :: 0 <= k < |tables| ==> CursorOk(tables[k], cursors[k])
  }

  /** The cursors from that level on are the same. */
  ghost predicate SameFrom(a: seq<Cursor>, b: seq<Cursor>, level: nat) {
    |a| == |b| && forall k {:trigger a[k]} {:trigger b[k]} :: level <= k < |a| ==> a[k] == b[k]
  }

  class Stack {
    const text: seq<char>
    var textPos: nat
    var tables: seq<seq<Partie>>
    var cursors: seq<Cursor>

    constructor (text: seq<char>)
      ensures Valid() && this.text == text && tables == []
    {
      this.text, textPos, tables, cursors := text, 0, [], [];
    }

    ghost function Content(level: nat): seq<char>
      requires level <= |tables|
      reads this`tables
    {
      ContentOf(text, tables, level)
    }

    ghost predicate Valid()
      reads this
    {
      TablesOk(text, tables) && CursorsOk(tables, cursors)
    }

    ghost function Position(level: nat): nat
      requires level <= |tables| == |cursors|
      reads this
    {
      if level == 0 then textPos else PositionOf(tables[level - 1], cursors[level - 1])
    }

    method SetCursor(level: nat, c: Cursor)
      requires Valid() && 0 < level <= |tables| && CursorOk(tables[level - 1], c)
      modifies this`cursors
      ensures Valid() && cursors[level - 1] == c && SameFrom(cursors, old(cursors), level)
    {
      cursors := cursors[level - 1 := c];
    }

    /** Finds the piece that holds the position; a text file goes anywhere. */
    method Skip(level: nat, pos: nat) returns (ok: bool)
      requires Valid() && level <= |tables|
      modifies this`textPos, this`cursors
      ensures Valid() && SameFrom(cursors, old(cursors), level)
      ensures level == 0 ==> ok
      ensures level > 0 ==> (ok <==> pos < |Content(level)|)
      ensures Position(level) == if ok then pos else old(Position(level))
    {
      if level == 0 {
        textPos := pos;
        return true;
      }
      assert TableOk(text, tables, level - 1);
      var found := Search(tables[level - 1], Content(level - 1), pos);
      ok := found.Some?;
      if ok {
        SetCursor(level, found.value);
      }
    }

    /** Back to the first byte; in an empty virtual file there is nowhere else to be. */
    method Rewind(level: nat)
      requires Valid() && level <= |tables|
      modifies this`textPos, this`cursors
      ensures Valid() && Position(level) == 0
    {
      var ok := Skip(level, 0);
      if !ok {
        EmptyLevel(level);
      }
    }

    lemma EmptyLevel(level: nat)
      requires Valid() && 0 < level <= |tables| && Content(level) == []
      ensures Position(level) == 0
    {
      var m, below := tables[level - 1], Content(level - 1);
      assert TableOk(text, tables, level - 1);
      VirtualLength(m, below);
    }

    /** A virtual file over the last one. */
    method Push(m: seq<Partie>)
      requires Valid() && Good(m, |Content(|tables|)|)
      modifies this`tables, this`cursors
      ensures Valid() && tables == old(tables) + [m] && Position(|tables|) == 0
      ensures forall k :: 0 <= k <= |old(tables)| ==> Content(k) == old(Content(k))
      ensures Content(|tables|) == Virtual(m, old(Content(|tables|)))
    {
      PushKeeps(text, tables, cursors, m);
      tables, cursors := tables + [m], cursors + [Cursor(0, 0)];
    }

    method GetPosition(level: nat) returns (pos: nat)
      requires Valid() && level <= |tables|
      ensures pos == Position(level)
    {
      if level == 0 {
        pos := textPos;
      } else {
        var m, c := tables[level - 1], cursors[level - 1];
        if c.index >= |m| {
          pos := if m == [] then 0 else m[|m| - 1].offset + m[|m| - 1].longueur;
        } else {
          pos := m[c.index].offset + c.relicat;
        }
      }
    }

    /** One byte, or None at the end. */
    method ReadByte(level: nat) returns (a: Option<char>)
      requires Valid() && level <= |tables|
      modifies this`textPos, this`cursors
      ensures Valid() && SameFrom(cursors, old(cursors), level)
      ensures var p := old(Position(level));
              if p < |Content(level)| then a == Some(Content(level)[p]) && Position(level) == p + 1
              else a == None && Position(level) == p
      decreases level, 0
    {
      if level == 0 {
        if textPos < |text| {
          a := Some(text[textPos]);
          textPos := textPos + 1;
        } else {
          a := None;
        }
      } else {
        a := ReadPiece(level);
      }
    }

    method ReadPiece(level: nat) returns (a: Option<char>)
      requires Valid() && 0 < level <= |tables|
      modifies this`textPos, this`cursors
      ensures Valid() && SameFrom(cursors, old(cursors), level)
      ensures var p := old(Position(level));
              if p < |Content(level)| then a == Some(Content(level)[p]) && Position(level) == p + 1
              else a == None && Position(level) == p
      decreases level - 1, 2
    {
      var m, c := tables[level - 1], cursors[level - 1];
      PieceCursor(level);
      if c.index >= |m| {
        return None;
      }
      a := ReadAt(level - 1, m[c.index].debut + c.relicat);
      SetCursor(level, Advance(m, c));
    }

    /** What the cursor of a level says about its content. */
    lemma PieceCursor(level: nat)
      requires Valid() && 0 < level <= |tables|
      ensures var m, c, p := tables[level - 1], cursors[level - 1], Position(level);
              if c.index >= |m| then p == |Content(level)|
              else
                var q := m[c.index].debut + c.relicat;
                && q < |Content(level - 1)| && p < |Content(level)| && Content(level)[p] == Content(level - 1)[q]
                && CursorOk(m, Advance(m, c)) && PositionOf(m, Advance(m, c)) == p + 1
    {
      var m, c, below := tables[level - 1], cursors[level - 1], Content(level - 1);
      assert CursorOk(m, c) && TableOk(text, tables, level - 1);
      if c.index >= |m| {
        EndOfVirtual(m, below, c);
      } else {
        AdvanceIsNext(m, below, c);
        ByteAtCursor(m, below, c);
      }
    }

    /** The byte at a place of a level. */
    method ReadAt(level: nat, q: nat) returns (a: Option<char>)
      requires Valid() && level <= |tables| && q < |Content(level)|
      modifies this`textPos, this`cursors
      ensures Valid() && a == Some(Content(level)[q])
      ensures SameFrom(cursors, old(cursors), level)
      decreases level, 1
    {
      var ok := Skip(level, q);
      a := ReadByte(level);
    }
  }

  lemma {:induction false} ContentBelow(text: seq<char>, tables: seq<seq<Partie>>, m: seq<Partie>, k: nat)
    requires k <= |tables|
    ensures ContentOf(text, tables + [m], k) == ContentOf(text, tables, k)
  {
    if k > 0 {
      ContentBelow(text, tables, m, k - 1);
    }
  }

  /** What a new table over the others keeps, and what it is. */
  lemma PushKeeps(text: seq<char>, tables: seq<seq<Partie>>, cursors: seq<Cursor>, m: seq<Partie>)
    requires TablesOk(text, tables) && CursorsOk(tables, cursors) && Good(m, |ContentOf(text, tables, |tables|)|)
    ensures var n, more := |tables|, tables + [m];
            && (forall k :: 0 <= k <= n ==> ContentOf(text, more, k) == ContentOf(text, tables, k))
            && ContentOf(text, more, n + 1) == Virtual(m, ContentOf(text, tables, n))
            && TablesOk(text, more) && CursorsOk(more, cursors + [Cursor(0, 0)]) && PositionOf(m, Cursor(0, 0)) == 0
  {
    var n, more := |tables|, tables + [m];
    forall k | 0 <= k <= n ensures ContentOf(text, more, k) == ContentOf(text, tables, k) {
      ContentBelow(text, tables, m, k);
    }
    forall k {:trigger TableOk(text, more, k)} | 0 <= k < |more| ensures TableOk(text, more, k) {
      TableStays(text, tables, m, k);
    }
    FirstPosition(m, |ContentOf(text, tables, n)|);
    CursorAdded(tables, cursors, m);
  }

  lemma TableStays(text: seq<char>, tables: seq<seq<Partie>>, m: seq<Partie>, k: nat)
    requires TablesOk(text, tables) && Good(m, |ContentOf(text, tables, |tables|)|) && k <= |tables|
    ensures TableOk(text, tables + [m], k)
  {
    ContentBelow(text, tables, m, k);
    if k < |tables| {
      assert TableOk(text, tables, k);
    }
  }

  lemma CursorAdded(tables: seq<seq<Partie>>, cursors: seq<Cursor>, m: seq<Partie>)
    requires CursorsOk(tables, cursors) && CursorOk(m, Cursor(0, 0))
    ensures CursorsOk(tables + [m], cursors + [Cursor(0, 0)])
  {
  }

  lemma FirstPosition(m: seq<Partie>, n: nat)
    requires Good(m, n)
    ensures CursorOk(m, Cursor(0, 0)) && PositionOf(m, Cursor(0, 0)) == 0
  {
    if m != [] {
      PieceAt(m, n, 0);
    }
  }

  /** The piece of a position, with the place in it. */
  method Search(m: seq<Partie>, ghost below: seq<char>, pos: nat) returns (r: Option<Cursor>)
    requires Good(m, |below|)
    ensures r.Some? <==> pos < |Virtual(m, below)|
    ensures r.Some? ==> CursorOk(m, r.value) && PositionOf(m, r.value) == pos
  {
    VirtualLength(m, below);
    var it := 0;
    while it < |m| && m[it].offset + m[it].longueur - 1 < pos
      invariant it <= |m| && Total(m[..it]) <= pos
    {
      PieceAt(m, |below|, it);
      it := it + 1;
    }
    if it >= |m| {
      assert m[..it] == m;
      return None;
    }
    PieceAt(m, |below|, it);
    VirtualAt(m, below, it, pos - m[it].offset);
    r := Some(Cursor(it, pos - m[it].offset));
  }
}
