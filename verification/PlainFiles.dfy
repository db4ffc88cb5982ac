/** A file with a position, and what reading, writing and moving do to it directly. */
module PlainFiles {

  datatype File = File(content: seq<bv8>, pos: nat)

  /** The bytes read at the position, less than n only at the end of the file. */
  function ReadOf(f: File, n: nat): (r: seq<bv8>)
    ensures |r| <= n
  {
    if f.pos >= |f.content| then []
    else if f.pos + n <= |f.content| then f.content[f.pos..f.pos + n]
    else f.content[f.pos..]
  }

  /** The content up to p, filled with zeros when p is past the end. */
  function Padded(c: seq<bv8>, p: nat): (r: seq<bv8>)
    ensures |r| == p
  {
    if p <= |c| then c[..p] else c + seq(p - |c|, _ => 0)
  }

  function WriteOf(f: File, d: seq<bv8>): (r: File)
    ensures r.pos == f.pos + |d|
  {
    if d == [] then f
    else
      var q := f.pos + |d|;
      File(Padded(f.content, f.pos) + d + (if q < |f.content| then f.content[q..] else []), q)
  }

  /** What is read, byte by byte: those at the position and after, n of them or all. */
  lemma ReadOfIs(f: File, n: nat)
    ensures var r := ReadOf(f, n);
            && (forall i :: 0 <= i < |r| ==> f.pos + i < |f.content| && r[i] == f.content[f.pos + i])
            && (|r| == n || (|r| < n && (f.pos + |r| == |f.content| || (r == [] && f.pos > |f.content|))))
  {
  }

  /** What a file becomes, byte by byte: the bytes written at the position, those there were
      elsewhere, zeros where there were none. */
  lemma WriteOfIs(f: File, d: seq<bv8>)
    requires d != []
    ensures var r := WriteOf(f, d);
            && r.pos == f.pos + |d|
            && |r.content| == (if r.pos < |f.content| then |f.content| else r.pos)
            && forall i {:trigger r.content[i]} :: 0 <= i < |r.content| ==>
                 r.content[i] == if f.pos <= i < f.pos + |d| then d[i - f.pos]
                                 else if i < |f.content| then f.content[i] else 0
    ensures WriteOf(f, []) == f
  {
  }

  /** Writing in two parts. */
  lemma WriteTwice(f: File, a: seq<bv8>, b: seq<bv8>)
    ensures WriteOf(WriteOf(f, a), b) == WriteOf(f, a + b)
  {
    if a == [] {
      assert a + b == b;
    } else if b == [] {
      assert a + b == a;
    } else {
      var g, h := WriteOf(f, a), WriteOf(WriteOf(f, a), b);
      var p := Padded(f.content, f.pos);
      assert Padded(g.content, g.pos) == p + a;
      assert h.content == WriteOf(f, a + b).content;
    }
  }

  function MovedBy(f: File, x: int): File {
    if f.pos + x < 0 then f.(pos := 0) else f.(pos := f.pos + x)
  }

  /** A file of the system, opened. */
  class Fichier {
    var content: seq<bv8>
    var pos: nat

    constructor (content: seq<bv8>)
      ensures this.content == content && pos == 0
    {
      this.content, pos := content, 0;
    }

    ghost function View(): File
      reads this
    {
      File(content, pos)
    }

    method Skip(q: nat) returns (ok: bool)
      modifies this`pos
      ensures ok && pos == q
    {
      pos, ok := q, true;
    }

    method SkipToEof() returns (ok: bool)
      modifies this`pos
      ensures ok && pos == |content|
    {
      pos, ok := |content|, true;
    }

    method SkipRelative(x: int) returns (ok: bool)
      modifies this`pos
      ensures View() == MovedBy(old(View()), x) && (ok <==> old(pos) + x >= 0)
    {
      if pos + x < 0 {
        pos, ok := 0, false;
      } else {
        pos, ok := pos + x, true;
      }
    }

    method Read(n: nat) returns (bytes: seq<bv8>)
      modifies this`pos
      ensures bytes == ReadOf(old(View()), n) && pos == old(pos) + |bytes|
    {
      if pos < |content| {
        bytes := if pos + n <= |content| then content[pos..pos + n] else content[pos..];
      } else {
        bytes := [];
      }
      pos := pos + |bytes|;
    }

    method Write(d: seq<bv8>)
      modifies this
      ensures View() == WriteOf(old(View()), d)
    {
      if d != [] {
        var q := pos + |d|;
        content := Padded(content, pos) + d + (if q < |content| then content[q..] else []);
        pos := q;
      }
    }
  }
}
