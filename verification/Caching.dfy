/** The cache over a file: one buffer used in turn to read ahead and to gather writes. */
module Caching {
  import opened PlainFiles

  const MAX_BUFFER_SIZE: nat := 10485760

  /** What has been observed of the use of the buffer, and what to do about it. */
  datatype Tuning = Tuning(observations: nat, unusedRate: nat, overusedRate: nat)

  /** These bytes are those of the file just before q. */
  ghost predicate EndsAt(content: seq<bv8>, q: nat, bytes: seq<bv8>) {
    bytes != [] ==> |bytes| <= q <= |content| && bytes == content[q - |bytes|..q]
  }

  class Cache {
    const file: Fichier
    const readable: bool
    const writable: bool
    const shiftedMode: bool
    const readTuning: Tuning
    const writeTuning: Tuning
    const readLimit: nat       // largest size tried when reading
    var buffer: array<bv8>
    var next: nat
    var last: nat
    var currentPosition: nat
    var readMode: bool
    var readUnused: nat
    var readOverused: nat
    var readCounter: nat
    var writeOverused: nat
    var writeCounter: nat

    /** In reading mode, the buffer holds the file from p - next on, and the file stands just
        after it. */
    ghost predicate Window(p: nat)
      reads this, file, buffer
    {
      && next <= last <= buffer.Length && next <= p
      && file.pos == p - next + last && EndsAt(file.content, file.pos, buffer[..last])
    }

    /** The buffer was filled as far as the file allowed. */
    ghost predicate ReadAhead()
      reads this`last, this`buffer, file
    {
      last == 0 || last == buffer.Length || file.pos >= |file.content|
    }

    /** In writing mode, the buffer holds what goes to the file where it stands. */
    ghost predicate Pending()
      reads this, file, buffer
    {
      next <= buffer.Length && last == 0 && file.pos + next == currentPosition && (!writable ==> next == 0)
    }

    ghost predicate Valid()
      reads this, file, buffer
    {
      && buffer.Length > 0
      && if readMode then readable && Window(currentPosition) && ReadAhead() else Pending()
    }

    /** A shifted buffer of a single byte keeps that byte for ever. */
    ghost predicate Roomy()
      reads this`buffer
    {
      shiftedMode ==> buffer.Length >= 2
    }

    /** The file as the user of the cache sees it. */
    ghost function View(): File
      requires Valid()
      reads this, file, buffer
    {
      if readMode then File(file.content, currentPosition) else WriteOf(file.View(), buffer[..next])
    }

    constructor (file: Fichier, readable: bool, writable: bool, shiftedMode: bool, size: nat,
                 readTuning: Tuning, writeTuning: Tuning, readLimit: nat)
      requires size >= 1
      ensures Valid() && this.file == file && View() == file.View() && fresh(buffer) && !readMode
      ensures this.readable == readable && this.writable == writable && this.shiftedMode == shiftedMode
                && buffer.Length == size
    {
      this.file, this.readable, this.writable, this.shiftedMode := file, readable, writable, shiftedMode;
      this.readTuning, this.writeTuning, this.readLimit := readTuning, writeTuning, readLimit;
      buffer := new bv8[size];
      next, last, currentPosition, readMode := 0, 0, file.pos, false;
      readUnused, readOverused, readCounter, writeOverused, writeCounter := 0, 0, 0, 0, 0;
    }

    /** The buffer, now empty, is made larger when it was full too often. */
    method GrowForWriting()
      requires next == 0 && buffer.Length > 0
      modifies this`buffer, this`writeOverused, this`writeCounter
      ensures buffer.Length >= old(buffer.Length) && (buffer == old(buffer) || fresh(buffer))
    {
      if writeCounter >= writeTuning.observations {
        if writeOverused * 100 > writeTuning.overusedRate * writeCounter {
          var size := buffer.Length * 2;
          if size > MAX_BUFFER_SIZE {
            size := MAX_BUFFER_SIZE;
          }
          if buffer.Length < size {
            buffer := new bv8[size];
          }
        }
        writeOverused, writeCounter := 0, 0;
      }
    }

    /** Gives the gathered bytes to the file. */
    method Flush()
      requires buffer.Length > 0 && next <= buffer.Length
      modifies this`buffer, this`next, this`writeOverused, this`writeCounter, file
      ensures (buffer == old(buffer) || fresh(buffer)) && buffer.Length >= old(buffer.Length)
      ensures next == 0 && file.View() == WriteOf(old(file.View()), old(buffer[..next]))
    {
      writeCounter := writeCounter + 1;
      if next == buffer.Length {
        writeOverused := writeOverused + 1;
      }
      if next > 0 {
        file.Write(buffer[..next]);
      }
      next := 0;
      GrowForWriting();
    }

    /** flush_write: in writing mode, the file becomes what the user sees. */
    method FlushWrite()
      requires Valid()
      modifies this`buffer, this`next, this`writeOverused, this`writeCounter, file
      ensures Valid() && View() == old(View()) && (buffer == old(buffer) || fresh(buffer))
      ensures !readMode ==> next == 0 && file.View() == View()
      ensures readMode ==> buffer == old(buffer) && next == old(next) && file.View() == old(file.View())
      ensures buffer.Length >= old(buffer.Length)
    {
      if !writable || readMode {
        return;
      }
      Flush();
    }

    method ClearRead()
      modifies this`next, this`last
      ensures readMode ==> next == last == 0
      ensures !readMode ==> next == old(next) && last == old(last)
    {
      if readMode {
        next, last := 0, 0;
      }
    }

    method Skip(pos: nat) returns (ok: bool)
      requires Valid()
      modifies this, file
      ensures Valid() && readMode == old(readMode) && (buffer == old(buffer) || fresh(buffer))
      ensures ok && View() == old(View()).(pos := pos) && buffer.Length >= old(buffer.Length)
    {
      if !readMode {
        FlushWrite();
        if pos != currentPosition || pos != file.pos {
          ok := file.Skip(pos);
          currentPosition := pos;
        }
        return true;
      }
      if currentPosition <= pos + next && pos <= currentPosition + last - next {
        if pos < currentPosition {
          next := next - (currentPosition - pos);
        } else {
          next := next + (pos - currentPosition);
        }
        currentPosition := pos;
        return true;
      }
      ClearRead();
      ok := file.Skip(pos);
      currentPosition := pos;
    }

    method SkipToEof() returns (ok: bool)
      requires Valid()
      modifies this, file
      ensures Valid() && readMode == old(readMode) && (buffer == old(buffer) || fresh(buffer))
      ensures ok && View() == old(View()).(pos := |old(View()).content|) && buffer.Length >= old(buffer.Length)
    {
      if !readMode {
        FlushWrite();
        ok := file.SkipToEof();
        currentPosition := file.pos;
        return;
      }
      ok := file.SkipToEof();
      ok := SkipInWindow(file.pos);
    }

    /** skip to the end of the file where the file already stands; the buffer does not go
        past the end, so inside it this is never a move backwards. */
    method SkipInWindow(pos: nat) returns (ok: bool)
      requires readMode && readable && buffer.Length > 0 && next <= last <= buffer.Length && next <= currentPosition
      requires EndsAt(file.content, currentPosition - next + last, buffer[..last])
      requires pos == file.pos == |file.content|
      modifies this`next, this`last, this`currentPosition, file`pos
      ensures Valid() && ok && currentPosition == pos
    {
      if currentPosition <= pos + next && pos <= currentPosition + last - next {
        next := next + (pos - currentPosition);
        currentPosition := pos;
        return true;
      }
      ClearRead();
      ok := file.Skip(pos);
      currentPosition := pos;
    }

    /** Moving before the beginning while reading changes the position but leaves the buffer
        where it was: the cache is then sound only if it already stood at the beginning. */
    method SkipRelative(x: int) returns (ok: bool)
      requires Valid()
      modifies this, file
      ensures readMode == old(readMode) && (buffer == old(buffer) || fresh(buffer))
                && buffer.Length >= old(buffer.Length)
      ensures ok <==> old(View()).pos + x >= 0
      ensures (ok || !readMode ==> Valid()) && (Valid() ==> View() == MovedBy(old(View()), x))
      ensures Valid() ==> View().content == old(View()).content
      ensures Valid() ==> View().pos == if old(View()).pos + x >= 0 then old(View()).pos + x else 0
      ensures !ok && readMode ==>
                && currentPosition == 0 && next == old(next) && last == old(last) && buffer == old(buffer)
                && (Valid() <==> old(currentPosition) == 0)
    {
      if !readMode {
        FlushWrite();
        ok := file.SkipRelative(x);
        currentPosition := file.pos;
        return;
      }
      if x >= 0 {
        ok := Skip(currentPosition + x);
      } else if currentPosition >= 0 - x {
        ok := Skip(currentPosition + x);
      } else {
        // 0 is then taken for a position of the buffer, and nothing else moves
        currentPosition := 0;
        ok := false;
      }
    }

    /** shift_by_half: keeps the second half of the buffer. */
    method ShiftByHalf()
      requires next == last <= buffer.Length
      modifies this`next, this`last, buffer
      ensures next == last == (if old(last) > 1 then old(last) - old(last) / 2 else old(last))
      ensures buffer[..last] == old(buffer[..next])[old(last) - last..]
    {
      var half, rest := last / 2, last % 2;
      if last > 1 {
        forall i | 0 <= i < half + rest {
          buffer[i] := buffer[half + i];
        }
        next, last := next - half, last - half;
      }
    }

    /** buf::resize, keeping the bytes in use. */
    method Resize(size: nat)
      requires last <= buffer.Length <= size
      modifies this`buffer
      ensures fresh(buffer) && buffer.Length == size && buffer[..last] == old(buffer[..last])
    {
      var larger := new bv8[size];
      forall i | 0 <= i < last {
        larger[i] := buffer[i];
      }
      buffer := larger;
    }

    /** The buffer is made larger when everything in it was asked for too often. */
    method GrowForReading()
      requires last <= buffer.Length && buffer.Length > 0
      modifies this`buffer, this`readUnused, this`readOverused, this`readCounter
      ensures buffer == old(buffer) || fresh(buffer)
      ensures buffer.Length >= old(buffer.Length) && buffer[..last] == old(buffer[..last])
    {
      if readCounter >= readTuning.observations {
        if readOverused * 100 > readTuning.overusedRate * readCounter {
          var size := buffer.Length * 2;
          if size <= readLimit && buffer.Length < size {
            Resize(size);
          }
        }
        readCounter, readUnused, readOverused := 0, 0, 0;
      }
    }

    method ObserveReading()
      modifies this`readUnused, this`readOverused, this`readCounter
      ensures readCounter == old(readCounter) + 1
    {
      readCounter := readCounter + 1;
      if 100 * next < readTuning.unusedRate * last {
        readUnused := readUnused + 1;
      }
      if next == last && next != 0 {
        readOverused := readOverused + 1;
      }
    }

    /** Makes room in a buffer read to its end. */
    method MakeRoom(ghost p: nat)
      requires buffer.Length > 0 && Window(p) && next == last
      modifies this`buffer, this`next, this`last, this`readUnused, this`readOverused, this`readCounter, buffer
      ensures (buffer == old(buffer) || fresh(buffer)) && buffer.Length >= old(buffer.Length)
      ensures Window(p) && next == last
      ensures last < buffer.Length <==> !(shiftedMode && old(last) == 1 && buffer.Length == 1)
    {
      ObserveReading();
      ghost var window := buffer[..last];
      if shiftedMode {
        ShiftByHalf();
        TailOfWindow(file.content, p, window, buffer[..last]);
      } else {
        next, last := 0, 0;
      }
      GrowForReading();
    }

    method Append(bytes: seq<bv8>)
      requires last + |bytes| <= buffer.Length
      modifies this`last, buffer
      ensures last == old(last) + |bytes| && buffer[..last] == old(buffer[..last]) + bytes
    {
      forall i | 0 <= i < |bytes| {
        buffer[last + i] := bytes[i];
      }
      last := last + |bytes|;
    }

    /** Fills what is free of the buffer. */
    method Refill(ghost p: nat)
      requires Window(p) && next == last
      modifies this`last, buffer, file`pos
      ensures Window(p) && ReadAhead()
      ensures next < last <==> p < |file.content| && old(last) < buffer.Length
    {
      ghost var kept, f := buffer[..last], file.View();
      ReadFacts(f, buffer.Length - last);
      var bytes := file.Read(buffer.Length - last);
      Refilled(f.content, p, kept, bytes);
      Append(bytes);
      assert buffer[..last] == kept + bytes;
    }

    /** fulfill_read, once the buffer has been read to its end: brings more of the file if
        there is, except in a shifted buffer of a single byte, which stays full. */
    method FulfillRead(ghost p: nat)
      requires buffer.Length > 0 && Window(p) && next == last
      modifies this`buffer, this`next, this`last, this`readUnused, this`readOverused, this`readCounter, buffer, file`pos
      ensures (buffer == old(buffer) || fresh(buffer)) && buffer.Length >= old(buffer.Length)
      ensures Window(p) && ReadAhead()
      ensures next < last <==> p < |file.content| && !(shiftedMode && old(last) == 1 && buffer.Length == 1)
    {
      MakeRoom(p);
      Refill(p);
    }

    /** The part of the next n bytes that one pass takes from the buffer. */
    method ReadChunk(n: nat, ghost p: nat) returns (chunk: seq<bv8>, eof: bool)
      requires buffer.Length > 0 && Roomy() && Window(p) && ReadAhead()
      modifies this`buffer, this`next, this`last, this`readUnused, this`readOverused, this`readCounter, buffer, file`pos
      ensures (buffer == old(buffer) || fresh(buffer)) && buffer.Length >= old(buffer.Length) && buffer.Length > 0
      ensures |chunk| <= n && Window(p + |chunk|) && ReadAhead()
      ensures chunk == ReadOf(File(file.content, p), |chunk|)
      ensures eof <==> p >= |file.content|
      ensures !eof && n > 0 ==> chunk != []
      ensures chunk != [] ==> next > 0
      ensures eof ==> chunk == []
    {
      eof := false;
      chunk := [];
      if next >= last {
        FulfillRead(p);
        eof := next >= last;
      }
      if !eof {
        chunk := TakeFromBuffer(n, p);
      }
    }

    method TakeFromBuffer(n: nat, ghost p: nat) returns (chunk: seq<bv8>)
      requires Window(p) && next < last
      modifies this`next
      ensures |chunk| <= n && (n > 0 ==> chunk != []) && Window(p + |chunk|) && p < |file.content|
                && next == old(next) + |chunk|
      ensures chunk == ReadOf(File(file.content, p), |chunk|)
    {
      var available := last - next;
      var min := if available > n then n else available;
      chunk := buffer[next..next + min];
      SliceOfWindow(file.content, file.pos, buffer[..last], next, min);
      assert chunk == buffer[..last][next..next + min];
      next := next + min;
    }

    /** Fills and empties the buffer until the bytes are there or the file is exhausted. */
    method ReadThrough(size: nat) returns (bytes: seq<bv8>)
      requires buffer.Length > 0 && Roomy() && Window(currentPosition) && ReadAhead()
      modifies this`buffer, this`next, this`last, this`readUnused, this`readOverused, this`readCounter, buffer, file`pos
      ensures buffer.Length > 0 && Roomy() && ReadAhead() && (buffer == old(buffer) || fresh(buffer))
      ensures buffer.Length >= old(buffer.Length)
      ensures bytes == ReadOf(File(file.content, currentPosition), size) && Window(currentPosition + |bytes|)
      ensures |bytes| == size > 0 ==> next > 0
    {
      ghost var f := File(file.content, currentPosition);
      var eof, more := false, true;
      bytes := [];
      while more
        invariant buffer.Length > 0 && Roomy() && (buffer == old(buffer) || fresh(buffer))
        invariant Window(f.pos + |bytes|) && ReadAhead() && buffer.Length >= old(buffer.Length)
        invariant |bytes| <= size && bytes == ReadOf(f, |bytes|)
        invariant eof ==> f.pos + |bytes| >= |f.content|
        invariant !more ==> |bytes| == size || eof
        invariant (more ==> size == 0 || |bytes| < size) && (|bytes| == size > 0 ==> next > 0)
        decreases more, size - |bytes|
      {
        var chunk;
        chunk, eof := ReadChunk(size - |bytes|, f.pos + |bytes|);
        ReadTwice(f, bytes, chunk);
        bytes := bytes + chunk;
        more := |bytes| < size && !eof;
      }
      ReadShort(f, |bytes|, size);
    }

    /** inherited_read. */
    method InheritedRead(size: nat) returns (bytes: seq<bv8>)
      requires Valid() && readable && Roomy()
      modifies this, file, buffer
      ensures Valid() && Roomy() && readMode && (buffer == old(buffer) || fresh(buffer))
                && buffer.Length >= old(buffer.Length)
      ensures bytes == ReadOf(old(View()), size) && View() == old(View()).(pos := old(View()).pos + |bytes|)
      ensures |bytes| == size > 0 ==> next > 0
    {
      if !readMode {
        FlushWrite();
        readMode := true;
      }
      bytes := ReadThrough(size);
      currentPosition := currentPosition + |bytes|;
    }

    /** Where the bytes gathered so far will be. */
    ghost predicate Gathered(f: File, done: seq<bv8>)
      reads this, file, buffer
    {
      next <= buffer.Length && buffer.Length > 0 && WriteOf(file.View(), buffer[..next]) == WriteOf(f, done)
    }

    method Gather(chunk: seq<bv8>, ghost f: File, ghost done: seq<bv8>)
      requires Gathered(f, done) && next + |chunk| <= buffer.Length
      modifies this`next, buffer
      ensures Gathered(f, done + chunk) && next == old(next) + |chunk|
    {
      ghost var before := buffer[..next];
      WriteTwice(file.View(), before, chunk);
      WriteTwice(f, done, chunk);
      forall i | 0 <= i < |chunk| {
        buffer[next + i] := chunk[i];
      }
      next := next + |chunk|;
      assert buffer[..next] == before + chunk;
    }

    /** Bytes that do not go through the empty buffer. */
    method Bypass(rest: seq<bv8>, ghost f: File, ghost done: seq<bv8>)
      requires Gathered(f, done) && next == 0
      modifies file
      ensures Gathered(f, done + rest)
    {
      assert buffer[..next] == [];
      WriteTwice(f, done, rest);
      file.Write(rest);
    }

    method FlushGathered(ghost f: File, ghost done: seq<bv8>)
      requires Gathered(f, done)
      modifies this`buffer, this`next, this`writeOverused, this`writeCounter, file
      ensures (buffer == old(buffer) || fresh(buffer)) && buffer.Length >= old(buffer.Length)
      ensures Gathered(f, done) && next == 0
    {
      Flush();
      assert buffer[..next] == [];
    }

    /** One pass of the writing loop: into the buffer, or straight to the file when what
        remains is larger than an empty buffer. */
    method WriteChunk(a: seq<bv8>, wrote: nat, ghost f: File) returns (now: nat)
      requires wrote < |a| && Gathered(f, a[..wrote])
      modifies this`buffer, this`next, this`writeOverused, this`writeCounter, buffer, file
      ensures (buffer == old(buffer) || fresh(buffer)) && buffer.Length >= old(buffer.Length)
      ensures wrote < now <= |a| && Gathered(f, a[..now])
    {
      var available := buffer.Length - next;
      if available == 0 {
        FlushGathered(f, a[..wrote]);
        available := buffer.Length;
        if available < |a| - wrote {
          assert a[..wrote] + a[wrote..] == a[..|a|];
          Bypass(a[wrote..], f, a[..wrote]);
          return |a|;
        }
      }
      var min := if available > |a| - wrote then |a| - wrote else available;
      now := wrote + min;
      assert a[..wrote] + a[wrote..now] == a[..now];
      Gather(a[wrote..now], f, a[..wrote]);
    }

    /** inherited_write. The bytes go where the file stands: that is the position of the
        cache, unless bytes read ahead have not all been asked for. */
    method InheritedWrite(a: seq<bv8>)
      requires Valid() && writable
      modifies this, file, buffer
      ensures !readMode && (buffer == old(buffer) || fresh(buffer)) && buffer.Length >= old(buffer.Length)
      ensures currentPosition == old(currentPosition) + |a| && next <= buffer.Length
      ensures WriteOf(file.View(), buffer[..next]) == WriteOf(old(if readMode then file.View() else View()), a)
      ensures Valid() <==> old(readMode ==> next == last)
      ensures Valid() ==> View() == WriteOf(old(View()), a)
    {
      ghost var f := if readMode then file.View() else View();
      if readMode {
        ClearRead();
        readMode := false;
      }
      WriteAll(a, f);
      currentPosition := currentPosition + |a|;
    }

    method WriteAll(a: seq<bv8>, ghost f: File)
      requires Gathered(f, [])
      modifies this`buffer, this`next, this`writeOverused, this`writeCounter, buffer, file
      ensures (buffer == old(buffer) || fresh(buffer)) && buffer.Length >= old(buffer.Length) && Gathered(f, a)
    {
      var wrote := 0;
      assert a[..0] == [];
      while wrote < |a|
        invariant wrote <= |a| && Gathered(f, a[..wrote])
        invariant (buffer == old(buffer) || fresh(buffer)) && buffer.Length >= old(buffer.Length)
      {
        wrote := WriteChunk(a, wrote, f);
      }
      assert a[..wrote] == a;
    }
  }

  lemma SliceOfWindow(content: seq<bv8>, q: nat, window: seq<bv8>, i: nat, n: nat)
    requires EndsAt(content, q, window) && i < |window| && i + n <= |window|
    ensures |window| <= q && window[i..i + n] == ReadOf(File(content, q - |window| + i), n)
    ensures q - |window| + i < |content|
  {
    var b := q - |window|;
    assert window[i..i + n] == content[b + i..b + i + n];
  }

  lemma ReadTwice(f: File, a: seq<bv8>, b: seq<bv8>)
    requires a == ReadOf(f, |a|) && b == ReadOf(File(f.content, f.pos + |a|), |b|)
    ensures a + b == ReadOf(f, |a + b|)
  {
  }

  /** Reading stops early only at the end. */
  lemma ReadShort(f: File, n: nat, size: nat)
    requires n <= size && (n == size || f.pos + n >= |f.content|) && |ReadOf(f, n)| == n
    ensures ReadOf(f, size) == ReadOf(f, n)
  {
  }

  lemma ReadFacts(f: File, n: nat)
    ensures var r := ReadOf(f, n);
            && (r != [] ==> f.pos + |r| <= |f.content| && r == f.content[f.pos..f.pos + |r|])
            && (|r| < n ==> f.pos + |r| >= |f.content|)
            && (r == [] <==> n == 0 || f.pos >= |f.content|)
  {
  }

  lemma TailOfWindow(content: seq<bv8>, p: nat, window: seq<bv8>, kept: seq<bv8>)
    requires |kept| <= |window| && kept == window[|window| - |kept|..] && EndsAt(content, p, window)
    ensures EndsAt(content, p, kept)
  {
  }

  lemma Refilled(content: seq<bv8>, p: nat, kept: seq<bv8>, bytes: seq<bv8>)
    requires |kept| <= p && EndsAt(content, p, kept)
    requires bytes != [] ==> p + |bytes| <= |content| && bytes == content[p..p + |bytes|]
    ensures EndsAt(content, p + |bytes|, kept + bytes)
  {
    if bytes == [] {
      assert kept + bytes == kept;
    }
  }
}
