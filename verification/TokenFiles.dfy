/** The archive as a file of tokens with a position, and one inode written to it and read
    from it field by field. */
module TokenFiles {
  import opened Entries
  import opened Tokens
  import opened InodeCodec
  import opened Archives

  class TokenFile {
    var data: seq<Token>
    var pos: nat

    constructor (data: seq<Token>)
      ensures this.data == data && pos == 0
    {
      this.data, pos := data, 0;
    }

    method Put(t: Token)
      modifies this`data
      ensures data == old(data) + [t]
    {
      data := data + [t];
    }

    method ReadByte() returns (r: Parsed<bv8>)
      modifies this`pos
      ensures r == TakeByte(data, old(pos)) && pos == if r.Got? then r.next else old(pos)
    {
      r := TakeByte(data, pos);
      if r.Got? { pos := r.next; }
    }

    method ReadStr() returns (r: Parsed<string>)
      modifies this`pos
      ensures r == TakeStr(data, old(pos)) && pos == if r.Got? then r.next else old(pos)
    {
      r := TakeStr(data, pos);
      if r.Got? { pos := r.next; }
    }

    method ReadNum() returns (r: Parsed<nat>)
      modifies this`pos
      ensures r == TakeNum(data, old(pos)) && pos == if r.Got? then r.next else old(pos)
    {
      r := TakeNum(data, pos);
      if r.Got? { pos := r.next; }
    }

    method ReadWord() returns (r: Parsed<bv16>)
      modifies this`pos
      ensures r == TakeWord(data, old(pos)) && pos == if r.Got? then r.next else old(pos)
    {
      r := TakeWord(data, pos);
      if r.Got? { pos := r.next; }
    }

    method ReadSum() returns (r: Parsed<seq<bv8>>)
      modifies this`pos
      ensures r == TakeSum(data, old(pos)) && pos == if r.Got? then r.next else old(pos)
    {
      r := TakeSum(data, pos);
      if r.Got? { pos := r.next; }
    }
  }

  // ----- writing an inode

  method WriteHeader(w: TokenFile, name: string, i: Inode)
    modifies w`data
    ensures w.data == old(w.data) + HeaderTokens(name, i)
  {
    ghost var before := w.data;
    w.Put(Str(name));
    w.Put(Byte(EaFlag(i.ea)));
    w.Put(Num(i.uid));
    w.Put(Num(i.gid));
    w.Put(Word(i.perm));
    w.Put(Num(i.lastAccess));
    w.Put(Num(i.lastModif));
    w.Put(Num(i.lastChange));
    assert w.data == before + HeaderTokens(name, i);
  }

  method WriteEa(w: TokenFile, i: Inode)
    requires Writable(i)
    modifies w`data
    ensures w.data == old(w.data) + EaTokens(i)
  {
    if i.ea == EaFull {
      w.Put(Num(i.eaData.size));
      w.Put(Num(i.eaData.offset));
      w.Put(Sum(i.eaData.crc.value));
    }
  }

  method WriteData(w: TokenFile, d: FileData, s: SavedStatus)
    requires s == Saved ==> d.crc.Some?
    modifies w`data
    ensures w.data == old(w.data) + DataTokens(d, s)
  {
    ghost var before := w.data;
    w.Put(Num(d.size));
    if s == Saved {
      var flags := d.status;
      w.Put(Num(d.offset));
      w.Put(Num(d.storageSize));
      if d.dirty {
        flags := flags | DATA_IS_DIRTY;
      }
      w.Put(Byte(flags));
      w.Put(Byte(CompressionByte(d.algo)));
      w.Put(Sum(d.crc.value));
      StatusByte(d.status, d.dirty);
      assert flags == DirtyStatus(d);
    }
    assert w.data == before + DataTokens(d, s);
  }

  method WritePayload(w: TokenFile, x: Payload, s: SavedStatus)
    requires s == Saved && (x.Regular? || x.Door?) ==> x.data.crc.Some?
    modifies w`data
    ensures w.data == old(w.data) + PayloadTokens(x, s)
  {
    match x
    case Regular(d) => WriteData(w, d, s);
    case Door(d) => WriteData(w, d, s);
    case Lien(target) =>
      if s == Saved { w.Put(Str(target)); }
    case CharDev(major, minor) =>
      if s == Saved { w.Put(Word(major)); w.Put(Word(minor)); }
    case BlockDev(major, minor) =>
      if s == Saved { w.Put(Word(major)); w.Put(Word(minor)); }
    case _ =>
  }

  lemma Gather(w: seq<Token>, a: seq<Token>, h: seq<Token>, e: seq<Token>, x: seq<Token>)
    ensures w + a + h + e + x == w + (a + (h + e + x))
  {
  }

  /** The signature, then the fields of the inode and those of its class. */
  method WriteInode(w: TokenFile, name: string, i: Inode)
    requires Writable(i)
    modifies w`data
    ensures w.data == old(w.data) + InodeEntry(name, i)
  {
    w.Put(Byte(Signature(i)));
    WriteHeader(w, name, i);
    WriteEa(w, i);
    WritePayload(w, i.payload, i.saved);
    Gather(old(w.data), [Byte(Signature(i))], HeaderTokens(name, i), EaTokens(i), PayloadTokens(i.payload, i.saved));
  }

  // ----- reading an inode

  method ReadHeader(f: TokenFile) returns (r: Parsed<Header>)
    modifies f`pos
    ensures r == TakeHeader(f.data, old(f.pos)) && (r.Got? ==> f.pos == r.next)
  {
    var name :- f.ReadStr();
    var flag :- f.ReadByte();
    if EaOf(flag.0).None? {
      return Fail(UnknownInodeFlag);
    }
    var uid :- f.ReadNum();
    var gid :- f.ReadNum();
    var perm :- f.ReadWord();
    var lastAccess :- f.ReadNum();
    var lastModif :- f.ReadNum();
    var lastChange :- f.ReadNum();
    r := Got(Header(name.0, EaOf(flag.0).value, uid.0, gid.0, perm.0, lastAccess.0, lastModif.0, lastChange.0), f.pos);
  }

  method ReadEa(f: TokenFile, ea: EaStatus) returns (r: Parsed<EaData>)
    requires f.pos <= |f.data|
    modifies f`pos
    ensures r == TakeEa(f.data, old(f.pos), ea) && (r.Got? ==> f.pos == r.next)
  {
    if ea != EaFull {
      return Got(EaData(0, 0, None), f.pos);
    }
    var size :- f.ReadNum();
    var offset :- f.ReadNum();
    var crc :- f.ReadSum();
    r := Got(EaData(size.0, offset.0, Some(crc.0)), f.pos);
  }

  method ReadStatus(f: TokenFile) returns (r: Parsed<(bool, bv8)>)
    modifies f`pos
    ensures r == TakeStatus(f.data, old(f.pos)) && (r.Got? ==> f.pos == r.next)
  {
    var b :- f.ReadByte();
    var dirty, flags := false, b.0;
    if flags & DATA_IS_DIRTY != 0 {
      dirty := true;
      flags := flags & !DATA_IS_DIRTY;
    }
    r := Got((dirty, flags), f.pos);
  }

  method ReadAlgo(f: TokenFile) returns (r: Parsed<Compression>)
    modifies f`pos
    ensures r == TakeAlgo(f.data, old(f.pos)) && (r.Got? ==> f.pos == r.next)
  {
    var c :- f.ReadByte();
    r := match CompressionOf(c.0) case Some(algo) => Got(algo, f.pos) case None => Fail(UnknownCompression);
  }

  method ReadData(f: TokenFile, s: SavedStatus, algo: Compression) returns (r: Parsed<FileData>)
    modifies f`pos
    ensures r == TakeData(f.data, old(f.pos), s, algo) && (r.Got? ==> f.pos == r.next)
  {
    var size :- f.ReadNum();
    if s != Saved {
      return Got(FileData(size.0, 0, 0, false, 0, algo, None), f.pos);
    }
    var offset :- f.ReadNum();
    var storage :- f.ReadNum();
    var status :- ReadStatus(f);
    var stored :- ReadAlgo(f);
    var crc :- f.ReadSum();
    r := Got(FileData(size.0, offset.0, storage.0, status.0.0, status.0.1, stored.0, Some(crc.0)), f.pos);
  }

  method ReadDevice(f: TokenFile, s: SavedStatus) returns (r: Parsed<(bv16, bv16)>)
    modifies f`pos
    ensures r == TakeDevice(f.data, old(f.pos), s) && (r.Got? ==> f.pos == r.next)
  {
    if s != Saved {
      return Got((0, 0), f.pos);
    }
    var major :- f.ReadWord();
    var minor :- f.ReadWord();
    r := Got((major.0, minor.0), f.pos);
  }

  method ReadPayload(f: TokenFile, k: Kind, s: SavedStatus, algo: Compression) returns (r: Parsed<Payload>)
    requires f.pos <= |f.data|
    modifies f`pos
    ensures r == TakePayload(f.data, old(f.pos), k, s, algo) && (r.Got? ==> f.pos == r.next)
  {
    match k
    case KFile => var d :- ReadData(f, s, algo); r := Got(Regular(d.0), f.pos);
    case KDoor => var d :- ReadData(f, s, algo); r := Got(Door(d.0), f.pos);
    case KLien =>
      if s != Saved {
        return Got(Lien(""), f.pos);
      }
      var target :- f.ReadStr();
      r := Got(Lien(target.0), f.pos);
    case KChar => var n :- ReadDevice(f, s); r := Got(CharDev(n.0.0, n.0.1), f.pos);
    case KBlock => var n :- ReadDevice(f, s); r := Got(BlockDev(n.0.0, n.0.1), f.pos);
    case KTube => r := Got(Tube, f.pos);
    case KPrise => r := Got(Prise, f.pos);
    case KDir => r := Got(Dir, f.pos);
  }

  method ReadInode(f: TokenFile, k: Kind, s: SavedStatus, algo: Compression) returns (r: Parsed<Named>)
    modifies f`pos
    ensures r == TakeInode(f.data, old(f.pos), k, s, algo) && (r.Got? ==> f.pos == r.next)
    ensures FindsWritten(f.data, old(f.pos), k, s, algo, r)
  {
    InodeFound(f.data, f.pos, k, s, algo);
    var h :- ReadHeader(f);
    var ea :- ReadEa(f, h.0.ea);
    var payload :- ReadPayload(f, k, s, algo);
    r := Got(Named(h.0.name, Inode(h.0.uid, h.0.gid, h.0.perm, h.0.lastAccess, h.0.lastModif, h.0.lastChange,
                                   s, h.0.ea, ea.0, 0, payload.0)), f.pos);
  }
}
