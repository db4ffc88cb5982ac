/** One inode in the catalogue section: what is written, what is read back, and that the
    second finds everything the first wrote. */
module InodeCodec {
  import opened Entries
  import opened Tokens

  /** What can be written without meeting a missing checksum, an internal error. */
  predicate Writable(i: Inode) {
    && (i.ea == EaFull ==> i.eaData.crc.Some?)
    && (i.saved == Saved && (i.payload.Regular? || i.payload.Door?) ==> i.payload.data.crc.Some?)
  }

  // ----- writing

  function EaTokens(i: Inode): seq<Token>
    requires Writable(i)
  {
    if i.ea == EaFull then [Num(i.eaData.size), Num(i.eaData.offset), Sum(i.eaData.crc.value)] else []
  }

  function DirtyStatus(d: FileData): bv8 {
    d.status | if d.dirty then DATA_IS_DIRTY else 0
  }

  function DataTokens(d: FileData, s: SavedStatus): seq<Token>
    requires s == Saved ==> d.crc.Some?
  {
    if s == Saved then
      [Num(d.size), Num(d.offset), Num(d.storageSize),
       Byte(DirtyStatus(d)), Byte(CompressionByte(d.algo)), Sum(d.crc.value)]
    else [Num(d.size)]
  }

  function PayloadTokens(p: Payload, s: SavedStatus): seq<Token>
    requires s == Saved && (p.Regular? || p.Door?) ==> p.data.crc.Some?
  {
    match p
    case Regular(d) => DataTokens(d, s)
    case Door(d) => DataTokens(d, s)
    case Lien(target) => if s == Saved then [Str(target)] else []
    case CharDev(major, minor) => if s == Saved then [Word(major), Word(minor)] else []
    case BlockDev(major, minor) => if s == Saved then [Word(major), Word(minor)] else []
    case _ => []
  }

  /** inode::inherited_dump after the signature, with what each class adds to it. */
  function InodeTokens(name: string, i: Inode): seq<Token>
    requires Writable(i)
  {
    HeaderTokens(name, i) + EaTokens(i) + PayloadTokens(i.payload, i.saved)
  }

  function HeaderTokens(name: string, i: Inode): seq<Token> {
    [Str(name), Byte(EaFlag(i.ea)), Num(i.uid), Num(i.gid), Word(i.perm),
     Num(i.lastAccess), Num(i.lastModif), Num(i.lastChange)]
  }

  // ----- reading

  datatype Header = Header(name: string, ea: EaStatus, uid: nat, gid: nat, perm: bv16,
                           lastAccess: nat, lastModif: nat, lastChange: nat)

  function TakeHeader(f: seq<Token>, p: nat): (r: Parsed<Header>)
    ensures r.Got? ==> r.next == p + 8 <= |f|
  {
    var (name, p1) :- TakeStr(f, p);
    var (flag, p2) :- TakeByte(f, p1);
    if EaOf(flag).None? then Fail(UnknownInodeFlag)
    else
      var (uid, p3) :- TakeNum(f, p2);
      var (gid, p4) :- TakeNum(f, p3);
      var (perm, p5) :- TakeWord(f, p4);
      var (lastAccess, p6) :- TakeNum(f, p5);
      var (lastModif, p7) :- TakeNum(f, p6);
      var (lastChange, p8) :- TakeNum(f, p7);
      Got(Header(name, EaOf(flag).value, uid, gid, perm, lastAccess, lastModif, lastChange), p8)
  }

  function TakeEa(f: seq<Token>, p: nat, ea: EaStatus): (r: Parsed<EaData>)
    requires p <= |f|
    ensures r.Got? ==> p <= r.next <= |f|
  {
    if ea != EaFull then Got(EaData(0, 0, None), p)
    else
      var (size, p1) :- TakeNum(f, p);
      var (offset, p2) :- TakeNum(f, p1);
      var (crc, p3) :- TakeSum(f, p2);
      Got(EaData(size, offset, Some(crc)), p3)
  }

  /** The dirty mark, and the data status without it. */
  function TakeStatus(f: seq<Token>, p: nat): Parsed<(bool, bv8)> {
    var (b, p1) :- TakeByte(f, p);
    Got((b & DATA_IS_DIRTY != 0, b & !DATA_IS_DIRTY), p1)
  }

  function TakeAlgo(f: seq<Token>, p: nat): Parsed<Compression> {
    var (c, p1) :- TakeByte(f, p);
    match CompressionOf(c)
    case Some(algo) => Got(algo, p1)
    case None => Fail(UnknownCompression)
  }

  function TakeData(f: seq<Token>, p: nat, s: SavedStatus, algo: Compression): Parsed<FileData> {
    var (size, p1) :- TakeNum(f, p);
    if s != Saved then Got(FileData(size, 0, 0, false, 0, algo, None), p1)
    else
      var (offset, p2) :- TakeNum(f, p1);
      var (storage, p3) :- TakeNum(f, p2);
      var (status, p4) :- TakeStatus(f, p3);
      var (stored, p5) :- TakeAlgo(f, p4);
      var (crc, p6) :- TakeSum(f, p5);
      Got(FileData(size, offset, storage, status.0, status.1, stored, Some(crc)), p6)
  }

  function TakeDevice(f: seq<Token>, p: nat, s: SavedStatus): Parsed<(bv16, bv16)> {
    if s != Saved then Got((0, 0), p)
    else
      var (major, p1) :- TakeWord(f, p);
      var (minor, p2) :- TakeWord(f, p1);
      Got((major, minor), p2)
  }

  /** The class of an entry by its base letter. */
  datatype Kind = KFile | KDoor | KLien | KChar | KBlock | KTube | KPrise | KDir

  function KindOf(p: Payload): Kind {
    match p
    case Regular(_) => KFile
    case Door(_) => KDoor
    case Lien(_) => KLien
    case CharDev(_, _) => KChar
    case BlockDev(_, _) => KBlock
    case Tube => KTube
    case Prise => KPrise
    case Dir => KDir
  }

  function KindByLetter(base: bv8): Option<Kind> {
    if base == 0x66 then Some(KFile)
    else if base == 0x6F then Some(KDoor)
    else if base == 0x6C then Some(KLien)
    else if base == 0x63 then Some(KChar)
    else if base == 0x62 then Some(KBlock)
    else if base == 0x70 then Some(KTube)
    else if base == 0x73 then Some(KPrise)
    else if base == 0x64 then Some(KDir)
    else None
  }

  function TakePayload(f: seq<Token>, p: nat, k: Kind, s: SavedStatus, algo: Compression): (r: Parsed<Payload>)
    requires p <= |f|
    ensures r.Got? ==> p <= r.next <= |f|
  {
    match k
    case KFile => var (d, p1) :- TakeData(f, p, s, algo); Got(Regular(d), p1)
    case KDoor => var (d, p1) :- TakeData(f, p, s, algo); Got(Door(d), p1)
    case KLien =>
      if s != Saved then Got(Lien(""), p)
      else var (target, p1) :- TakeStr(f, p); Got(Lien(target), p1)
    case KChar => var (n, p1) :- TakeDevice(f, p, s); Got(CharDev(n.0, n.1), p1)
    case KBlock => var (n, p1) :- TakeDevice(f, p, s); Got(BlockDev(n.0, n.1), p1)
    case KTube => Got(Tube, p)
    case KPrise => Got(Prise, p)
    case KDir => Got(Dir, p)
  }

  datatype Named = Named(name: string, ino: Inode)

  function TakeInode(f: seq<Token>, p: nat, k: Kind, s: SavedStatus, algo: Compression): (r: Parsed<Named>)
    ensures r.Got? ==> p < r.next <= |f|
  {
    var (h, p1) :- TakeHeader(f, p);
    var (ea, p2) :- TakeEa(f, p1, h.ea);
    var (payload, p3) :- TakePayload(f, p2, k, s, algo);
    Got(Named(h.name, Inode(h.uid, h.gid, h.perm, h.lastAccess, h.lastModif, h.lastChange, s, h.ea, ea, 0, payload)),
      p3)
  }

  // ----- what comes back

  function StoredData(d: FileData, s: SavedStatus, algo: Compression): FileData {
    if s == Saved then
      d.(dirty := d.dirty || d.status & DATA_IS_DIRTY != 0, status := d.status & !DATA_IS_DIRTY)
    else FileData(d.size, 0, 0, false, 0, algo, None)
  }

  function StoredPayload(x: Payload, s: SavedStatus, algo: Compression): Payload {
    match x
    case Regular(d) => Regular(StoredData(d, s, algo))
    case Door(d) => Door(StoredData(d, s, algo))
    case Lien(_) => if s == Saved then x else Lien("")
    case CharDev(_, _) => if s == Saved then x else CharDev(0, 0)
    case BlockDev(_, _) => if s == Saved then x else BlockDev(0, 0)
    case _ => x
  }

  function StoredEa(i: Inode): EaData {
    if i.ea == EaFull then i.eaData else EaData(0, 0, None)
  }

  /** An inode once written and read: the device of its filesystem is forgotten, and so is
      what belongs to data or attributes that are not saved; the dirty mark is one bit of
      the data status. */
  function Stored(i: Inode, algo: Compression): Inode {
    i.(device := 0, eaData := StoredEa(i), payload := StoredPayload(i.payload, i.saved, algo))
  }

  // ----- what comes back, field by field

  /** Data of a file: its size in any case; where it is stored, how, its checksum and its
      status when it is saved, a file being dirty iff it was or its status had that bit. */
  ghost predicate DataBack(a: FileData, b: FileData, s: SavedStatus, algo: Compression) {
    && b.size == a.size
    && (s == Saved ==>
          && b.offset == a.offset && b.storageSize == a.storageSize && b.algo == a.algo && b.crc == a.crc
          && b.status & 0x02 == 0 && b.status | 0x02 == a.status | 0x02
          && (b.dirty <==> a.dirty || a.status & 0x02 == 0x02))
    && (s != Saved ==>
          b.offset == 0 && b.storageSize == 0 && b.algo == algo && b.crc == None && b.status == 0 && !b.dirty)
  }

  /** The class in any case; all of the rest when it is saved. */
  ghost predicate PayloadBack(a: Payload, b: Payload, s: SavedStatus, algo: Compression) {
    match a
    case Regular(d) => b.Regular? && DataBack(d, b.data, s, algo)
    case Door(d) => b.Door? && DataBack(d, b.data, s, algo)
    case Lien(target) => b.Lien? && b.target == if s == Saved then target else ""
    case CharDev(x, y) => b.CharDev? && (s == Saved ==> b == a) && (s != Saved ==> b.major == 0 && b.minor == 0)
    case BlockDev(x, y) => b.BlockDev? && (s == Saved ==> b == a) && (s != Saved ==> b.major == 0 && b.minor == 0)
    case Tube => b.Tube?
    case Prise => b.Prise?
    case Dir => b.Dir?
  }

  /** b is what is found of the inode a. */
  ghost predicate InodeBack(a: Inode, b: Inode, algo: Compression) {
    && b.uid == a.uid && b.gid == a.gid && b.perm == a.perm
    && b.lastAccess == a.lastAccess && b.lastModif == a.lastModif && b.lastChange == a.lastChange
    && b.saved == a.saved && b.ea == a.ea && b.device == 0
    && (a.ea == EaFull ==> b.eaData == a.eaData)
    && (a.ea != EaFull ==> b.eaData.size == 0 && b.eaData.offset == 0 && b.eaData.crc == None)
    && PayloadBack(a.payload, b.payload, a.saved, algo)
  }

  lemma StatusBack(a: bv8, b: bv8)
    ensures b & 0x02 == 0 && b | 0x02 == a | 0x02 <==> b == a & !DATA_IS_DIRTY
    ensures a & 0x02 == 0x02 <==> a & DATA_IS_DIRTY != 0
  {
  }

  lemma DataIsBack(a: FileData, b: FileData, s: SavedStatus, algo: Compression)
    ensures DataBack(a, b, s, algo) <==> b == StoredData(a, s, algo)
  {
    StatusBack(a.status, b.status);
  }

  lemma PayloadIsBack(a: Payload, b: Payload, s: SavedStatus, algo: Compression)
    ensures PayloadBack(a, b, s, algo) <==> b == StoredPayload(a, s, algo)
  {
    if (a.Regular? && b.Regular?) || (a.Door? && b.Door?) {
      DataIsBack(a.data, b.data, s, algo);
    }
  }

  /** The stored form has these fields, and is alone to have them. */
  lemma StoredIsBack(i: Inode, b: Inode, algo: Compression)
    ensures InodeBack(i, b, algo) <==> b == Stored(i, algo)
  {
    PayloadIsBack(i.payload, b.payload, i.saved, algo);
  }

  lemma StatusByte(status: bv8, dirty: bool)
    ensures var b := status | if dirty then DATA_IS_DIRTY else 0;
            && (b & DATA_IS_DIRTY != 0) == (dirty || status & DATA_IS_DIRTY != 0)
            && b & !DATA_IS_DIRTY == status & !DATA_IS_DIRTY
  {
  }

  lemma DataRead(f: seq<Token>, p: nat, d: FileData, s: SavedStatus, algo: Compression)
    requires (s == Saved ==> d.crc.Some?) && Holds(f, p, DataTokens(d, s))
    ensures TakeData(f, p, s, algo) == Got(StoredData(d, s, algo), p + |DataTokens(d, s)|)
  {
    var t := DataTokens(d, s);
    assert f[p + 0] == t[0];
    if s == Saved {
      assert f[p + 1] == t[1] && f[p + 2] == t[2] && f[p + 3] == t[3] && f[p + 4] == t[4] && f[p + 5] == t[5];
      StatusRead(f, p + 3, d);
      AlgoRead(f, p + 4, d.algo);
    }
  }

  lemma StatusRead(f: seq<Token>, p: nat, d: FileData)
    requires p < |f| && f[p] == Byte(DirtyStatus(d))
    ensures TakeStatus(f, p) == Got((d.dirty || d.status & DATA_IS_DIRTY != 0, d.status & !DATA_IS_DIRTY), p + 1)
  {
    StatusByte(d.status, d.dirty);
  }

  lemma AlgoRead(f: seq<Token>, p: nat, c: Compression)
    requires p < |f| && f[p] == Byte(CompressionByte(c))
    ensures TakeAlgo(f, p) == Got(c, p + 1)
  {
  }

  lemma PayloadRead(f: seq<Token>, p: nat, x: Payload, s: SavedStatus, algo: Compression)
    requires s == Saved && (x.Regular? || x.Door?) ==> x.data.crc.Some?
    requires Holds(f, p, PayloadTokens(x, s))
    ensures TakePayload(f, p, KindOf(x), s, algo) == Got(StoredPayload(x, s, algo), p + |PayloadTokens(x, s)|)
  {
    var t := PayloadTokens(x, s);
    match x
    case Regular(d) => DataRead(f, p, d, s, algo);
    case Door(d) => DataRead(f, p, d, s, algo);
    case Lien(_) => if s == Saved { assert f[p + 0] == t[0]; }
    case CharDev(_, _) => if s == Saved { assert f[p + 0] == t[0] && f[p + 1] == t[1]; }
    case BlockDev(_, _) => if s == Saved { assert f[p + 0] == t[0] && f[p + 1] == t[1]; }
    case _ =>
  }

  /** Reading finds the inode that was written, in its stored form, and stops exactly after
      it. */
  lemma InodeRead(f: seq<Token>, p: nat, name: string, i: Inode, algo: Compression)
    requires Writable(i) && Holds(f, p, InodeTokens(name, i))
    ensures TakeInode(f, p, KindOf(i.payload), i.saved, algo) ==
              Got(Named(name, Stored(i, algo)), p + |InodeTokens(name, i)|)
    ensures InodeBack(i, Stored(i, algo), algo)
  {
    StoredIsBack(i, Stored(i, algo), algo);
    var p2 := PartsHold(f, p, name, i);
    HeaderRead(f, p, name, i);
    EaRead(f, p + 8, i);
    PayloadRead(f, p2, i.payload, i.saved, algo);
    TakeInOrder(f, p, KindOf(i.payload), i.saved, algo,
                Header(name, i.ea, i.uid, i.gid, i.perm, i.lastAccess, i.lastModif, i.lastChange),
                StoredEa(i), p2, StoredPayload(i.payload, i.saved, algo), p2 + |PayloadTokens(i.payload, i.saved)|);
  }

  /** Reading at p an inode of that class and status, which was written there, finds its name
      and its fields. */
  ghost predicate FindsWritten(f: seq<Token>, p: nat, k: Kind, s: SavedStatus, algo: Compression, r: Parsed<Named>) {
    forall name, i {:trigger InodeTokens(name, i)} ::
      Writable(i) && k == KindOf(i.payload) && s == i.saved && Holds(f, p, InodeTokens(name, i)) ==>
        r.Got? && r.value.name == name && InodeBack(i, r.value.ino, algo) && r.next == p + |InodeTokens(name, i)|
  }

  lemma InodeFound(f: seq<Token>, p: nat, k: Kind, s: SavedStatus, algo: Compression)
    ensures FindsWritten(f, p, k, s, algo, TakeInode(f, p, k, s, algo))
  {
    forall name, i {:trigger InodeTokens(name, i)} |
      Writable(i) && k == KindOf(i.payload) && s == i.saved && Holds(f, p, InodeTokens(name, i))
      ensures var r := TakeInode(f, p, k, s, algo);
              r.Got? && r.value.name == name && InodeBack(i, r.value.ino, algo) && r.next == p + |InodeTokens(name, i)|
    {
      InodeRead(f, p, name, i, algo);
    }
  }

  /** Where each part of the inode is. */
  lemma PartsHold(f: seq<Token>, p: nat, name: string, i: Inode) returns (p2: nat)
    requires Writable(i) && Holds(f, p, InodeTokens(name, i))
    ensures Holds(f, p, HeaderTokens(name, i)) && p + 8 <= |f| && Holds(f, p + 8, EaTokens(i))
    ensures p2 == p + 8 + |EaTokens(i)| <= |f| && Holds(f, p2, PayloadTokens(i.payload, i.saved))
    ensures p2 + |PayloadTokens(i.payload, i.saved)| == p + |InodeTokens(name, i)|
  {
    var h, e, x := HeaderTokens(name, i), EaTokens(i), PayloadTokens(i.payload, i.saved);
    HoldsSplit(f, p, h + e, x);
    HoldsSplit(f, p, h, e);
    p2 := p + 8 + |e|;
  }

  lemma TakeInOrder(f: seq<Token>, p: nat, k: Kind, s: SavedStatus, algo: Compression, h: Header, ea: EaData, p2: nat,
                    x: Payload, p3: nat)
    requires TakeHeader(f, p) == Got(h, p + 8) && p + 8 <= |f| && TakeEa(f, p + 8, h.ea) == Got(ea, p2) && p2 <= |f|
    requires TakePayload(f, p2, k, s, algo) == Got(x, p3)
    ensures TakeInode(f, p, k, s, algo) ==
            Got(Named(h.name, Inode(h.uid, h.gid, h.perm, h.lastAccess, h.lastModif, h.lastChange, s, h.ea, ea, 0, x)),
              p3)
  {
  }

  lemma HeaderRead(f: seq<Token>, p: nat, name: string, i: Inode)
    requires Holds(f, p, HeaderTokens(name, i))
    ensures TakeHeader(f, p) ==
              Got(Header(name, i.ea, i.uid, i.gid, i.perm, i.lastAccess, i.lastModif, i.lastChange), p + 8)
  {
    var h := HeaderTokens(name, i);
    assert f[p + 0] == h[0] && f[p + 1] == h[1] && f[p + 2] == h[2] && f[p + 3] == h[3];
    assert f[p + 4] == h[4] && f[p + 5] == h[5] && f[p + 6] == h[6] && f[p + 7] == h[7];
    EaCodec(i.ea);
  }

  lemma EaCodec(e: EaStatus)
    ensures EaOf(EaFlag(e)) == Some(e)
  {
  }

  lemma EaRead(f: seq<Token>, p: nat, i: Inode)
    requires Writable(i) && Holds(f, p, EaTokens(i))
    ensures TakeEa(f, p, i.ea) == Got(StoredEa(i), p + |EaTokens(i)|)
  {
    var e := EaTokens(i);
    if i.ea == EaFull {
      assert f[p + 0] == e[0] && f[p + 1] == e[1] && f[p + 2] == e[2];
    }
  }

  lemma KindCodec(i: Inode)
    ensures ExtractBase(Signature(i)) == Some((BaseSignature(i.payload), i.saved))
    ensures KindByLetter(BaseSignature(i.payload)) == Some(KindOf(i.payload))
  {
    SignatureCodec(Signature(i), BaseSignature(i.payload), i.saved);
  }
}
