/** The bytes and fields of a catalogue section, format 8 and above, in the order in which
    they are written. */
module SectionFormats {
  import opened Entries
  import opened ValueTrees
  import opened Tokens
  import opened InodeCodec
  import opened Archives

  /** n: none, z: gzip, y: bzip2, l: lzo. */
  ghost predicate CompressedAs(c: Compression, b: bv8) {
    && (c.NoCompression? <==> b == 0x6E) && (c.Gzip? <==> b == 0x7A)
    && (c.Bzip2? <==> b == 0x79) && (c.Lzo? <==> b == 0x6C)
  }

  /** 1: full, 2: partial, 3: none, 4: faked, 5: removed. */
  ghost predicate FlaggedAs(e: EaStatus, b: bv8) {
    && (e.EaFull? <==> b == 1) && (e.EaPartial? <==> b == 2) && (e.EaNone? <==> b == 3)
    && (e.EaFake? <==> b == 4) && (e.EaRemoved? <==> b == 5)
  }

  ghost predicate DataFormat(d: FileData, saved: bool, t: seq<Token>) {
    if !saved then t == [Num(d.size)]
    else
      && |t| == 6 && t[..3] == [Num(d.size), Num(d.offset), Num(d.storageSize)]
      && t[3] == Byte(if d.dirty then d.status | 0x02 else d.status)
      && t[4].Byte? && CompressedAs(d.algo, t[4].b) && t[5].Sum? && d.crc == Some(t[5].crc)
  }

  ghost predicate PayloadFormat(x: Payload, saved: bool, t: seq<Token>) {
    match x
    case Regular(d) => DataFormat(d, saved, t)
    case Door(d) => DataFormat(d, saved, t)
    case Lien(target) => t == if saved then [Str(target)] else []
    case CharDev(major, minor) => t == if saved then [Word(major), Word(minor)] else []
    case BlockDev(major, minor) => t == if saved then [Word(major), Word(minor)] else []
    case _ => t == []
  }

  /** t is what an inode i called name is written as. */
  ghost predicate InodeFormat(name: string, i: Inode, t: seq<Token>) {
    var k := if i.ea == EaFull then 12 else 9;
    && |t| >= k && t[0].Byte? && SignedAs(i, t[0].b) && t[1] == Str(name) && t[2].Byte? && FlaggedAs(i.ea, t[2].b)
    && t[3..9] == [Num(i.uid), Num(i.gid), Word(i.perm), Num(i.lastAccess), Num(i.lastModif), Num(i.lastChange)]
    && (i.ea == EaFull ==> i.eaData.crc.Some? &&
                           t[9..12] == [Num(i.eaData.size), Num(i.eaData.offset), Sum(i.eaData.crc.value)])
    && PayloadFormat(i.payload, i.saved == Saved, t[k..])
  }

  /** How an entry begins, what follows it and how it ends. */
  ghost predicate NodeFormat(n: Node, hubs: Hubs, dumped: set<nat>, t: seq<Token>)
    requires Fit(n, hubs)
  {
    match n
    case NDir(name, ino, kids) =>
      exists h :: InodeFormat(name, ino, h) && t == h + DumpForest(kids, hubs, dumped).0 + [Byte(0x7A)]
    case NLink(name, e, ino) =>
      if hubs[e].Alone? then InodeFormat(name, ino, t)
      else if e in dumped then t == [Byte(0x6D), Str(name), Num(e), Byte(0x58)]
      else |t| > 4 && t[..4] == [Byte(0x6D), Str(name), Num(e), Byte(0x3E)] && InodeFormat(hubs[e].hosted, ino, t[4..])
    case NLeaf(Plain(name, ino)) => InodeFormat(name, ino, t)
    case NLeaf(Detruit(name, signe, date)) => t == [Byte(0x78), Str(name), Byte(signe), Num(date)]
    case NLeaf(Ignored(_)) => t == []
    case NLeaf(IgnoredDir(name, ino)) =>
      exists b, h :: BareBack(ino, b) && InodeFormat(name, b, h) && t == h + [Byte(0x7A)]
  }

  lemma PayloadTokensFormat(x: Payload, s: SavedStatus)
    requires s == Saved && (x.Regular? || x.Door?) ==> x.data.crc.Some?
    ensures PayloadFormat(x, s == Saved, PayloadTokens(x, s))
  {
  }

  lemma InodeIsFormatted(name: string, i: Inode)
    requires Writable(i)
    ensures InodeFormat(name, i, InodeEntry(name, i))
  {
    var h, e, x := HeaderTokens(name, i), EaTokens(i), PayloadTokens(i.payload, i.saved);
    var t, k := InodeEntry(name, i), if i.ea == EaFull then 12 else 9;
    SignedIsRead(i, Signature(i));
    PayloadTokensFormat(i.payload, i.saved);
    assert t == [Byte(Signature(i))] + (h + e + x);
    assert t[k..] == x && t[9..k] == e && t[3..9] == h[2..];
  }

  /** Every entry is written in this form. */
  lemma NodeIsFormatted(n: Node, hubs: Hubs, dumped: set<nat>)
    requires Fit(n, hubs)
    ensures NodeFormat(n, hubs, dumped, DumpNode(n, hubs, dumped).0)
  {
    match n
    case NDir(name, ino, _) => InodeIsFormatted(name, ino);
    case NLink(name, e, ino) =>
      InodeIsFormatted(if hubs[e].Shared? then hubs[e].hosted else name, ino);
      if hubs[e].Shared? && e !in dumped {
        LinkIsFormatted(name, e, InodeEntry(hubs[e].hosted, ino));
      }
    case NLeaf(Plain(name, ino)) => InodeIsFormatted(name, ino);
    case NLeaf(IgnoredDir(name, ino)) => InodeIsFormatted(name, BareDirectory(ino));
    case NLeaf(_) =>
  }

  lemma LinkIsFormatted(name: string, e: nat, t: seq<Token>)
    requires t != []
    ensures var r := LinkHead(name, e, MIRAGE_WITH_INODE) + t;
            |r| > 4 && r[..4] == [Byte(0x6D), Str(name), Num(e), Byte(0x3E)] && r[4..] == t
  {
  }
}
