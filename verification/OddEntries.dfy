/** What reading makes of entries that are never written: links of the former format, and
    data that is not that of a catalogue. */
module OddEntries {
  import opened Entries
  import opened ValueTrees
  import opened Tokens
  import opened InodeCodec
  import opened Archives
  import opened Sections

  // ----- links of the former format

  /** e: a file and an etiquette, which make a link and its etoile, which has no name. */
  lemma OldStarRead(f: seq<Token>, p: nat, name: string, i: Inode, e: nat, corres: Corres, m: ReadMode)
    returns (b: Inode, q: nat)
    requires i.payload.Regular? && Writable(i) && Holds(f, p + 1, InodeTokens(name, i) + [Num(e)])
    requires p < |f| && f[p] == Byte(if i.saved == Saved then 0x65 else if i.saved == NotSaved then 0x45 else 0xE5)
    ensures InodeBack(i, b, m.algo) && q == p + |InodeTokens(name, i)| + 2
    ensures ParseEntry(f, p, corres, m) ==
            if e in corres then Fail(DuplicatedStar)
            else Got((AnEntry(NLink(name, e, b)), corres[e := Hosted("", b)]), q)
  {
    HoldsSplit(f, p + 1, InodeTokens(name, i), [Num(e)]);
    InodeRead(f, p + 1, name, i, m.algo);
    b, q := Stored(i, m.algo), p + |InodeTokens(name, i)| + 2;
    assert f[q - 1 + 0] == [Num(e)][0];
    OldStarLetter(f, p, i.saved, corres, m);
  }

  lemma OldStarLetter(f: seq<Token>, p: nat, s: SavedStatus, corres: Corres, m: ReadMode)
    requires p < |f| && f[p] == Byte(if s == Saved then 0x65 else if s == NotSaved then 0x45 else 0xE5)
    ensures ParseEntry(f, p, corres, m) == ParseOldStar(f, p + 1, s, corres, m)
  {
    SignatureCodec(f[p].b, 0x65, s);
  }

  /** h: a name and the etiquette of an etoile already read. */
  lemma OldLinkRead(f: seq<Token>, p: nat, name: string, e: nat, corres: Corres, m: ReadMode)
    requires Holds(f, p, [Byte(0x68), Str(name), Num(e)])
    ensures ParseEntry(f, p, corres, m) ==
            if e in corres then Got((AnEntry(NLink(name, e, corres[e].ino)), corres), p + 3) else Fail(StarNotFound)
  {
    var t := [Byte(0x68), Str(name), Num(e)];
    assert f[p + 0] == t[0] && f[p + 1] == t[1] && f[p + 2] == t[2];
    SignatureCodec(0x68, 0x68, Saved);
  }

  // ----- what is refused

  /** Only letters are signatures, and capital ones are not faked; the end of a directory and
      a deletion record are always small letters; b, c, d, e, f, h, l, m, o, p, s, x and z are
      the letters known. */
  lemma SignatureRefused(f: seq<Token>, p: nat, corres: Corres, m: ReadMode)
    requires p < |f| && f[p].Byte?
    ensures var b := f[p].b;
            b < 0x41 || 0x5A < b < 0x61 || 0x7A < b < 0xE1 || 0xFA < b
            || b == 0x5A || b == 0xFA || b == 0x58 || b == 0xF8
            ==> ParseEntry(f, p, corres, m) == Fail(CorruptedFile)
    ensures var b := f[p].b;
            b == 0x61 || b == 0x67 || b == 0x69 || b == 0x6A || b == 0x6B || b == 0x6E || b == 0x71 || b == 0x72
            || b == 0x74 || b == 0x75 || b == 0x76 || b == 0x77 || b == 0x79
            ==> ParseEntry(f, p, corres, m) == Fail(UnknownType)
  {
    var b := f[p].b;
    Letters(b);
  }

  lemma Letters(b: bv8)
    ensures (b < 0x41 || 0x5A < b < 0x61 || 0x7A < b < 0xE1 || 0xFA < b) ==> ExtractBase(b) == None
    ensures b == 0x5A ==> ExtractBase(b) == Some((0x7A, NotSaved))
    ensures b == 0xFA ==> ExtractBase(b) == Some((0x7A, Fake))
    ensures b == 0x58 ==> ExtractBase(b) == Some((0x78, NotSaved))
    ensures b == 0xF8 ==> ExtractBase(b) == Some((0x78, Fake))
    ensures 0x61 <= b <= 0x7A ==> ExtractBase(b) == Some((b, Saved))
  {
  }

  /** A link whose flag is neither of the two, or whose inode is not there. */
  lemma LinkRefused(f: seq<Token>, p: nat, name: string, e: nat, flag: bv8, corres: Corres, m: ReadMode)
    requires Holds(f, p, [Byte(0x6D), Str(name), Num(e), Byte(flag)])
    ensures flag != 0x58 && flag != 0x3E ==> ParseEntry(f, p, corres, m) == Fail(UnknownLinkFlag)
    ensures flag == 0x58 && e !in corres ==> ParseEntry(f, p, corres, m) == Fail(StarNotFound)
    ensures flag == 0x58 && e in corres ==>
              ParseEntry(f, p, corres, m) == Got((AnEntry(NLink(name, e, corres[e].ino)), corres), p + 4)
  {
    LinkHeadRead(f, p, name, e, flag, corres, m);
  }

  /** A link that brings something else than an inode, or an inode already there. */
  lemma HostedRefused(f: seq<Token>, p: nat, name: string, e: nat, corres: Corres, m: ReadMode)
    requires Holds(f, p, [Byte(0x6D), Str(name), Num(e), Byte(0x3E)])
    ensures match ParseEntry(f, p + 4, corres, m)
            case Fail(error) => ParseEntry(f, p, corres, m) == Fail(error)
            case Got((AnEntry(NLeaf(Plain(hosted, ino))), c), q) =>
              ParseEntry(f, p, corres, m) ==
              (if e in c then Fail(DuplicatedStar)
               else Got((AnEntry(NLink(name, e, ino)), c[e := Hosted(hosted, ino)]), q))
            case Got(_, _) => ParseEntry(f, p, corres, m) == Fail(NotAnInode)
  {
    LinkHeadRead(f, p, name, e, 0x3E, corres, m);
  }

  /** Flags of attributes and letters of compression that do not exist. */
  lemma FieldsRefused(f: seq<Token>, p: nat)
    requires p + 1 < |f| && f[p].Str? && f[p + 1].Byte?
    ensures f[p + 1].b & 0x07 in {0, 6, 7} ==> TakeHeader(f, p) == Fail(UnknownInodeFlag)
    ensures f[p + 1].b != 0x6E && f[p + 1].b != 0x7A && f[p + 1].b != 0x79 && f[p + 1].b != 0x6C ==>
              TakeAlgo(f, p + 1) == Fail(UnknownCompression)
  {
  }

  /** The entries of a directory must come to its end. */
  lemma EndRefused(f: seq<Token>, p: nat, corres: Corres, m: ReadMode)
    requires p >= |f|
    ensures ParseKids(f, p, corres, m) == Fail(MissingData)
  {
  }

  /** The checksum is that of all that precedes it. */
  lemma ChecksumRefused(f: seq<Token>, p: nat, q: nat, dataName: seq<bv8>, root: Named, m: ReadMode,
                        sum: seq<Token> -> seq<bv8>)
    requires ParseKids(f, p, map[], m).Got? && q == ParseKids(f, p, map[], m).next < |f| && f[q].Sum?
    ensures ParseBody(f, p, dataName, root, m, sum).Got? <==> f[q].crc == sum(f[..q])
    ensures f[q].crc != sum(f[..q]) ==> ParseBody(f, p, dataName, root, m, sum) == Fail(WrongChecksum)
  {
  }

  /** A section begins with a directory, saved or not. */
  lemma RootRefused(f: seq<Token>, m: ReadMode, sum: seq<Token> -> seq<bv8>)
    requires |f| > 1 && f[0].Label? && f[1].Byte? && f[1].b != 0x64 && f[1].b != 0x44 && f[1].b != 0xE4
    ensures ParseSection(f, m, sum) == Fail(IncoherentCatalogue)
  {
    forall s: SavedStatus ensures ExtractBase(f[1].b) != Some((0x64, s)) {
      SignatureCodec(f[1].b, 0x64, s);
    }
  }
}
