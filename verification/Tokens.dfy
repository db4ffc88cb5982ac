/** The catalogue section of an archive, format 8 and above, as a sequence of tokens: single
    bytes, self-delimited integers and strings, 16-bit words in network order, checksums. */
module Tokens {
  import opened Entries

  datatype Token =
    | Byte(b: bv8)
    | Str(s: string)
    | Num(n: nat)
    | Word(w: bv16)
    | Sum(crc: seq<bv8>)
    | Label(id: seq<bv8>)

  datatype ReadError =
    | MissingData
    | CorruptedFile
    | UnknownType
    | UnknownInodeFlag
    | UnknownCompression
    | UnknownLinkFlag
    | StarNotFound
    | DuplicatedStar
    | NotAnInode
    | IncoherentCatalogue
    | WrongChecksum

  /** What reading at a position gives, and the position after it. */
  datatype Parsed<+T> = Got(value: T, next: nat) | Fail(error: ReadError)
  {
    predicate IsFailure() { Fail? }

    function PropagateFailure<U>(): Parsed<U>
      requires Fail?
    {
      Fail(error)
    }

    function Extract(): (T, nat)
      requires Got?
    {
      (value, next)
    }
  }

  function TakeByte(f: seq<Token>, p: nat): Parsed<bv8> {
    if p < |f| && f[p].Byte? then Got(f[p].b, p + 1) else Fail(MissingData)
  }

  function TakeStr(f: seq<Token>, p: nat): Parsed<string> {
    if p < |f| && f[p].Str? then Got(f[p].s, p + 1) else Fail(MissingData)
  }

  function TakeNum(f: seq<Token>, p: nat): Parsed<nat> {
    if p < |f| && f[p].Num? then Got(f[p].n, p + 1) else Fail(MissingData)
  }

  function TakeWord(f: seq<Token>, p: nat): Parsed<bv16> {
    if p < |f| && f[p].Word? then Got(f[p].w, p + 1) else Fail(MissingData)
  }

  function TakeSum(f: seq<Token>, p: nat): Parsed<seq<bv8>> {
    if p < |f| && f[p].Sum? then Got(f[p].crc, p + 1) else Fail(MissingData)
  }

  function TakeLabel(f: seq<Token>, p: nat): Parsed<seq<bv8>> {
    if p < |f| && f[p].Label? then Got(f[p].id, p + 1) else Fail(IncoherentCatalogue)
  }

  /** f holds the tokens s at position p. */
  ghost predicate Holds(f: seq<Token>, p: nat, s: seq<Token>) {
    p + |s| <= |f| && forall i {:trigger s[i]} :: 0 <= i < |s| ==> f[p + i] == s[i]
  }

  lemma HoldsSplit(f: seq<Token>, p: nat, a: seq<Token>, b: seq<Token>)
    ensures Holds(f, p, a + b) <==> Holds(f, p, a) && Holds(f, p + |a|, b)
  {
    var s := a + b;
    if Holds(f, p, s) {
      forall i | 0 <= i < |a| ensures f[p + i] == a[i] {
        assert s[i] == a[i];
      }
      forall i | 0 <= i < |b| ensures f[p + |a| + i] == b[i] {
        assert s[|a| + i] == b[i];
      }
    }
    if Holds(f, p, a) && Holds(f, p + |a|, b) {
      forall i | 0 <= i < |s| ensures f[p + i] == s[i] {
        if i < |a| {
          assert s[i] == a[i];
        } else {
          assert s[i] == b[i - |a|] && f[p + |a| + (i - |a|)] == b[i - |a|];
        }
      }
    }
  }

  // ----- signature bytes

  predicate IsLower(b: bv8) { 0x61 <= b <= 0x7A }

  predicate IsUpper(b: bv8) { 0x41 <= b <= 0x5A }

  /** extract_base_and_status: the class letter and the saved status of a signature. */
  function ExtractBase(sig: bv8): Option<(bv8, SavedStatus)> {
    var s := sig & !SAVED_FAKE_BIT;
    if !IsLower(s) && !IsUpper(s) then None
    else
      var base := if IsUpper(s) then s | CASE_BIT else s;
      if sig & SAVED_FAKE_BIT != 0 then (if base == s then Some((base, Fake)) else None)
      else Some((base, if s == base then Saved else NotSaved))
  }

  /** A signature is accepted iff it was made from a lower case letter, which is then
      found again with the status. */
  lemma SignatureCodec(sig: bv8, base: bv8, s: SavedStatus)
    ensures ExtractBase(sig) == Some((base, s)) <==> IsLower(base) && sig == MkSignature(base, s)
  {
  }

  /** b tells the class of i by its letter, which is lower case when the data is saved, upper
      case when it is not, and lower case with the high bit when it is faked. */
  ghost predicate SignedAs(i: Inode, b: bv8) {
    && (i.saved == Saved <==> IsLower(b)) && (i.saved == NotSaved <==> IsUpper(b)) && (i.saved == Fake <==> b >= 0x80)
    && (i.payload.Regular? <==> b == 0x66 || b == 0x46 || b == 0xE6)
    && (i.payload.Door? <==> b == 0x6F || b == 0x4F || b == 0xEF)
    && (i.payload.Lien? <==> b == 0x6C || b == 0x4C || b == 0xEC)
    && (i.payload.CharDev? <==> b == 0x63 || b == 0x43 || b == 0xE3)
    && (i.payload.BlockDev? <==> b == 0x62 || b == 0x42 || b == 0xE2)
    && (i.payload.Tube? <==> b == 0x70 || b == 0x50 || b == 0xF0)
    && (i.payload.Prise? <==> b == 0x73 || b == 0x53 || b == 0xF3)
    && (i.payload.Dir? <==> b == 0x64 || b == 0x44 || b == 0xE4)
  }

  /** The table of signatures, as it is made and as it is read. */
  lemma SignedIsRead(i: Inode, b: bv8)
    ensures SignedAs(i, b) <==> b == Signature(i)
    ensures SignedAs(i, b) <==> ExtractBase(b) == Some((BaseSignature(i.payload), i.saved))
  {
    SignatureCodec(b, BaseSignature(i.payload), i.saved);
  }

  function CompressionByte(c: Compression): bv8 {
    match c
    case NoCompression => 0x6E  // n
    case Gzip => 0x7A           // z
    case Bzip2 => 0x79          // y
    case Lzo => 0x6C            // l
  }

  function CompressionOf(b: bv8): Option<Compression> {
    if b == 0x6E then Some(NoCompression)
    else if b == 0x7A then Some(Gzip)
    else if b == 0x79 then Some(Bzip2)
    else if b == 0x6C then Some(Lzo)
    else None
  }

  const EA_MASK: bv8 := 0x07

  function EaFlag(e: EaStatus): bv8 {
    match e
    case EaFull => 0x01
    case EaPartial => 0x02
    case EaNone => 0x03
    case EaFake => 0x04
    case EaRemoved => 0x05
  }

  function EaOf(flag: bv8): Option<EaStatus> {
    var f := flag & EA_MASK;
    if f == 0x01 then Some(EaFull)
    else if f == 0x02 then Some(EaPartial)
    else if f == 0x03 then Some(EaNone)
    else if f == 0x04 then Some(EaFake)
    else if f == 0x05 then Some(EaRemoved)
    else None
  }

  const DATA_IS_DIRTY: bv8 := 0x02
}
