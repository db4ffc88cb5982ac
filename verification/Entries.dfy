/** The entries of a catalogue: inodes, deletion records, hard links and directories.
    A leaf entry is a value, a directory is a reference into a catalogue, and the hub of a
    hard-linked inode (etoile) is an object shared by its links. */
module Entries {

  datatype Option<+T> = None | Some(value: T)

  datatype SavedStatus = Saved | Fake | NotSaved

  datatype EaStatus = EaNone | EaPartial | EaFake | EaFull | EaRemoved

  datatype Compression = NoCompression | Gzip | Bzip2 | Lzo

  /** `crc` is missing as long as the data has not been saved. */
  datatype FileData = FileData(size: nat, offset: nat, storageSize: nat,
                               dirty: bool, status: bv8, algo: Compression, crc: Option<seq<bv8>>)

  /** What an inode carries beyond its ownership, permissions and dates. */
  datatype Payload =
    | Regular(data: FileData)
    | Door(data: FileData)
    | Lien(target: string)
    | CharDev(major: bv16, minor: bv16)
    | BlockDev(major: bv16, minor: bv16)
    | Tube
    | Prise
    | Dir

  datatype EaData = EaData(size: nat, offset: nat, crc: Option<seq<bv8>>)

  datatype Inode = Inode(uid: nat, gid: nat, perm: bv16,
                         lastAccess: nat, lastModif: nat, lastChange: nat,
                         saved: SavedStatus, ea: EaStatus, eaData: EaData,
                         device: nat, payload: Payload)

  datatype Leaf =
    | Plain(leafName: string, ino: Inode)
    | Detruit(leafName: string, signe: bv8, date: nat)
    | Ignored(leafName: string)
    | IgnoredDir(leafName: string, ino: Inode)

  /** The base signature letter of each class, as its ASCII byte. */
  function BaseSignature(p: Payload): bv8 {
    match p
    case Regular(_) => 0x66       // f
    case Door(_) => 0x6F          // o
    case Lien(_) => 0x6C          // l
    case CharDev(_, _) => 0x63    // c
    case BlockDev(_, _) => 0x62   // b
    case Tube => 0x70             // p
    case Prise => 0x73            // s
    case Dir => 0x64              // d
  }

  const SAVED_FAKE_BIT: bv8 := 0x80
  const CASE_BIT: bv8 := 0x20

  /** mk_signature: lower case when saved, upper case when not, high bit when faked. */
  function MkSignature(base: bv8, s: SavedStatus): bv8 {
    match s
    case Saved => base
    case Fake => base | SAVED_FAKE_BIT
    case NotSaved => base & !CASE_BIT
  }

  function Signature(i: Inode): bv8 {
    MkSignature(BaseSignature(i.payload), i.saved)
  }

  /** A reference to a directory of a catalogue. Identifiers grow from parents to children. */
  datatype DirRef = DirRef(id: nat, name: string, ino: Inode)

  datatype Entry =
    | EDir(dir: DirRef)
    | EMirage(linkName: string, star: Etoile)
    | ELeaf(leaf: Leaf)
  {
    function Name(): string {
      match this
      case EDir(d) => d.name
      case EMirage(n, _) => n
      case ELeaf(l) => l.leafName
    }
  }

  /** The hub shared by all the hard links of one inode. */
  class Etoile {
    const etiquette: nat
    const ino: Inode
    var hostedName: string
    var refs: nat
    var dumped: bool

    constructor (name: string, ino: Inode, etiquette: nat)
      ensures this.ino == ino && this.etiquette == etiquette
      ensures hostedName == name && refs == 0 && !dumped
    {
      this.ino := ino;
      this.etiquette := etiquette;
      hostedName := name;
      refs := 0;
      dumped := false;
    }
  }

  /** A position in a std::list: end() stays end() when the list grows. */
  datatype Cursor = At(index: nat) | End

  function Begin(s: seq<Entry>): Cursor {
    if s == [] then End else At(0)
  }

  /** How many entries lie before the cursor. */
  function Passed(c: Cursor, s: seq<Entry>): nat {
    match c
    case At(i) => i
    case End => |s|
  }

  ghost predicate UniqueNames(s: seq<Entry>) {
    forall i, j :: 0 <= i < j < |s| ==> s[i].Name() != s[j].Name()
  }

  /** Linear search of the ordered list, the meaning of search_children. */
  function Find(s: seq<Entry>, name: string): (r: Option<Entry>)
    ensures r.Some? ==> r.value in s && r.value.Name() == name
    ensures r.None? <==> forall i :: 0 <= i < |s| ==> s[i].Name() != name
  {
    if s == [] then None
    else if s[0].Name() == name then Some(s[0])
    else
      var r := Find(s[1..], name);
      assert forall i :: 1 <= i < |s| ==> s[i] == s[1..][i - 1];
      r
  }

  /** The list without its first entry of that name. */
  function Without(s: seq<Entry>, name: string): (r: seq<Entry>)
  {
    if s == [] then []
    else if s[0].Name() == name then s[1..]
    else [s[0]] + Without(s[1..], name)
  }

  lemma {:induction false} FindAt(s: seq<Entry>, n: string, i: nat)
    requires i < |s| && s[i].Name() == n && forall j :: 0 <= j < i ==> s[j].Name() != n
    ensures Find(s, n) == Some(s[i])
  {
    if i > 0 {
      FindAt(s[1..], n, i - 1);
    }
  }

  lemma WithoutAbsent(s: seq<Entry>, n: string)
    requires forall i :: 0 <= i < |s| ==> s[i].Name() != n
    ensures Without(s, n) == s
  {
  }

  lemma {:induction false} WithoutAt(s: seq<Entry>, n: string, k: nat)
    requires k < |s| && s[k].Name() == n
    requires forall i :: 0 <= i < k ==> s[i].Name() != n
    ensures Without(s, n) == s[..k] + s[k + 1..]
  {
    if k > 0 {
      WithoutAt(s[1..], n, k - 1);
    }
  }
}
