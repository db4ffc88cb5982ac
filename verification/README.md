# Model of libdar's catalogue, cache, checksums and of four dar tools

This project models the parts of dar and libdar whose behaviour is decided by state that
changes step by step, and proves what they do for every input:

- the **catalogue**: a tree of named entries with shared inodes, read, filled, compared and
  read by sub-tree through independent cursors, merged with a reference catalogue, truncated,
  pruned, written to an archive and read back;
- the **cache** over a file, one buffer used in turn to read ahead and to gather writes;
- the **checksums**, byte by byte and word by word;
- the **virtual files** made of pieces of another file, and the two automata that cut a
  configuration file into pieces;
- the **overwriting policies** and their parser, and the **filters** built from command-line
  rules;
- the **recovery copy** of a damaged device.

## How the model is organised

Values first, objects beside them. A tree is seen as a list of nodes (`ValueTrees`), its
reading as a stream of marks: an entry opened, an entry that holds nothing, a directory
closed. `Snapshots` holds the directories of a catalogue at one moment and what its cursors
make of them. The objects of the program are classes with the fields of the program, changed
in place by methods whose contracts give the new state as a function of the old one; the
properties are then proved of those functions. The directories of a catalogue are entries of
one store; a directory object with its own list, index and iterator does the same to them
(`DirectoryViews`).

| part | modules |
|---|---|
| entries, directories, trees | `Entries`, `Directories`, `ValueTrees`, `Forests`, `Snapshots`, `Grafting` |
| the catalogue and its cursors | `Catalogues`, `DirectoryViews`, `Replays`, `Truncation`, `Comparing`, `SubReading` |
| merging with a reference | `Walking`, `Destruction`, `DestroyedWalk`, `Absence`, `StarOrigins`, `AbsentWalk` |
| pruning | `Pruning` |
| writing and reading back | `Tokens`, `InodeCodec`, `Archives`, `Sections`, `SectionFormats`, `OddEntries`, `TokenFiles`, `CatalogueDump`, `LinkCounts`, `CatalogueRead`, `Rebuilding`, `Reloading` |
| checksums | `CyclicSums`, `Checksums`, `ChunkedSums` |
| cache | `PlainFiles`, `Caching`, `CacheRuns` |
| virtual files | `Pieces`, `VirtualFiles`, `BlockReads`, `NoComments`, `ConfigFiles` |
| policies and filters | `Criteria`, `CriteriaTexts`, `CriteriaMeanings`, `Policies`, `Filters` |
| recovery copy | `Devices`, `ErrorBlocks`, `Courses`, `RecoveryCopy` |

The two merges and the pruning work on the catalogue object; what they compute is a recursive
function on trees (`Merge`, `Complete`, `Prune`), and what is promised is proved of that
function without any order of events. A list iterator that stays at the end when the list
grows is the cursor `End`, which is not a position.

Inputs that come from elsewhere are parameters: the checksum of a section, the conversion of
dates, the atomic criteria, the leaf masks, the way a device answers, how much one write
takes, the address of a buffer.

## Findings

Where the code does not do what it is there for, the model keeps the code as it is. Each of
these has a member that is a failing input and one that says exactly when the code is right.

- **Second dump.** Writing a catalogue marks its shared inodes as written, and nothing takes
  the marks back (`src/libdar/catalogue.cpp:1701-1725`). A catalogue written twice can be read
  the second time if and only if no inode of it is shared: `Sections.SecondDump`, with two links
  to one tube in `Sections.SharedTwice`.
- **`&` takes in an `or`.** The class of `or` derives from that of `and`
  (`src/libdar/criterium.hpp:519`), so the operands of an `or` on the right of `&` are all
  required: `I&(D|F)` is read as `I&D&F` (`CriteriaTexts.ParenthesesLost`,
  `CriteriaTexts.DirectoryRefused`). What any expression is taken for is
  `CriteriaMeanings.BuildMeansAsRead`; without repeated criteria it is what was written if and
  only if no `&` has a `|` as right operand: `CriteriaMeanings.UnderstoodIffSafe`.
- **Nested conditions.** The manual gives policies where the action of a condition is itself a
  condition; the splitter ends the action at the first bracket and refuses them
  (`Policies.NestedRefused`, `Policies.ManualExampleRefused`). The policies accepted are
  exactly those of `Policies.Parsable`: `Policies.PolicyParses`, `Policies.PolicyAccepted`.
- **Write after read-ahead.** A write goes where the underlying file stands, which is after
  everything read ahead: right if and only if all of it has been asked for
  (`Caching.Cache.InheritedWrite`), wrong in `CacheRuns.MisplacedWrite`.
- **Moving before the beginning.** While reading, `skip_relative` to before the beginning sets
  the position to 0 and leaves the buffer: the cache stays sound if and only if it was at 0
  (`Caching.Cache.SkipRelative`); after one byte, moving by -2 makes the second byte come at 0
  (`CacheRuns.MisplacedMove`).
- **Block reads over pieces.** A read that ends inside a later piece than the one where it
  began leaves the cursor too far; where is given exactly by `BlockReads.Read`, and
  `BlockReads.SkippedBytes` is such a read.
- **Recovery copy, last byte.** A device that gives nothing of a block that holds a bad byte
  leaves the last of an odd number of readable bytes uncopied, and the copy ends there as if it
  were the end: of one bad byte between two good ones nothing is copied
  (`RecoveryCopy.LastByteLeft`). With such a device the copy ends early if and only if it begins,
  or is taken up again, at a run of readable bytes of odd length that ends at a bad one
  (`Courses.EarlyIffOddRun`); with one that gives what precedes the bad byte it never does
  (`Courses.GenerousIsWhole`); where it ends with any device is `Courses.EndOf`.
- **Recovery copy, short writes.** `xfer_before_error` does not look at how much a write took
  (`src/dar_suite/dar_cp.cpp:268`). Bytes are lost if and only if one write takes less than the
  longest part read before the bad byte (`RecoveryCopy.Recover`, with the length of that part
  in `ErrorBlocks.WithAllOrNothing` and `ErrorBlocks.WithGenerous`); they are not reported as
  missing (`RecoveryCopy.ShortWriteLoses`), and the following ones go to wrong offsets
  (`RecoveryCopy.ShortWriteMisplaces`).
- **Links when comparing.** `compare` looks for a link under its own name but then compares
  the names of the hosted inodes: a link under the same name, to an inode of the same kind, is
  not found when that inode was first met under another name (`Comparing.LinkNotFound`). The
  exact answer is `Comparing.CompareAfter`.

## Model

| member | source | states |
|---|---|---|
| ValueTrees.BracketInjective | src/libdar/catalogue.cpp:3388-3416 | The bracketed stream a reading gives determines the whole ordered tree |
| ValueTrees.BracketBalanced | src/libdar/catalogue.cpp:3388-3416 | A reading never closes more than it opened, closes everything, and has one end of directory per directory other than the root |
| Snapshots.ReadIsStream | src/libdar/catalogue.cpp:3388-3416 | The successive calls of read() hand out the remaining stream mark by mark, and stop exactly at its end |
| Snapshots.EmittedAndRest | src/libdar/catalogue.cpp:3388-3416 | What has been read and what remains make up the stream of the whole tree at every moment |
| Snapshots.ReadAppends | src/libdar/catalogue.cpp:3388-3416 | Each read extends what has been read by the mark handed out |
| Catalogues.Catalogue.Read | src/libdar/catalogue.cpp:3388-3416 | The method with its cursors in place does one step of that reading |
| Catalogues.Catalogue.SkipReadToParentDir | src/libdar/catalogue.cpp:3378-3386 | Reading resumes in the parent after the whole skipped directory, whose end is not handed out |
| Directories.FindByIndex | src/libdar/catalogue.cpp:2821-2852 | Looking a name up in the index gives what the linear search gives |
| Directories.Directory.SearchChildren | src/libdar/catalogue.cpp:2821-2852 | The indexed search of the object equals the linear search of its list |
| Directories.Directory.SearchLinearly | src/libdar/catalogue.cpp:2821-2852 | So does the loop used without an index |
| Directories.Directory.ReadChildren | src/libdar/catalogue.cpp:2720-2731 | The iterator hands out the entries in order and stays at the end |
| Directories.Directory.AddChildren | src/libdar/catalogue.cpp:2648-2706 | The entry goes to the end, in place of any entry of its name; list and index agree, the reading iterator moves only on a replacement |
| Directories.Directory.Remove | src/libdar/catalogue.cpp:2762-2801 | Exactly the entry of that name goes, list and index agree, and a missing name changes nothing |
| Directories.Directory.TailToReadChildren | src/libdar/catalogue.cpp:2733-2760 | Exactly the entries already read are left, in list and index |
| Directories.IndexedRemove | src/libdar/catalogue.cpp:2762-2801 | Taking one entry out of list and index keeps them in agreement |
| DirectoryViews.AddChildren | src/libdar/catalogue.cpp:2648-2706 | The loops of the directory object do to its list, index and iterator what adding to a directory of a catalogue does |
| DirectoryViews.TailToReadChildren | src/libdar/catalogue.cpp:2733-2760 | The same for truncation |
| DirectoryViews.IndexIsOne | src/libdar/catalogue.cpp:2821-2852 | A list has exactly one index |
| Catalogues.GraftIndexed | src/libdar/catalogue.cpp:2648-2706 | Adding an entry to one directory of a catalogue keeps every name index of the catalogue equal to its list |
| Catalogues.Catalogue.SearchChildren | src/libdar/catalogue.cpp:2821-2852 | In any directory of a catalogue the indexed search equals the linear one |
| Catalogues.Catalogue.AddTo | src/libdar/catalogue.cpp:2648-2706 | Adding to a directory of a catalogue changes that directory only and keeps tree, indexes and reading cursors sound |
| Catalogues.Catalogue.Add | src/libdar/catalogue.cpp:3574-3602 | An entry goes to the adding cursor, which enters a directory; an end of directory returns to the parent and is refused at the root |
| Catalogues.Catalogue.ReAddIn | src/libdar/catalogue.cpp:3604-3618 | The adding cursor enters an existing sub-directory, and fails on any other name |
| Grafting.AddAppends | src/libdar/catalogue.cpp:3574-3602 | Each entry added appends its mark to the stream built so far: adding is the inverse of reading |
| Grafting.StreamDetermines | src/libdar/catalogue.cpp:3388-3416 | The stream read so far determines the entries read in the current directory |
| Replays.Replay | src/libdar/catalogue.cpp:3388-3416 | Adding copies of what read() hands out to an empty catalogue rebuilds the same tree |
| Truncation.TailIsExact | src/libdar/catalogue.cpp:3454-3463 | The truncated tree is the stream read so far, with every opened directory closed |
| Truncation.TailCatalogueToCurrentRead | src/libdar/catalogue.cpp:3454-3463 | The loop over the ancestors leaves exactly what was read, with sound indexes |
| Truncation.TruncateAfter | src/libdar/catalogue.cpp:3454-3463 | After n reads from the beginning, the first n marks are left, closed |
| Comparing.CompatibleIffSameKind | src/libdar/catalogue.cpp:486-499 | Two inode signatures are compatible exactly when the inodes are of one kind, saved or not |
| Comparing.AnswerByNature | src/libdar/catalogue.cpp:3642-3748 | The answer for any two entries, case by case of what they are: same class and name for inodes, the hosted ones for links, a record for a record |
| Comparing.CompareRunRefinesLookup | src/libdar/catalogue.cpp:3642-3748 | After any stream the comparing cursor is the deepest existing directory of the stream's path, with exactly the missing suffix |
| Comparing.Compare | src/libdar/catalogue.cpp:3642-3748 | One comparison moves the cursor as the path says and answers by the nature of the entry of that name in the current directory |
| Comparing.CompareAfter | src/libdar/catalogue.cpp:3642-3748 | After any stream: a deletion record is found exactly when a deletion record is at its full path; a plain inode or a directory, no link being there, exactly when a directory or a plain inode of its class is; the answer with links and `ignored` entries is given as well |
| Comparing.LinkNotFound | src/libdar/catalogue.cpp:3711-3720 | Two links of one name to inodes of one kind that are not taken for the same |
| SubReading.SubRead | src/libdar/catalogue.cpp:3479-3567 | One call gives the next mark of what remains, or ends with a warning exactly when the path is missing |
| SubReading.SubReadAll | src/libdar/catalogue.cpp:3465-3567 | A whole sub-tree reading gives the entries of the path, the sub-tree and the ends of the directories opened, and never meets an internal error |
| SubReading.SubStreamBalanced | src/libdar/catalogue.cpp:3479-3567 | That stream closes every directory it opens |
| Destruction.MergeIsExact | src/libdar/catalogue.cpp:3750-3825 | In each pair of same-path directories the entries stay in place and one deletion record per missing non-deleted name is added, nothing else |
| Destruction.MergeRecords | src/libdar/catalogue.cpp:3775-3810 | Each record added, by its fields: the name of a lost entry, the letter of its class and saved status, the date of the directory it is put in; each lost entry has one; existing entries and their inodes stay |
| Destruction.MergedNames | src/libdar/catalogue.cpp:3750-3825 | The names afterwards are the old ones and the non-deleted ones of the reference |
| Destruction.MergeTwice | src/libdar/catalogue.cpp:3750-3825 | A second merge adds nothing |
| DestroyedWalk.UpdateDestroyedWith | src/libdar/catalogue.cpp:3750-3825 | The walk over the two catalogues leaves the entries in place with exactly those records added in every directory, and returns how many |
| DestroyedWalk.DestroyedIsExact | src/libdar/catalogue.cpp:3750-3825 | The same for whole catalogues, a second call included |
| Absence.CompleteExtends | src/libdar/catalogue.cpp:3827-4023 | Entries already there keep their place and all that was below them |
| Absence.CompleteIsCompleted | src/libdar/catalogue.cpp:3827-4023 | Each missing non-deleted entry of the reference has exactly one copy and nothing else is added; the inode of a copy is not saved, its attributes are partial or none, all its other fields are those of the reference |
| StarOrigins.StarsMeant | src/libdar/catalogue.cpp:3910-4018 | Each etiquette of the reference gets the etoile of a link at the same path, or a new one with the inode of a link of that etiquette, not saved and otherwise the same field by field |
| StarOrigins.StarDecided | src/libdar/catalogue.cpp:3910-4018 | The first link of an etiquette, in the order of the walk, that is missing here or is a link here too decides: a new etoile with its inode, or the one found; without such a link there is none |
| StarOrigins.StarsNumbered | src/libdar/catalogue.cpp:3910-4018 | New etoiles get numbers that differ from each other and from those in use below the first number given |
| AbsentWalk.UpdateAbsentWith | src/libdar/catalogue.cpp:3827-4023 | The walk adds exactly those copies, with exactly those etoiles, kept distinct when the first number is above those in use |
| AbsentWalk.AbsentIsCompleted | src/libdar/catalogue.cpp:3827-4023 | All of that for whole catalogues in one statement |
| Pruning.PruneIsExact | src/libdar/catalogue.cpp:3075-3113 | Pruning leaves no link and no empty directory, and exactly the other leaves with their directories, in order |
| Pruning.CleanIsKept | src/libdar/catalogue.cpp:3075-3113 | A tree without links and empty directories is left as it is |
| Pruning.RemoveAllMiragesAndReduceDirs | src/libdar/catalogue.cpp:3075-3113 | The recursive loop in place computes the pruning, changes nothing outside the directory, and keeps every name index equal to its list |
| Tokens.SignatureCodec | src/libdar/catalogue.cpp:4986-5006 | A signature byte is read as a class and a status exactly when it was made from them |
| Tokens.SignedIsRead | src/libdar/catalogue.cpp:125-160 | The signature of an inode is its class letter, small when saved, capital when not, with the high bit when faked, and that byte alone is read as its class and status |
| InodeCodec.InodeRead | src/libdar/catalogue.cpp:528-760 | An inode once written is read back, and reading stops exactly after it: ownership, permissions, dates, saved status and attributes always; when saved the whole payload, the dirty mark being one bit of the status; otherwise the class and the size of a file |
| InodeCodec.StoredIsBack | src/libdar/catalogue.cpp:528-760 | The stored form of an inode is the only one that keeps these fields and forgets the others |
| TokenFiles.WriteInode | src/libdar/catalogue.cpp:1123-1186 | Writing an inode puts exactly its tokens at the end of the archive |
| TokenFiles.ReadInode | src/libdar/catalogue.cpp:528-760 | Reading an inode from the archive does what the parsing function says, errors included; where an inode of that class and status was written, its name and those fields are read |
| Archives.NodeRead | src/libdar/catalogue.cpp:1534-1673 | Each node that was written is met, its inode with those fields; reading fails exactly on a link to an etoile that is not in this archive |
| Archives.ForestRead | src/libdar/catalogue.cpp:2502-2610 | The same for the contents of a directory, whatever follows |
| Archives.NormIsBack | src/libdar/catalogue.cpp:2502-2610 | What is read of a list, node by node and in order: directories, records and shared links with name and etiquette, a link that is alone as a plain inode under its name, an `ignored_dir` as an empty directory that keeps ownership, permissions, dates and status, an `ignored` entry not at all |
| SectionFormats.InodeIsFormatted | src/libdar/catalogue.cpp:1123-1186 | The bytes and fields an inode is written as, in order, with the letters and flags of each class and status |
| SectionFormats.NodeIsFormatted | src/libdar/catalogue.cpp:1701-1725 | The same for directories, links, deletion records and ignored entries |
| OddEntries.OldStarRead | src/libdar/catalogue.cpp:1555-1650 | A file with an etiquette, of the former format, makes a link and an etoile without name |
| OddEntries.OldLinkRead | src/libdar/catalogue.cpp:1555-1590 | A link of the former format finds its etoile or fails |
| OddEntries.SignatureRefused | src/libdar/catalogue.cpp:283-345 | Which bytes are refused as the signature of an entry, and how |
| OddEntries.HostedRefused | src/libdar/catalogue.cpp:1590-1660 | A link that brings something else than an inode, or one already there, is refused |
| OddEntries.LinkRefused | src/libdar/catalogue.cpp:1560-1590 | A link with an unknown flag, or without its inode, is refused |
| OddEntries.FieldsRefused | src/libdar/catalogue.cpp:605-635 | Unknown flags of attributes and unknown letters of compression are refused |
| OddEntries.EndRefused | src/libdar/catalogue.cpp:2502-2610 | The contents of a directory must come to its end |
| OddEntries.RootRefused | src/libdar/catalogue.cpp:3273-3280 | A section must begin with a directory |
| OddEntries.ChecksumRefused | src/libdar/catalogue.cpp:3290-3344 | The checksum must be that of all that precedes it |
| Sections.SectionRoundTrip | src/libdar/catalogue.cpp:3225-3344 | A section that was written is read whole, its tree node by node and field by field, or fails exactly when it refers to an etoile written elsewhere |
| Sections.DumpMarksShared | src/libdar/catalogue.cpp:1701-1725 | Writing marks exactly the shared etoiles of the tree |
| Sections.SecondDump | src/libdar/catalogue.cpp:1701-1725 | A catalogue written twice can be read the second time if and only if it shares no inode |
| Sections.SharedTwice | src/libdar/catalogue.cpp:1701-1725 | A catalogue of two links to one tube, readable after the first dump and not after the second |
| Sections.OnlyDetruitIsExact | src/libdar/catalogue.cpp:3280-3290 | Reading only deletion records gives exactly them with the directories that lead to them |
| CatalogueDump.DumpCatalogue | src/libdar/catalogue.cpp:4561-4591 | The walk that marks the etoiles writes exactly the section of the tree |
| CatalogueDump.DumpDirectory | src/libdar/catalogue.cpp:2619-2646 | The same for one directory, with the marks left behind |
| CatalogueDump.DumpMirage | src/libdar/catalogue.cpp:1701-1725 | A link is written with its inode the first time only, or as a plain inode when it is alone |
| CatalogueRead.ReadCatalogue | src/libdar/catalogue.cpp:3225-3344 | The descent that creates the etoiles reads what the parsing function says, and the tree and fields of any section that was written; each link has an etoile, new, which hosts its inode and counts its links |
| CatalogueRead.ReadEntry | src/libdar/catalogue.cpp:263-440 | One entry, whatever its signature, with the etoiles met and counted |
| CatalogueRead.ReadLink | src/libdar/catalogue.cpp:1534-1673 | A link finds its etoile, or brings its inode and creates it, and fails in the other cases |
| CatalogueRead.ReadKids | src/libdar/catalogue.cpp:2502-2610 | The contents of a directory up to its end |
| LinkCounts.KidsLinks | src/libdar/catalogue.cpp:1534-1673 | Every link read has an etoile, with the inode of the link, and every new etoile has a link |
| Rebuilding.Rebuild | src/libdar/catalogue.cpp:2502-2610 | Adding what was read, entry by entry, makes a catalogue of exactly that tree, each link on the etoile of its etiquette |
| Reloading.Reload | src/libdar/catalogue.cpp:4561-4591 | Writing a catalogue and reading it back gives its tree, each inode with the fields that are kept, each link on an etoile that hosts its inode and counts its links; the only obstacle is a shared etoile already marked |
| Reloading.ReloadCatalogue | src/libdar/catalogue.cpp:3225-3344 | The same up to the catalogue object, sound and with its indexes: its tree and its root compared with those written, field by field |
| CyclicSums.XorConcat | src/libdar/crc.cpp:135-146 | The cell of a stream is that of its first part combined with that of the rest, from where the first stopped |
| CyclicSums.AbsorbConcat | src/libdar/crc.cpp:135-146 | Absorbing in two calls is absorbing in one |
| Checksums.XorWord | src/libdar/crc.cpp:102-133 | Combining a machine word in place combines its bytes |
| Checksums.CrcI.Compute | src/libdar/crc.cpp:246-249 | The byte loop leaves the closed form of the checksum and the pointer after the last byte |
| Checksums.CrcI.ComputeAt | src/libdar/crc.cpp:233-244 | The same from an offset of the stream |
| Checksums.CrcN.ComputeBlock | src/libdar/crc.cpp:102-133 | As many whole words as there are, with the closed form of the bytes used |
| Checksums.CrcN.Compute | src/libdar/crc.cpp:148-189 | The word-blocked computation gives the same closed form, at every width, pointer, length and address |
| Checksums.CrcN.ComputeAt | src/libdar/crc.cpp:365-385 | The same from an offset of the stream |
| ChunkedSums.AbsorbAllIsSeen | src/libdar/crc.cpp:233-249 | For pieces of a stream in any order, the cells depend only on which bytes were given an odd number of times |
| ChunkedSums.TilingGivesTheSum | src/libdar/crc.cpp:233-249 | Pieces that hold each position once give each cell as the exclusive or of the positions it stands for |
| ChunkedSums.SumByBytes | src/libdar/crc.cpp:233-249 | The byte-wise object over all the pieces |
| ChunkedSums.SumByWords | src/libdar/crc.cpp:365-385 | The word-wise object over all the pieces gives the same cells |
| ChunkedSums.BurstDetected | src/libdar/crc.cpp:135-189 | Streams that differ only within as many consecutive bytes as the width have different checksums |
| ChunkedSums.BurstBoundIsTight | src/libdar/crc.cpp:135-189 | One byte more and some difference is missed |
| Caching.Cache.Skip | src/libdar/cache.cpp:143-215 | The user's view moves and nothing else changes, in both modes |
| Caching.Cache.SkipToEof | src/libdar/cache.cpp:217-239 | The view goes to the end, gathered bytes included |
| Caching.Cache.SkipRelative | src/libdar/cache.cpp:241-271 | The view moves as that of the file; before the beginning while reading, the cache is sound if and only if it stood at 0 |
| Caching.Cache.FlushWrite | src/libdar/cache.cpp:367-424 | The file becomes what the user sees |
| Caching.Cache.ShiftByHalf | src/libdar/cache.cpp:535-546 | The last bytes are kept, in order, at the front |
| Caching.Cache.Resize | src/libdar/cache.cpp:504-533 | A larger buffer keeps the bytes in use |
| Caching.Cache.FulfillRead | src/libdar/cache.cpp:426-500 | More of the file is brought exactly when there is some and the buffer is not a shifted one of one byte |
| Caching.Cache.InheritedRead | src/libdar/cache.cpp:273-309 | The bytes are those of the file at the position, and the view moves by their number |
| Caching.Cache.InheritedWrite | src/libdar/cache.cpp:311-365 | Where the bytes go, and that it is the position if and only if nothing was read ahead |
| PlainFiles.WriteOfIs | src/libdar/cache.cpp:311-365 | What a write does to the file that the user sees, byte by byte |
| PlainFiles.ReadOfIs | src/libdar/cache.cpp:273-309 | What a read of that file gives, byte by byte |
| CacheRuns.ShortRead | src/libdar/cache.cpp:273-365 | One may write after a read that came short |
| CacheRuns.Run | src/libdar/cache.cpp:143-365 | Any run of reads, writes, moves and flushes returns what the run on the file returns and leaves the file the same, up to the first operation that is not orderly; an orderly run goes to its end |
| CacheRuns.MisplacedWrite | src/libdar/cache.cpp:311-365 | After one byte read of a longer file, a write goes to the end |
| CacheRuns.MisplacedMove | src/libdar/cache.cpp:241-271 | After one byte read, a move by -2 leaves the position at 0 and the buffer at the second byte |
| Pieces.Ordered | src/dar_suite/no_comment.cpp:28-103 | Pieces follow each other in both files |
| Pieces.VirtualAt | src/dar_suite/hide_file.cpp:141-172 | The byte at a place of the virtual file is that of its piece |
| VirtualFiles.Search | src/dar_suite/hide_file.cpp:43-61 | The piece of a position is found exactly when the position is in the file |
| VirtualFiles.Stack.Skip | src/dar_suite/hide_file.cpp:43-61 | Moving succeeds exactly inside the file, and the position asked for is then the one reported |
| VirtualFiles.Stack.GetPosition | src/dar_suite/hide_file.cpp:126-139 | The position reported, in an empty file and past the last piece too |
| VirtualFiles.Stack.ReadByte | src/dar_suite/hide_file.cpp:141-172 | One byte read at any level of virtual files over each other is that of its content, and the position moves by one |
| BlockReads.Read | src/dar_suite/hide_file.cpp:141-172 | Several bytes read at once are right; the position is right if and only if the read does not end inside a later piece, and is given otherwise |
| BlockReads.SkippedBytes | src/dar_suite/hide_file.cpp:141-172 | A read of three bytes that leaves the position at 5 |
| NoComments.NoCommentIsExact | src/dar_suite/no_comment.cpp:28-103 | The pieces hold every command line from its first byte that is not blank, no byte of any comment line, and go from command to command |
| NoComments.LineAtIs | src/dar_suite/no_comment.cpp:28-103 | Which lines are comments, commands or neither, by their characters |
| NoComments.FillNoComment | src/dar_suite/no_comment.cpp:28-103 | The automaton makes those pieces |
| ConfigFiles.SectionsAreExact | src/dar_suite/config_file.cpp:36-89 | A section holds no target line and follows the target line of its name |
| ConfigFiles.ConfigIsExact | src/dar_suite/config_file.cpp:36-89 | The virtual file is the preamble followed by the sections wanted; byte by byte: what is before the first target line is in, what follows a target line up to the next is in when its name is one of the targets and out otherwise, no target line is in |
| ConfigFiles.TargetAtIs | src/dar_suite/config_file.cpp:91-165 | A line of blanks, a letter, letters, digits, `_` or `-`, a colon, blanks and a line break is a target of that name |
| ConfigFiles.TargetAtOnly | src/dar_suite/config_file.cpp:91-165 | No other line is |
| ConfigFiles.NextTargetIsNext | src/dar_suite/config_file.cpp:91-165 | The target found is the first target line from there on |
| ConfigFiles.FindNextTarget | src/dar_suite/config_file.cpp:91-165 | The automaton finds that line and stops after it, or at the end |
| ConfigFiles.FillConfig | src/dar_suite/config_file.cpp:36-89 | The selection makes pieces that hold exactly those bytes |
| ConfigFiles.ReadConfig | src/dar_suite/config_file.cpp:36-165 | Reading byte by byte through both virtual files gives the bytes so selected of the text without comments |
| Criteria.Canonize | src/dar_suite/crit_action_cmd_line.cpp:36-52 | Exactly the spaces, tabulations and ends of line go |
| Criteria.SpacesDoNotMatter | src/dar_suite/crit_action_cmd_line.cpp:36-52 | Where blanks are put does not matter |
| Criteria.NothingToRemove | src/dar_suite/crit_action_cmd_line.cpp:36-52 | A string without blanks stays as it is |
| Criteria.FindFirst | src/dar_suite/line_tools.cpp:271-296 | The loop finds the first such byte out of parentheses, or says that they do not match |
| Criteria.FindMeans | src/dar_suite/line_tools.cpp:271-296 | What is found, by the number of parentheses opened and closed before each place |
| Criteria.CreateFromString | src/dar_suite/crit_action_cmd_line.cpp:257-524 | The parser that extends the nodes in place builds what the parsing function says, errors included |
| CriteriaTexts.ParseText | src/dar_suite/crit_action_cmd_line.cpp:257-524 | The text of any expression of the grammar is accepted, and parsed by its structure |
| CriteriaTexts.Accepted | src/dar_suite/crit_action_cmd_line.cpp:257-524 | Nothing else is accepted |
| CriteriaTexts.OneLetter | src/dar_suite/crit_action_cmd_line.cpp:447-510 | The sixteen letters that are criteria, and no other character |
| CriteriaTexts.WithDate | src/dar_suite/crit_action_cmd_line.cpp:405-445 | The two letters that take a date |
| CriteriaTexts.UnaryOperators | src/dar_suite/crit_action_cmd_line.cpp:366-400 | The operators of one operand |
| CriteriaTexts.Conjunctions | src/dar_suite/crit_action_cmd_line.cpp:313-350 | Three operands of `&` make one node |
| CriteriaTexts.Disjunctions | src/dar_suite/crit_action_cmd_line.cpp:276-308 | Three operands of the other operator too |
| CriteriaTexts.GroupedFirst | src/dar_suite/crit_action_cmd_line.cpp:276-308 | First operands in parentheses make a node of their own |
| CriteriaTexts.FullParses | src/dar_suite/crit_action_cmd_line.cpp:257-524 | Any tree of operators can be written with parentheses so that it is parsed by its structure |
| CriteriaTexts.BuildMeans | src/libdar/criterium.cpp:487-560 | What is built from a safe expression means what the expression means, for all entries and criteria |
| CriteriaTexts.OrTakenForAnd | src/libdar/criterium.hpp:494-527 | When `&` takes an `or` in, the answer and exactly when it is wrong |
| CriteriaTexts.ParenthesesLost | src/dar_suite/crit_action_cmd_line.cpp:326-345 | An inode that is a directory or a file is parsed as one that is both |
| CriteriaTexts.DirectoryRefused | src/dar_suite/crit_action_cmd_line.cpp:326-345 | So that a directory is refused |
| CriteriaTexts.DirectoryMeant | src/dar_suite/crit_action_cmd_line.cpp:326-345 | Although it is meant |
| CriteriaMeanings.BuildMeansAsRead | src/dar_suite/crit_action_cmd_line.cpp:257-524 | What any accepted expression is taken for |
| CriteriaMeanings.AsReadIsSame | src/dar_suite/crit_action_cmd_line.cpp:257-524 | It is the expression written exactly when that one is safe |
| CriteriaMeanings.Misunderstood | src/dar_suite/crit_action_cmd_line.cpp:326-345 | An expression that is not safe and repeats no criterium is misunderstood for some values of its criteria |
| CriteriaMeanings.UnderstoodIffSafe | src/dar_suite/crit_action_cmd_line.cpp:257-524 | Without repeated criteria, parsing preserves the meaning for all entries and criteria if and only if the expression is safe |
| Policies.ChainAction | src/libdar/criterium.cpp:124-156 | The loop over a chain computes its action |
| Policies.ChainMeans | src/libdar/criterium.cpp:124-156 | A chain is followed to the first moment both actions are defined, and answers the last definition of each |
| Policies.PolicyParses | src/dar_suite/crit_action_cmd_line.cpp:55-255 | The text of any parsable policy is accepted, chains being made flat |
| Policies.PolicyAccepted | src/dar_suite/crit_action_cmd_line.cpp:55-255 | Nothing else is accepted |
| Policies.TwoLetters | src/dar_suite/crit_action_cmd_line.cpp:170-240 | The letters of the actions for data and for attributes, and no others |
| Policies.TestWritten | src/dar_suite/crit_action_cmd_line.cpp:113-165 | A condition with its two actions |
| Policies.ShortTestWritten | src/dar_suite/crit_action_cmd_line.cpp:113-165 | Without another action both are left undefined |
| Policies.ChainWritten | src/dar_suite/crit_action_cmd_line.cpp:55-110 | Three actions one after the other make one chain |
| Policies.PolicyMeans | src/dar_suite/crit_action_cmd_line.cpp:55-255 | What is built means what was written, when the conditions are safe |
| Policies.NestedRefused | src/dar_suite/crit_action_cmd_line.cpp:113-131 | A condition whose action is a condition is refused, whatever follows |
| Policies.ManualExampleRefused | src/dar_suite/crit_action_cmd_line.cpp:113-131 | So is an example of the manual |
| Filters.MakeOrderedMask | src/dar_suite/command_line.cpp:2426-2540 | The nested masks cover what the last matching rule says, and can always be asked |
| Filters.LastMatchMeans | src/dar_suite/command_line.cpp:2426-2540 | That is: the last matching rule includes, or none matches and the list is empty or begins with an exclusion |
| Filters.MakeUnorderedMask | src/dar_suite/command_line.cpp:2542-2589 | Covered when some inclusion matches, if there are any, and no exclusion does |
| Devices.WriteAll | src/dar_suite/dar_cp.cpp:348-360 | Writing again what was not taken puts all the bytes in place |
| RecoveryCopy.NormalCopy | src/dar_suite/dar_cp.cpp:344-363 | What is read is copied whole, both files moving alike |
| ErrorBlocks.AllWritten | src/dar_suite/dar_cp.cpp:263-273 | Nothing is lost exactly when one write takes the longest part read |
| ErrorBlocks.LastByteOf | src/dar_suite/dar_cp.cpp:253-274 | The parts read reach the bad byte, or stop one byte before it when the device does not give that byte with the bad one |
| ErrorBlocks.WithAllOrNothing | src/dar_suite/dar_cp.cpp:253-274 | With a device that gives all or nothing: one byte is left when they are odd in number, the longest part is the largest block that fits |
| ErrorBlocks.WithGenerous | src/dar_suite/dar_cp.cpp:253-274 | With a device that gives what precedes the bad byte: none is left, the longest part is a block or all there is |
| RecoveryCopy.XferBeforeError | src/dar_suite/dar_cp.cpp:253-274 | Where the source stands after it, and exactly what has been written and where |
| Courses.ProbeMeans | src/dar_suite/dar_cp.cpp:288-302 | The doubling probe ends at the end, or after a readable byte past the bad one |
| Courses.ProbeIsFirst | src/dar_suite/dar_cp.cpp:276-302 | The search looks 1024, 3072, 7168... bytes further, the step doubling as long as an int can hold it, and stops at the first place that is readable or past the end |
| Courses.HalveMeans | src/dar_suite/dar_cp.cpp:308-329 | The bisection ends just after an unreadable byte, at a readable one or at the end |
| Courses.BisectsInTheMiddle | src/dar_suite/dar_cp.cpp:308-329 | The bisection looks in the middle: a device on which that matters |
| RecoveryCopy.LookFurther | src/dar_suite/dar_cp.cpp:288-302 | The loop on the device does that probe |
| RecoveryCopy.Bisect | src/dar_suite/dar_cp.cpp:308-329 | The loop on the device does that bisection |
| RecoveryCopy.SkipToNextReadable | src/dar_suite/dar_cp.cpp:276-342 | From an unreadable byte both files are put at such a place, and the bytes skipped are counted; from a readable byte only the next one is looked at |
| RecoveryCopy.Recover | src/dar_suite/dar_cp.cpp:221-241 | One recovery: what is copied, skipped, lost, and whether the copy goes on |
| Courses.OnlySpansLeftOut | src/dar_suite/dar_cp.cpp:204-251 | Every byte before the end of the copy is read, unless it is among skipped bytes that begin and end with a bad one, or is the one before the bad byte where the copy ends |
| Courses.CourseBounds | src/dar_suite/dar_cp.cpp:204-251 | Only readable bytes are read, and the copy goes forward within the device |
| Courses.GoodDevice | src/dar_suite/dar_cp.cpp:204-251 | Without bad bytes everything is read and nothing is missing |
| Courses.EarlyEnd | src/dar_suite/dar_cp.cpp:204-251 | The copy ends early only at a bad byte after a readable one that the device does not give with it |
| Courses.EarlyIffOddRun | src/dar_suite/dar_cp.cpp:204-251 | With a device that gives all or nothing, it does if and only if it meets an odd run |
| Courses.GenerousIsWhole | src/dar_suite/dar_cp.cpp:204-251 | With a device that gives what precedes a bad byte, it never does |
| RecoveryCopy.CopyMax | src/dar_suite/dar_cp.cpp:204-251 | The bytes copied are exactly those of the course, each at its own offset, unless some were lost; so are the end, the giving up and the number of missing bytes, which is compared with the real holes; a device without bad bytes is copied whole |
| RecoveryCopy.LastByteLeft | src/dar_suite/dar_cp.cpp:253-274 | Of one bad byte between two good ones, nothing is copied |
| RecoveryCopy.ShortWriteLoses | src/dar_suite/dar_cp.cpp:263-273 | With any write smaller than the largest block, some whole copy has more holes than the one missing byte it reports |
| RecoveryCopy.ShortWriteMisplaces | src/dar_suite/dar_cp.cpp:263-273 | And puts a byte at a wrong offset |

## Left out

- Catalogue: the directories of one catalogue are records of a store, found by reference, with
  a parent map; pointers between heap objects and their release are not modelled.
- Directories.Directory.AddChildren: an entry that is a directory must not meet a directory of
  its name; the source then assigns a pointer where its comment describes a copy, adds the new
  directory's entries to itself and destroys it.
- Catalogues.Catalogue.AddTo: the same.
- Catalogues.Catalogue.Add: the same; the adding cursor would be left on the destroyed directory.
- AbsentWalk.UpdateAbsentWith: the reference holds no `ignored` entry, on which the source
  raises an internal error; such entries are never written to an archive.
- AbsentWalk.UpdateAbsentWith: the counts of links of the etoiles are not maintained here, nor
  by the other operations that drop or copy links; they are when a catalogue is read.
- Pruning.RemoveAllMiragesAndReduceDirs: the reading cursors are not described afterwards.
- Comparing.CompareAfter: paths are lists of names; the normalisation of paths is not modelled.
- SubReading.SubReadAll: the path is not empty.
- InodeCodec.InodeRead: integers, strings and checksums are tokens, taken to be read as they
  were written; the major and minor numbers of a device that was not saved, which the source
  leaves unset, are read as 0.
- Archives.NodeRead: formats before 8, small dumps, escape marks, and the tolerant mode.
- Caching.Cache.InheritedRead: in shifting mode the buffer has at least two bytes; with one,
  `Caching.Cache.FulfillRead` says that nothing is read any more.
- CacheRuns.Run: after an operation that is not orderly, only what the class says of that
  operation is known.
- Rebuilding.Rebuild: the names of a directory read are unique; the source builds the directories
  while it reads them, here they are built from what has been read.
- VirtualFiles.Stack.Skip: levels are in one object instead of objects that point to each
  other; the delayed filling of the piece table, `skip_to_eof` and `skip_relative` of virtual
  files are not modelled.
- CriteriaTexts.Accepted: dates are taken to be written without parentheses; their conversion
  is a parameter.
- Policies.PolicyMeans: the default action when a chain leaves one undefined belongs to the
  callers.
- RecoveryCopy.CopyMax: failures of `lseek`, write errors and cancellation end the program and
  are not modelled; a device answers alike each time.
- Checksums: storing and printing of checksums, and the widths larger than memory.
- `copy_detruits_from`, `swap_stuff` and `partial_copy_from`: a walk with fewer cases than the
  two that are modelled, and exchanges of fields.
- Statistics, listings, extended attributes and file data, dialogs, options and messages.
- Allocation failures and the overflow of counters.
