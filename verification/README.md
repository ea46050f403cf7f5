# NANO-S16 in Dafny

A model of the parts of the NANO-S16 operating system that compute something hard, with proofs of
what they promise. It is written in the form of the original: the file system keeps an entry table
that its methods rewrite entry by entry, the divider works on registers and flags, the assembler
patches a buffer, and the allocators shift records in place. Each such method is proved against a
specification function, and the promises are proved about that function.

| files | what they model |
|---|---|
| `NsfsTypes`, `NsfsTree`, `NsfsSubtree` | entries of the NSFS file system; the invariant of the directory tree between two operations |
| `NsfsChain`, `NsfsWalk`, `NsfsFit` | chains of entries: resizing, sizes along a chain, closed forms for up to one link |
| `NsfsDir`, `NsfsOps`, `NsfsDelete` | references and directory lists; creating, moving and deleting |
| `NsfsStray`, `NsfsMove`, `NsfsPlace` | the same, whatever entry a lookup returns and whatever entry is to be the parent |
| `NsfsBlocks`, `NsfsGrow`, `NsfsWrite` | block ownership, file contents, growing and writing files |
| `NsfsState`, `NsfsFiles`, `NsfsSteps`, `NsfsRuns`, `NsfsCopy` | the state of a disk, the blocks of its files, its transitions, runs of operations, copying |
| `NsfsNames` | which name leads where after an operation, and what every entry keeps |
| `NsfsSpace`, `NsfsNeed` | free entries and blocks: when an operation can be done at all |
| `NsfsOutcome`, `NsfsTrust` | what writes and copies return and leave when transfers fail, and which results are to be believed |
| `NsfsVolume` | the kernel's operations themselves, on a table and disk that any access may fail on |
| `NsfsDevice`, `NsfsLayout` | byte ranges on a sector device with error codes; where records and blocks lie in it |
| `Mkfs`, `NsfsImage` | the image builder; the kernel at work on its images |
| `LongDiv` | 32-bit division and multiplication on 16-bit registers |
| `NasCode`, `NasProgram`, `NasAssembler` | the assembler: encoding and decoding, two passes against one, the passes themselves |
| `NasDisassembly` | a disassembler written without the assembler's table, and the assembler's output read by it |
| `Heap`, `FarMem`, `Memory` | the two allocators and memcpy |
| `Crc` | the frame check sequence |
| `Edit` | screen places and text offsets in the editor |
| `Numbers` | the formatter, the number parser, the tokenizer, and addresses as text |

`FsOk` is the invariant of the file system. It says that the table is a tree without cycles whose
directories list exactly their children, without repetition and under different names, that every
entry in use is a head or the one empty spare link of a head, that unused entries and references are
zero, that every live block reference is below the size of the file system and above the table,
and that no block is live twice.

A volume or device that `works` is one on which no transfer fails. Every operation says of each error it
returns what that means, and of a volume that works exactly when it succeeds.

## What came out false, and when it holds

Where the code does not do what its comments or headers say, the code is modelled as it is, and the
exact condition is proved.

- A successful operation keeps `FsOk` and the blocks before the data (`Intact`) if and only if it meets
  a condition that a caller can check first (`Sound`): what is created or moved goes to a directory
  with room, what is written is a head, or a link that takes the data without growing and without
  changing the boot block, a deleted or moved name is clear, and nothing is moved below itself. This is
  stated for one step (`NextOkIff`), for runs (`RunOkIff`), and for runs from an image
  (`RunFromImage`), with any parent index a path can lead to and any entry a lookup can return. The
  kernel refuses none of the rest:
  - It does not ask whether a parent is a directory. Below a file or a link, what is created or moved
    is in no list (`CreateMisplaced`, `MoveElsewhere`, `MisplacedBad`); `BelowFileRun` does so on an
    image. `add_ref_in_entry` takes the result of `set_entry_refcount`, which is 0 or an error, for an
    index, so that below a link whose wrapped size exceeds its references it overwrites one of the root
    (`RootOverwritten`). In a full directory the 121st item goes to the link, which `FsOk` rules out.
  - A file with data has a link with the file's own name, below the file. Writing to it goes to block 0
    as far as the wrapped size of the link reaches (`LinkWritten`), and gives the link a link of its own
    beyond that (`LinkGrown`). `LinkWriteRun` changes the boot block of an image with two writes of one
    byte, one to `f` and one to `f/f`.
  - Every directory with items has such a link as well. Looking up `a` in directory `a` can therefore
    return the link, and looking up `.` in the root returns the root. Deleting a directory's link
    empties the root and zeroes it, so that no entry is left (`StrayDeleted`, `ClearEnd`), or, if the
    wrapped size of the link is 0, leaves the directory chained to a free entry; moving the link breaks
    the chain. A lookup returns an item if and only if the name is not the root's own and is not that
    of the link, or an item of that name lies before the link (`Clear`, `ProperFound`).
    `ShadowedRun` is a run from a blank image on which four sound operations lead to such a state.
- Growing a file by more than one block in one call gives it the same block several times; ownership
  is kept if and only if at most one block is added (`GrownOwned`).
- The header says that unused references are 0. `set_entry_refcount` clears, for a count that does not
  fill an entry, only the spare link behind it, so the references dropped have to be 0 already
  (`UnusedRefsCleared`). They are where an item is removed, because the others are shifted first; only
  truncation, which is left out, shrinks a chain without that.
- The walk to a reference divides by 120 at each step; it is right up to the second entry of a chain
  (`StepsRight`).
- A partial sector is written by adding the codes of a read and a write in 16 bits, and two codes can
  add up to 0; a zero result is to be trusted if and only if no two do (`RewriteTrustedIff`). A BIOS
  timeout, 0x80 in the high byte, is such a code (`TimeoutsCancel`).
- `fs_write_file` returns the code of a failed transfer of data as it is, and most codes are below the
  error codes. A result that is the number of bytes is to be believed if and only if the device does not
  have that number as a code (`WriteTrustedIff`). `fs_copy` goes on after any result below the error
  codes; for a copy that could be completed, its result 0 is to be believed if and only if the source is
  empty or no code of the device is below them (`CopyTrustedIff`). 0x0200, an address mark not found, is
  the number of bytes of a block: on an image, a block can be reported as written and is not in the file
  (`LostWrite`), and a copy can return 0 with something else in the target (`LostCopy`).
- The numbers of the last four blocks of a disk of 65535 blocks are the error codes. If the lowest free
  block is one of them, a write returns its number as an error, which can read as an existing file or a
  failed transfer; no other result of a write does (`UsableLimit`, `NoBlock`).
- Deleting can fail for want of a free entry: a list that an item is taken from gets a link if it has
  none and other items stay. How many entries have to be free is computed from the table (`Need`), and
  where no transfer fails a sound deletion succeeds if and only if that many are
  (`NsfsVolume.Volume.DeleteEntry`); none are needed where every directory has its link (`LinkedNone`).
- `fs_delete` returns 0 and not an index; `fs_read_file` on a directory returns its index. An empty
  source file is not copied.
- An image is a state the kernel's own operations could have left if and only if no file takes more
  than 120 blocks (`Mkfs.MadeOk`); a file is found under its shortened name if and only if no earlier
  file and not the root has that name (`MadeFound`).
- `lmem_alloc` checks the upper limit for the first block only (`AllocWithin`, `LimitPassed`), and not
  whether a size or an address wraps in 32 bits; the table stays good if and only if the block asked for
  ends below the last address (`AllocOkIff`, `AfterOkIff`, `RoundedAway`).
- The high byte of a near jump is measured from one byte further on than the low byte, so it is right
  if and only if the distance is not a multiple of 256 (`NearBack`).
- The assembler does not patch a symbol at offset 0, nor after 32 statements with symbols, nor any but
  the last symbol of a statement (`RecordedIff`). The output is right if and only if every statement
  comes out right, which is stated by operand values (`TwoPassIff`, `Right`). The table entries for
  `mul`, `div` and `not` have an operand too many and are never chosen (`Unreachable`). The byte that
  says that no instruction was found never equals the 16-bit code it is compared with; the default
  case of the encoder stops such a program instead, without output.
- The editor's way from a place back to an offset is right for all offsets of a text if and only if
  its first line is shorter than the screen, or the text is exactly one full first line
  (`RoundTripIff`).
- `%d` shows every 16-bit number right but the least (`SignedShown`). Signed division gives the
  quotient rounded down for all operands but the least number by -1 (`QuotientFitsSigned`).

## Model

| member | source | states |
|---|---|---|
| NsfsRuns.NextOkIff | source/fs.c:1024-1385 | A successful create, write, delete or move, below whatever entry the path led to and of whatever entry the lookup returned, keeps the tree, the ownership of blocks and the blocks before the data exactly when it is sound: the new or moved entry goes to a directory with room, what is written is a head or a link whose data the boot block holds already, deleted and moved names are clear, and nothing goes below itself. |
| NsfsRuns.RunOkIff | source/fs.c:1024-1385 | In a run of which only what each operation does in a good state is known, all states up to any point are good, with the blocks before the data as at the start, exactly when all operations before it are sound. |
| NsfsSteps.WriteRefines | source/fs.c:1024-1181 | After a complete write to a head the file holds its old bytes with the data spliced in at the offset; every other file holds what it held; the tree, block ownership and the blocks before the data are kept. |
| NsfsSteps.WrittenOkIff | source/fs.c:1082-1181 | A complete write, to a head or to a file's link, keeps the state and the blocks before the data exactly when it is to a head, or the link takes the data without growing and the boot block holds it already. |
| NsfsSteps.LinkWritten | source/fs.c:1150-1172 | A write through a file's link that does not grow it puts the data into block 0, wrapping at its end; every file holds what it held. |
| NsfsSteps.LinkGrown | source/fs.c:1082-1131 | A write that grows a file's link gives the link a link, which is no directory tree. |
| NsfsSteps.StoredKeeps | source/fs.c:1082-1181 | A write whose data transfer failed still keeps the tree, the ownership of blocks, and the bytes of every other file. |
| NsfsSteps.DeletedOk | source/fs.c:1187-1248 | Deleting an item keeps the state good, and every file outside the deleted subtree keeps its size and references. |
| NsfsSteps.MovedOk | source/fs.c:1316-1385 | Moving an item to a directory outside its subtree keeps the state good and all files with their size and references. |
| NsfsNames.MovedName | source/fs.c:1361-1384 | A sound move gives the entry its new name and parent and changes nothing else of it; every other head keeps its name, parent, kind and time, and all but the two directories keep everything. The new name leads to the entry exactly when no link of the directory with that name comes before it; the old name never does. |
| NsfsNames.DeletedName | source/fs.c:1187-1248 | A sound deletion empties every head below the one deleted; every other head keeps its name, parent, kind and time, and all but the directory keep everything. The name leads to nothing any more, or to the directory's link if that has the name. |
| NsfsNames.MadeName | source/fs.c:1275-1308 | A head made in a directory with room takes a free entry and is what was asked for; every other head keeps its name, parent, kind and time, and all but the directory keep everything. The name leads to it exactly when no link of the directory with that name comes before it. |
| NsfsNames.DirectoryMade | source/fs.c:1281-1311 | The entry of a new directory, field by field: its name, time and parent, size 0, no link, no references. |
| NsfsNames.WrittenName | source/fs.c:1024-1181 | After a sound write the name leads to a file with that name and parent and the time of the write, as long as the data makes it; if there was none, it takes a free entry. Every other head keeps its name, parent, kind and time. |
| NsfsSpace.CanMakeDirIff | source/fs.c:1253-1311 | A directory can be made in a directory with room exactly when its name and an entry are free. |
| NsfsSpace.CanWriteIff | source/fs.c:1037-1131 | A write to a head, or to a new file in a directory with room, can be done exactly when the name is a file or may be created, and the entries and the block it needs are free: to grow, a link unless the file has one, and a block if a new one is reached; for a new file an entry, and for its data a link and a block. |
| NsfsSpace.CanMoveIff | source/fs.c:1334-1382 | A sound move can be done exactly when the new name is free, and a free entry for a link if items stay in a directory without one. |
| NsfsSpace.DetachedCost | source/fs.c:990-1018 | Taking an item out of a directory fails exactly when it needs a link and no entry is free; otherwise the number of free entries changes by that link, which the last item gives back. |
| NsfsSpace.FilledUses | source/fs.c:1082-1131 | Lengthening a file by bytes of a new block uses one free block, and leaves the file with a link. |
| NsfsNeed.NextBalanced | source/fs.c:1203-1213 | While a directory is emptied, deleting the next item succeeds exactly as long as what all items need was free at the start, with the entries that the items before gave back counted in. |
| NsfsNeed.DetachedNeed | source/fs.c:1187-1201 | The entries that have to be free to delete an item are those for taking it out of its list and those for deleting its own items; its subtree is given back. |
| NsfsNeed.LinkedNone | source/fs.c:1187-1229 | Where every directory below an entry has its link, or nothing to be linked, deleting what is in the entry needs no free entry. |
| NsfsSteps.MadeOk | source/fs.c:1253-1311 | Creating an entry in a directory with room keeps the state good and all files; the new entry is a child of its directory. |
| NsfsPlace.CreateMisplaced | source/fs.c:1263-1308 | An entry created below a file, a link or a full directory is a head below that entry, and is left as it was written. |
| NsfsPlace.MisplacedBad | source/fs.c:1263-1308 | A table with a head below a file, a link or an overfull directory is no directory tree. |
| NsfsMove.MoveElsewhere | source/fs.c:1361-1382 | What fs_move leaves after moving any entry below a file, a link or a full directory is not a directory tree. |
| NsfsRuns.FreeBlockUnused | source/fs.c:696-747 | The block the scan of all entries hands out is a data block that no file refers to. |
| NsfsRuns.LookupListed | source/fs.c:505-516 | Looking up a name in a directory finds just the item of the list that has it, exactly when the directory's spare link does not carry the name or lies behind such an item. |
| NsfsStray.ProperFound | source/fs.c:505-516 | A successful lookup returns an item of a directory, and not a link or the root, exactly when the name is clear. |
| NsfsStray.StrayDeletedBad | source/fs.c:1187-1229 | What delete_n leaves after it was called on a directory's link or the root is not a directory tree. |
| NsfsStray.ClearEnd | source/fs.c:1203-1226 | Once all items of the root are deleted one after the other, zeroing the root leaves no entry at all. |
| NsfsMove.StrayMovedBad | source/fs.c:1361-1382 | What fs_move leaves after it was called on a link or the root is not a directory tree. |
| NsfsMove.LoopMovedBad | source/fs.c:1361-1382 | What fs_move leaves after moving a directory below itself is not a directory tree. |
| NsfsMove.MoveAcyclic | source/fs.c:1368-1375 | Giving a detached entry a new parent makes a cycle exactly when the parent is below the entry. |
| NsfsStray.ItemErased | source/fs.c:1203-1213 | Each call of delete_n on the next reference carries the emptying of its entry one item further: for an item of a directory, for the root, and for a directory's link, whose references all lead to the root. |
| NsfsStray.LinkErased | source/fs.c:1214-1226 | Erasing the link and zeroing the entry completes what delete_n is to leave, whatever it was called on. |
| NsfsDelete.DeletedTree | source/fs.c:1187-1229 | Deleting an entry keeps the tree, its order of depth and the uniqueness of names. |
| NsfsDelete.DeletedExactly | source/fs.c:1187-1229 | Deleting zeroes exactly the heads and links of the subtree, takes one item out of the parent's list and keeps the order of the others, and changes nothing else but the parent's spare link. |
| NsfsDelete.EmptyDone | source/fs.c:1203-1226 | Once all items of a directory are deleted one after the other, zeroing it gives the table in which exactly its subtree is zero; its link has been freed on the way. |
| NsfsDelete.DetachSub | source/fs.c:945-1019 | Taking an entry out of its parent's list leaves a tree in which only that entry is unlisted, and its subtree is untouched. |
| NsfsSubtree.SiblingsApart | source/fs.c:1203-1213 | The subtrees of two entries with the same parent have nothing in common. |
| NsfsOps.CreatedTree | source/fs.c:1275-1308 | Adding a new head with a free name to a directory with room keeps the tree, and the head is its child. |
| NsfsOps.MovedTree | source/fs.c:1361-1382 | Moving an entry out of one list, renaming it and putting it at the end of another keeps the tree; it fails only for want of a free entry for a link. |
| NsfsDir.DetachTree | source/fs.c:945-1019 | Removing a reference takes exactly that item out of a directory's list. |
| NsfsDir.AttachTree | source/fs.c:888-939 | Adding a reference puts exactly that item at the end of a directory's list. |
| NsfsDir.AddedAttached | source/fs.c:888-939 | In a directory with room, the walk, the slot and the sizes amount to putting the item at the end of its list. |
| NsfsDir.AddedFrame | source/fs.c:888-939 | Whatever entry the reference is added to, entries in use keep all but sizes and references, and those outside its chain other than the root keep everything. |
| NsfsDir.RootOverwritten | source/fs.c:913-926 | When the chain is too short for the reference, it is a reference of the root that is overwritten. |
| NsfsDir.DetachedSteps | source/fs.c:990-1018 | Shifting the references, resizing the chain and setting the sizes amount to dropping the item and keeping one spare link while there are items. |
| NsfsTree.RespareTree | source/fs.c:756-867 | Changing one head and its spare link leaves a tree if the head itself is left well formed. |
| NsfsChain.ResizeLinked | source/fs.c:756-836 | Resizing leaves a chain of one entry more than the references fill, linked forth and back; it extends or cuts the old chain, and the links gained were free. |
| NsfsChain.ResizeKeeps | source/fs.c:756-836 | Links cut off are zeroed, entries outside the chain stay as they were unless they become links, and entries before the last keep all but their link. |
| NsfsChain.ResizeClears | source/fs.c:803-810 | After resizing, the references of the last entry from the count on are 0. |
| NsfsChain.ResizeSucceeds | source/fs.c:653-678 | Resizing succeeds exactly when there are as many free entries as links to add. |
| NsfsChain.UnusedRefsCleared | source/fs.c:803-810 | For a shrunk chain whose count does not fill its last entry, unused references are 0 exactly when they were so before. |
| NsfsChain.StepsRight | source/fs.c:531-551 | The walk to a reference follows the right number of links exactly for the first two entries of a chain. |
| NsfsGrow.GrownTree | source/fs.c:1082-1131 | Growing a file keeps the tree. |
| NsfsGrow.GrownOwned | source/fs.c:1105-1122 | After growing, no block is live twice exactly when at most one block was added. |
| NsfsState.GrowStepOk | source/fs.c:1082-1131 | Making room for data at or before the end of a file keeps the state good, all other heads, and the references the file had. |
| NsfsBlocks.BusyIsLive | source/fs.c:717-744 | The scan of all entries marked as files finds exactly the blocks that some head uses. |
| NsfsBlocks.WriteInSplices | source/fs.c:1150-1172 | Writing within one block of a file splices the data into its bytes. |
| NsfsWrite.LayWrote | source/fs.c:1150-1172 | In a file that owns its blocks, the pieces of the writing loop, block by block, amount to one splice of its bytes. |
| NsfsWrite.LayBoot | source/fs.c:1150-1172 | Through an entry without references, the pieces go around block 0. |
| NsfsCopy.WriteSplices | source/fs.c:1024-1181 | After a complete write to a name, the name leads to a file with the data spliced into what the name held before, or to a new file with just the data. |
| NsfsCopy.WroteSomeFacts | source/fs.c:1431-1440 | After a write, complete or not, the name is a file as long as the write reached, other files are as they were, and other names are found as before. |
| NsfsVolume.Volume.SetEntryRefcount | source/fs.c:756-836 | The method that walks, extends, clears and cuts the chain computes Resize, or fails. |
| NsfsVolume.Volume.SetEntrySize | source/fs.c:841-867 | Each entry of the chain gets the size remaining at it, in 16 bits. |
| NsfsVolume.Volume.GetNrefEntry | source/fs.c:531-551 | On success the entry at the position that the repeated division gives; not found exactly when the chain is too short for it. |
| NsfsVolume.Volume.AddRef | source/fs.c:888-939 | On any entry that starts a chain, or is not in use, success leaves what AddedTo says: the reference in the slot after the last, or in the root, and the sizes of a directory's chain. |
| NsfsVolume.Volume.RemoveRef | source/fs.c:945-1019 | On success the item is out of the directory's list; what is not listed leaves the table alone. Without a failed transfer it fails only when a link is needed and no entry is free. |
| NsfsVolume.Volume.DeleteN | source/fs.c:1187-1229 | The recursive method, called on any entry a lookup or its own recursion can reach, terminates and on success leaves the table without the subtree, or what StrayDeleted says for a link or the root: nothing at all, if it is the root or a link of a directory with a wrapped size other than 0. Where no transfer fails, an item is deleted exactly when the entries it needs are free. |
| NsfsVolume.Volume.DeleteEntry | source/fs.c:1234-1248 | Whatever entry the name leads to, success is a Delete step. Not found means that there is none and nothing changed, no space that no entry is free; where no transfer fails, a sound deletion succeeds exactly when the entries it needs are free. |
| NsfsVolume.Volume.MoveEntry | source/fs.c:1316-1385 | Whatever entry the source name leads to, and whatever entry in use is to be the parent, success returns its index and is a Move step. Each error means what it says, with the table unchanged if a name is at fault. Where no transfer fails, it succeeds exactly when there is such a step; for a sound move, exactly when the new name is free and so is the entry that a link may take. |
| NsfsVolume.Volume.CreateDirectory | source/fs.c:1253-1311 | Below any entry in use, success returns the lowest free entry, adds the directory there and a reference to it; an existing name is refused and nothing changes, no space means that no entry is free. Where no transfer fails, it succeeds exactly when there is such a step; in a directory with room, exactly when the name and an entry are free. |
| NsfsVolume.Volume.WriteFile | source/fs.c:1024-1181 | Below any entry in use, a result below the error codes is the number of bytes or the code of a failed transfer, and the state is what FileOutcome says for it; the number of bytes, if it is no code of the device, means a Write step; on a head or a new file in a directory with room, any such result means that all other files are kept. Not found means that the name is a directory, or absent and not to be created, and nothing changed; no space, or the number of a block that is an error code, means that no entry or no usable block is free. Where no transfer fails, the number of bytes is returned exactly when there is such a step; on a head or a new file in a directory with room, exactly when the entries and the block it needs are free. |
| NsfsVolume.Volume.WriteData | source/fs.c:1150-1172 | The result 0 means that the data was laid through the references of the entry; any other is a code of the device, and means that some pieces were laid, the block of the next may hold anything, and no other block has changed. |
| NsfsVolume.Volume.ReadFile | source/fs.c:556-598 | The range of the content that the file has from the offset on, across the entries of its chain; for a directory its index; not found exactly when the name is absent; any other error only after a failed transfer. |
| NsfsVolume.Volume.ListEntry | source/fs.c:1486-1517 | The number of items and the entry of the item at a position; for a link found instead of a directory, its wrapped size and the root. |
| NsfsVolume.Volume.CopyFile | source/fs.c:1390-1441 | The result 0 means that every turn wrote the next bytes of the source with a result that is no error, and that the target is a file of its own, as long as the source, with every other file as it was; if no code of the device is below the error codes, it holds the bytes of the source. An empty source makes no target. Each error means what it says. Where no transfer fails, 0 is returned exactly when the source is there, the target name is free, and the source is empty or two entries and all its blocks are free. |
| NsfsTrust.WriteTrustedIff | source/fs.c:1164-1168 | For a write that can be completed, every outcome that returns the number of bytes has the data in the file, exactly when the device does not have that number as a code. |
| NsfsTrust.CopyTrustedIff | source/fs.c:1431-1441 | For a copy that can be completed, every outcome that returns 0 has the bytes of the source in the target, exactly when the source is empty or no code of the device is below the error codes. |
| NsfsImage.LostWrite | source/fs.c:1164-1168 | On every image with one empty file f, with code 0x0200: a write of a block to f can return the number of its bytes and leave another byte at its start. |
| NsfsImage.LostCopy | source/fs.c:1431-1441 | On every image with a file f of one block, with code 0x0200: a copy of f to g can return 0 and leave something else in g. |
| NsfsVolume.Volume.FindFreeBlock | source/fs.c:696-747 | The lowest block above the table that no entry marked as a file refers to. |
| NsfsImage.ReadInput | fstools/mkfs.c:120-179 | Reading any 16-bit offset and count of a file of an image with fs_read_file gives that range of the input file, across chain boundaries. |
| NsfsImage.RunFromImage | fstools/mkfs.c:120-179 | From an image of files of up to 120 blocks, the states of a run are good, with the blocks before the data as built, exactly as long as its operations are sound. |
| NsfsImage.ShadowedRun | source/fs.c:775-801 | On every blank image of at least 50 blocks: make a, a/b and a/c, delete a/c, all sound; then a/a is found although it is not listed, and deleting it succeeds and leaves no tree. |
| NsfsImage.BelowFileRun | source/fs.c:1263-1308 | On every image with one empty file f: making f/x succeeds and leaves no tree. |
| NsfsImage.LinkWriteRun | source/fs.c:1150-1172 | On every image with one empty file f: a byte written to f, and then one written to f/f, both with success, change a block before the data while the tree is kept. |
| NsfsDevice.Device.ReadDisk | source/fs.c:126-207 | On result 0 the buffer has exactly the bytes of the range at its place, for every split into partial and whole sectors and with the sector-by-sector fallback; otherwise only that place may have changed. On a device that fails only where a transfer would cross the DMA boundary, the result is 0 for every range on it. |
| NsfsDevice.Device.WriteDisk | source/fs.c:213-294 | On result 0, unless two error codes cancel, exactly the bytes of the range are replaced; otherwise only sectors of the range may have changed. On a device that fails only where a transfer would cross the DMA boundary, the result is 0 for every range on it. |
| NsfsDevice.RewriteTrustedIff | source/fs.c:238-252 | A zero result of a partial sector write means that it was done, exactly when no two error codes of the device add up to 0 in 16 bits. |
| NsfsDevice.TimeoutsCancel | source/fs.c:238-252 | A device with the code 0x8000 is one where they do. |
| NsfsLayout.RecordRoundTrip | source/fs.h:62-70 | A record read back from its 512 bytes is the entry that was written. |
| NsfsLayout.RecordLayout | source/fs.h:62-70 | Each field of a record lies at its offset, words with their low byte first. |
| NsfsLayout.HoldsOne | source/fs.h:18-34 | The bytes of a device hold one table, one size and one content of the boot block and the data blocks only. |
| NsfsLayout.WriteEntry | source/fs.c:603-617 | On success the device holds the table with the entry replaced; a failed transfer can spoil that one record only, and only a failed transfer is an error. |
| NsfsLayout.GetEntryN | source/fs.c:448-462 | The entry the device holds at the index, or an error after a failed transfer. |
| NsfsLayout.PutData | source/fs.c:1164-1168 | Writing part of a data block or of the boot block changes no record and no other block. |
| Mkfs.Builder.Make | fstools/mkfs.c:60-190 | The builder's loops make an image in which every input file has its chain and blocks, and whose bytes hold the table, super block and boot sector. In the bytes themselves, the four fields of the super block are the type, the number of blocks, the number of entries and the block from which the bytes of the first file follow one another. |
| Mkfs.TableShare | fstools/mkfs.c:62-63 | The table takes a tenth of the blocks, and has at most 4096 entries. |
| Mkfs.MadeReads | fstools/mkfs.c:120-179 | Following the chain of a file gives back its bytes, with the remaining size in each link, links pointing back, and consecutive blocks. |
| Mkfs.MadeFound | fstools/mkfs.c:139-145 | The kernel finds a file under its shortened name exactly when that is not the root's name nor that of an earlier file. |
| Mkfs.MadeOk | fstools/mkfs.c:151-173 | An image with usable names is a good start for the kernel's operations exactly when no file takes more than 120 blocks. |
| Mkfs.BootConsecutive | source/fs.h:43-46 | The first file lies in consecutive blocks from the first data block on. |
| LongDiv.Cpu.Ludivmod | source/ulib/x86.s:338-444 | For every dividend and divisor the unsigned quotient and remainder; divisor 0 gives quotient 0 and the dividend. |
| LongDiv.Cpu.Ldivmod | source/ulib/x86.s:321-336 | For every signed dividend and divisor the quotient rounded down, modulo 2^32, and the remainder with the sign of the divisor. |
| LongDiv.Cpu.DivLarge | source/ulib/x86.s:371-420 | Both loops end, also when doubling the divisor overflows, with dividend = quotient * divisor + remainder and remainder below the divisor. |
| LongDiv.Cpu.FixSigns | source/ulib/x86.s:424-466 | From the unsigned result and the two signs, the registers come to hold the signed one. |
| LongDiv.SignsFixed | source/ulib/x86.s:424-466 | The four ways to put the signs back are the floored quotient and remainder. |
| LongDiv.FloorUnique | source/ulib/x86.s:446-453 | No other quotient leaves a remainder with the sign of the divisor and smaller than it. |
| LongDiv.QuotientFitsSigned | source/ulib/x86.s:321-336 | The signed quotient fits 32 bits exactly when it is not that of the least number by -1. |
| LongDiv.Cpu.Lmulul | source/ulib/x86.s:221-232 | The product modulo 2^32. |
| LongDiv.ProductWords | source/ulib/x86.s:221-232 | Three partial products of words give the product of longs modulo 2^32. |
| LongDiv.SignedProduct | source/ulib/x86.s:221-232 | The same product is right for signed numbers, modulo 2^32. |
| NasCode.DecodeBack | source/programs/nas.c:209-413 | Decoding the bytes of an instruction, whatever follows, gives it back exactly when its branch reaches: a short distance fits a byte, a near distance is not a multiple of 256. |
| NasCode.DecodeAllBack | source/programs/nas.c:209-413 | The bytes of a list of instructions give the list back exactly when every branch in it reaches. |
| NasCode.SameBytes | source/programs/nas.c:209-413 | Two lists in which every branch reaches, with the same bytes at the same place, are the same. |
| NasCode.NearBack | source/programs/nas.c:250-257 | The target of call and jmp comes back exactly when the distance is not a multiple of 256. |
| NasCode.SameCode | source/programs/nas.c:209-413 | Two instructions of one kind at one place have the same bytes exactly when the operand parts that the form uses agree. |
| NasCode.FindIgnoresValue | source/programs/nas.c:595-631 | Which instruction is chosen does not depend on the value of an operand that is not a register pointer. |
| NasCode.FindInstruction | source/programs/nas.c:595-631 | The search finds the first table entry that matches, or none. |
| NasDisassembly.LineBack | source/programs/nas.c:138-194 | For every line that the table has an instruction for, a disassembler that does not use the table gives back its mnemonic and operand types from the bytes, and the whole line exactly when a jump reaches its target and the number of an interrupt is a byte. |
| NasDisassembly.BytesSay | source/programs/nas.c:138-194 | For every entry of the table, also those that are never chosen, the bytes have the mnemonic and the operand types of the entry. |
| NasDisassembly.StatementBack | source/programs/nas.c:675-849 | What stands in the output of the single pass at the offset of an instruction disassembles to its mnemonic, its operand types and, under that same condition, its operands with the symbols replaced. |
| NasDisassembly.SymbolPlace | source/programs/nas.c:833-834 | A symbol stands for the origin plus the offset of the statement that defines it last. |
| NasDisassembly.JumpArrives | source/programs/nas.c:234-257 | Wherever the program is loaded, a jump to a symbol arrives at the statement that defines it last, exactly when that is less than 128 bytes ahead of the next instruction or at most 128 behind it, or for a jump of three bytes the distance is no multiple of 256. |
| NasDisassembly.DataAt | source/programs/nas.c:418-440 | Data lie one behind the other, a word with its low byte first. |
| NasCode.EncodeInstruction | source/programs/nas.c:209-413 | The bytes of the instruction are put at the offset, nothing else changes, and the offset moves behind them. |
| NasCode.Unreachable | source/programs/nas.c:602-624 | No line matches the table entries of mul, div and not. |
| NasProgram.TwoPassIff | source/programs/nas.c:822-849 | The two passes give the output of a single pass that knows every address exactly when every statement comes out right by its operand values. |
| NasProgram.BackPatched | source/programs/nas.c:571-590 | They do when the origin is set once and first, and there are at most 32 statements with symbols, one in each and none at offset 0. |
| NasProgram.RecordedIff | source/programs/nas.c:571-590 | A statement is recorded for the second pass exactly when it has a symbol, is not at offset 0, and comes before the table is full. |
| NasProgram.JumpFirstLost | source/programs/nas.c:823-830 | A jump forward in the first statement keeps the address that the first pass made up. |
| NasAssembler.Assembler.Assemble | source/programs/nas.c:675-850 | The buffer holds the output of both passes, none if an instruction is not known, and equals the single pass exactly when every statement comes out right. |
| NasAssembler.Fresh | source/programs/nas.c:666-672 | The cleared tables that a program starts from are ready for any list of statements. |
| NasAssembler.Assembler.FirstPass | source/programs/nas.c:675-820 | The symbol table, reference table, offset, origin and buffer are those of all statements, or some instruction is not known. |
| NasAssembler.Assembler.SecondPass | source/programs/nas.c:822-850 | Every recorded statement is overwritten with the bytes for its symbol's address, and nothing else. |
| Heap.AllocRefused | source/kernel.c:73-109 | A non-empty request is refused exactly when no run of enough free blocks exists. |
| Heap.AfterGrouped | source/kernel.c:61-127 | Over every run the blocks in use form groups of neighbours that share the address of their first block. |
| Heap.LiveApart | source/kernel.c:61-127 | Over every run, the byte ranges given and not freed lie inside the memory of the heap and have no byte in common. |
| Heap.GivenInside | source/kernel.c:87-104 | What is given lies inside the memory of the heap from its first byte to its last, and in no block that was in use. |
| Heap.FitFound | source/kernel.c:87-104 | The run given is the leftmost one. |
| Heap.FreeAfterAlloc | source/kernel.c:114-127 | Freeing what was just given restores the heap. |
| Heap.FreedRun | source/kernel.c:114-127 | The blocks that freeing an address takes are neighbours, the first of which is the block of that address. |
| Heap.KernelHeap.Alloc | source/kernel.c:73-109 | The scan marks the leftmost run and returns its address, from which as many bytes as asked for lie inside the heap, or returns 0 and changes nothing. |
| FarMem.AfterOkIff | source/kernel.c:145-243 | Over every run of 32-bit requests, the records in use are the first ones, sorted, aligned, apart and below the last address, as long as and only as long as no block asked for wraps. |
| FarMem.AllocOkIff | source/kernel.c:153-215 | With addresses and sizes of 32 bits, an allocation leaves a good table exactly when the block asked for ends below the last address; then it is the one given without wrapping. |
| FarMem.AllocOk | source/kernel.c:153-215 | Where nothing wraps, a block goes into the first gap that is wider than it, or behind the last block, and the table stays sorted. |
| FarMem.AllocApart | source/kernel.c:153-215 | A new block overlaps none in use, and these stay. |
| FarMem.AllocWithin | source/kernel.c:177-194 | An allocation stays within the limit exactly when it was not put behind the last block and past the limit. |
| FarMem.AllocRefused | source/kernel.c:153-215 | A request is refused exactly when it is empty, the table is full, or nothing is in use and it is, rounded up in 32 bits, larger than far memory. |
| FarMem.FreeAfterAlloc | source/kernel.c:220-243 | Freeing what was just given restores the table. |
| FarMem.FreeIs | source/kernel.c:220-243 | Freeing takes out just the block that starts there, and changes nothing if there is none. |
| FarMem.FarMemory.Alloc | source/kernel.c:153-215 | On any table and for any 32-bit size, the in-place search and shift compute the allocation step, wrapping included. |
| FarMem.FarMemory.Free | source/kernel.c:220-243 | The in-place scan and shift compute the freeing step on any table. |
| Memory.Memcpy | source/ulib/ulib.c:654-664 | The bytes are moved as they were, whichever way source and target overlap. |
| Crc.FcsIsRemainder | source/net.c:380-387 | The check sequence is the complement of the remainder by G(x) of the message polynomial with its first 32 bits complemented, times x^32, as clause 3.2.9 of IEEE Std 802.3 defines it. |
| Crc.BytesAreBits | source/net.c:294-387 | A step through the table per byte is a step of the shift register per bit, lowest bit first. |
| Crc.TableOk | source/net.c:294-360 | Each of the 256 table entries is its index times x^8 modulo G(x). |
| Crc.ResidueIff | source/net.c:448-449 | Data followed by four bytes leaves the constant residue exactly when they are its check sequence, low byte first. |
| Crc.BurstFcs | source/net.c:380-387 | Two messages of one length that differ, but only within 32 consecutive bits, have different check sequences. |
| Crc.BurstDetected | source/net.c:294-387 | Bit strings that differ only within 32 consecutive bits leave the shift register different. |
| Crc.Crc32Byte | source/net.c:380-387 | The loop computes the check sequence. |
| Crc.EthFrame | source/net.c:437-450 | The frame is built in the buffer it came in: addresses, type high byte first, the data moved up, and the check sequence. |
| Crc.FrameFields | source/net.c:437-450 | In the frame the destination is the first six bytes and the source the next six, then come the type with its high byte first, the data, and the check sequence of everything before it. |
| Crc.FrameChecks | source/net.c:448-449 | A receiver that runs the check over the whole frame gets the residue. |
| Edit.RoundTripIff | source/programs/edit.c:138-187 | The way back inverts the way forth for all offsets of a text exactly when its first line is shorter than the screen or the text is one full first line. |
| Edit.PlaceInjective | source/programs/edit.c:138-157 | No two offsets of a text share a place. |
| Edit.BufferOffsetToLineCol | source/programs/edit.c:138-157 | The loop computes the place of an offset, or of the end of the text. |
| Edit.LineColToBufferOffset | source/programs/edit.c:163-187 | The two loops compute the offset of a place. |
| Numbers.ConvertedBack | source/ulib/ulib.c:601-620 | The parser gives back the number from its decimal or hexadecimal text of any width. |
| Numbers.NumeralParsed | source/ulib/ulib.c:57-147 | Reading the digits that repeated division produces gives the number, in 16 bits. |
| Numbers.FormatStr | source/ulib/ulib.c:57-160 | The formatter fills the buffer with the rendered text and zeros. |
| Numbers.LongShown | source/ulib/ulib.c:57-147 | Two words, low word first, are shown as the 32-bit number they are, in decimal or in hexadecimal, with as many digits as the width asks for and no more zeros in front than that takes. |
| Numbers.WordShown | source/ulib/ulib.c:57-147 | A word is shown as the unsigned or signed number it is, in decimal or hexadecimal, with as many digits as the width asks for; only the least signed number is not. |
| Numbers.StouAt | source/ulib/ulib.c:601-620 | The parser computes the value of a text in memory. |
| Numbers.StrTok | source/ulib/ulib.c:559-581 | The tokenizer cuts the next token out in place and finds what is behind it. |
| Numbers.IpRoundTrip | source/ulib/ulib.c:919-944 | The text of an address is its four numbers in order, and reading it gives the address, whatever was in the target. |
| Numbers.StrToIp | source/ulib/ulib.c:919-935 | The address is that of the first four fields of the text. |
| Numbers.IpToStr | source/ulib/ulib.c:940-944 | The text is four decimal numbers with dots between them. |

## Left out

- Truncation with WF_TRUNCATE, and writing holes: writes start at or before the end of a file and put
  in at most one block at a time, as the callers in the kernel do.
- Files and directories of more than 120 references on the writing side: the code's tests at
  `source/fs.c:907-921`, `969-980`, `1106-1117` and `1155-1162` do not support them. Reading such
  files, resizing such chains, and creating in or moving to a full directory are modelled.
- NsfsVolume.Volume.CopyFile: the target's parent has to be a directory with room. Elsewhere the first
  turn of the loop is a create that leaves no tree (`NextOkIff`), and the rest of the copy on it is not
  modelled. Nor is the copy of a source that the lookup finds as a file's link (`f/f`), which reads
  block 0 once for each block of the link's wrapped size.
- Path strings and disk identifiers: operations take a parent index and a valid name. Moving and
  copying between disks, and copying directories, which go by path, are not modelled.
- fs_format, fs_init_info and fs time conversion; the clock is a parameter.
- NsfsVolume.Volume.WriteEntry: a failed write leaves the entry table as it was, although a device
  may leave anything in the record; that is stated at the level of the device (`NsfsLayout.WriteEntry`).
- NsfsVolume.Volume.DeleteN: promises nothing about the table when it returns an error, as the
  kernel's operations leave partial updates then; the same holds of all other operations that change
  the table.
- NsfsVolume.Volume.DeleteEntry: of a name that leads to a link or to the root it says what success
  leaves, and not for how many free entries the deletion succeeds.
- The codes that a failed transfer of data can return are a parameter of the volume. On a device they are
  its own codes and, where a write covers part of a sector, sums of two of them in 16 bits.
- Bits of the flag byte other than the two that mark files and directories.
- BIOS calls, the drive reset and retry, other hardware; the device is a set of error codes and a
  choice at each transfer.
- NasAssembler.Assembler.Assemble: takes statements as they are after a line has been cut into tokens;
  reading lines and tokenizing, more than three operands, names of eight or more characters, and
  programs that overflow the tables of symbols or the buffer, are not modelled.
- Numbers.FormatStr: formats numbers only; strings, characters and widths from 30 on are not modelled.
- The shifts and comparisons of 32-bit numbers in `source/ulib/x86.s`, and the stack: a value pushed
  is a field.
- ARP, IP and UDP, the network card, the editor's screen and keys, the command line, video, PCI and
  the system call interface.
