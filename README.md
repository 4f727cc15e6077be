# RAM-disk file system, modelled in Dafny

This project models the `FileSystem` class of `file_system.py`: a small
FAT-style file system kept on a 1 MiB RAM disk of 2048 blocks of 512 bytes.
The state consists of:

- a free map with one flag per block;
- a file allocation table (FAT). Each entry holds the next block of a chain,
  `-1` (END_OF_CHAIN) at the end of a chain, or `-2` (FREE);
- the disk bytes;
- a directory tree of named directories and files. Each file records a size
  and its first block;
- the current path, as a list of names;
- the table of open files, keyed by bare file name.

The model is a Dafny `class FileSystem`. Its methods update that state in
place, as the Python methods do:

- `freeMap`, `fat` and `disk` are arrays;
- the tree is an arena `nodes: map<NodeId, Node>`, with the root at id 0.
  A directory keeps its children as an ordered sequence of (name, id)
  entries, because Python dictionaries keep insertion order;
- the open-file table is a map from names to node ids.

Ghost state carries the invariant `Valid()`, which every operation keeps:

- `chains` is each file's list of blocks;
- `owner` says which file owns each used block;
- `parent` is each node's parent.

`Valid()` states these facts:

- a block is free exactly when its FAT entry is FREE;
- every used block lies on exactly one file's chain;
- every file's chain is an acyclic FAT chain that starts at the file's first
  block and ends in END_OF_CHAIN;
- the chain holds at least the file's size in bytes;
- every child entry points at a node of the same name whose recorded parent
  is that directory;
- names in a directory are distinct;
- every open-file entry names a live file of that name.

The content of a file, `Content(id)`, is the first `size` bytes of its chain's
blocks.

Modules:

- `Options`: the option type;
- `Disk`: constants, bytes, chains, the free list and the block-ownership
  bookkeeping;
- `Paths`: Python's `strip("/")` and `split("/")` and their round trip;
- `Tree`: the arena, lookups, the walk of a path, the path resolver, the
  search specification and the planning of a move;
- `FileSystem`: the class and the lemmas that keep `Valid()`;
- `Scenarios`: the testing checklist at the head of the source, replayed as
  client methods.

Errors that the source prints are returned as a `Status`, and those calls
change nothing. The source raises an uncaught `KeyError` when the current
path no longer names a directory, for example after `mv` moved one of its
ancestors. That case is the status `Crash`, also with no change.

## Model

| member | source | states |
|---|---|---|
| FileSystem.FileSystem.constructor | file_system.py:53-63 | the fresh system: a root directory with no children, an empty current path, no open files, every block free with FAT entry FREE, and zeroed blocks; `Valid()` holds |
| Disk.Pad | file_system.py:227-231 | a block written with some data holds the data cut to BLOCK_SIZE bytes and padded with zeros |
| FileSystem.FileSystem.WriteBlock | file_system.py:227-231 | after a write of block `b`, reading `b` gives the padded data, and every other block is unchanged |
| FileSystem.FileSystem.ReadBlock | file_system.py:233-236 | a read returns exactly one block of BLOCK_SIZE bytes |
| Disk.BlocksNeeded | file_system.py:337-342 | the blocks a write needs: at least one, enough for the data, and the fewest that hold it |
| Disk.FreeIndices | file_system.py:177 | the free-index list is never longer than the free map (that it lists exactly the free blocks, in order, is FreeIndicesSorted) |
| Disk.FreeIndicesSorted | file_system.py:177 | the list of free indices holds exactly the free blocks, in ascending order |
| Disk.LowestFree | file_system.py:177-181 | the first `n` free indices are the `n` lowest free blocks |
| Disk.AllFree | file_system.py:177 | on a disk with every block free, all NUM_BLOCKS blocks are listed as free |
| FileSystem.FileSystem.AllocateBlocks | file_system.py:175-190 | with fewer than `n` free blocks: None, and nothing changes. Otherwise: the `n` lowest free blocks, now marked used and linked in ascending order, with the last entry END_OF_CHAIN; no other FAT entry changes |
| FileSystem.FileSystem.MarkTaken | file_system.py:183-185 | the taken blocks are marked used with FAT entry END_OF_CHAIN; every other block is unchanged |
| FileSystem.FileSystem.LinkTaken | file_system.py:187-188 | each taken block links to the next; the last stays END_OF_CHAIN; other entries are unchanged |
| FileSystem.FileSystem.ExtendChain | file_system.py:192-206 | asking for zero blocks, or for more than are free: None, and nothing changes. Otherwise the old chain followed by the `n` lowest free blocks is a chain. Its head is the first new block when the old chain was empty, and the old head otherwise. The new blocks are marked used, and FAT entries outside the two chains are unchanged |
| FileSystem.FileSystem.LastBlock | file_system.py:201-203 | following the FAT from the head stops at the chain's last block |
| FileSystem.FileSystem.GetBlockChain | file_system.py:208-215 | following the FAT from the head lists exactly the file's chain |
| Disk.ChainIsAcyclic | file_system.py:208-215 | a chain that ends in END_OF_CHAIN never visits a block twice, which is why the loops that follow a chain terminate |
| FileSystem.FileSystem.FreeChain | file_system.py:217-225 | every block of the chain becomes free, with FAT entry FREE and zeroed bytes; every other block keeps its flag, FAT entry and bytes |
| Disk.UsedBlockOnOneChain | file_system.py:175-225 | under the ownership invariant a block on two chains is one chain's block, and it is used |
| Disk.ExtendKeepsBookkeeping | file_system.py:192-206 | extending a chain keeps free flags and FAT entries in step, keeps every used block on exactly one chain, and leaves the FAT entries of every other chain alone |
| Disk.OwnershipRelease | file_system.py:217-225 | releasing a chain's blocks keeps the ownership invariant for the remaining files |
| Disk.WrittenChain | file_system.py:357-368 | a chain written block by block holds the data followed by zeros up to the end of the chain, so the first `len(data)` bytes are the data |
| FileSystem.FileSystem.WriteChain | file_system.py:357-368 | block `j` of the chain holds slice `j` of the data, padded with zeros (all zeros past the end of the data); blocks outside the chain are unchanged |
| FileSystem.FileSystem.ReadChain | file_system.py:385-395 | reading `size` bytes from a chain gives the first `size` bytes of its blocks, in chain order |
| FileSystem.FileSystem.ReadFile | file_system.py:374-397 | a name that is not open gives NotOpen. An open file gives exactly its content; a file with size 0 or no blocks reads as empty |
| FileSystem.FileSystem.HandleFacts | file_system.py:319 | an open-file entry names a live file of that name, with a well-formed chain that holds its size |
| FileSystem.FileSystem.EnsureBlocks | file_system.py:344-355 | with too few free blocks: not ok, and nothing changes. Otherwise the chain is grown by exactly the missing blocks, the lowest free ones, and never shrinks. A file without blocks gets the first new block as its first block. Every other file's content is kept |
| FileSystem.FileSystem.GrowFile | file_system.py:347-355 | the growing branch of `write_file`: the chain is extended by the lowest free blocks, or nothing changes when too few are free; other files keep their content |
| FileSystem.FileSystem.GrowChain | file_system.py:347-355 | the same extension as GrowFile, stated without the content of other files: the chain gains the lowest free blocks, or nothing changes when too few are free |
| FileSystem.FileSystem.RecordGrowth | file_system.py:353-354 | after the FAT was extended, the file's chain is the extended chain, and a file that had no blocks takes the new head as its first block; `Valid()` is restored |
| FileSystem.GrowConsistent | file_system.py:347-354 | recording an extended chain on its file keeps `Valid()` |
| FileSystem.FileSystem.StoreData | file_system.py:357-370 | after the write loop and the size update, the file's content is the data, and its chain holds the data followed by zeros to the chain's end; blocks outside its chain and every other file's content are unchanged |
| FileSystem.FileSystem.LayOut | file_system.py:357-368 | after the write loop the chain holds the data followed by zeros to its end, so its first `len(data)` bytes are the data; blocks outside the chain and other files' content are unchanged |
| FileSystem.FileSystem.SetSize | file_system.py:370 | the file's recorded size becomes the new length and nothing else changes |
| FileSystem.FileSystem.WriteFile | file_system.py:330-372 | a name that is not open gives NotOpen. Too few free blocks gives DiskFull and changes nothing. Otherwise: Ok; the size is the data length; the chain is grown by the lowest free blocks to `max(old length, max(1, ceil(len/512)))` blocks; the chain holds the data followed by zeros to its end, so the file's content is the data; every block outside the chain keeps its bytes, and every other file keeps its content |
| FileSystem.FileSystem.FillFile | file_system.py:357-370 | once the chain covers the data: the chain holds the data followed by zeros, the node is a file of `len(data)` bytes starting at the chain's first block, blocks outside the chain keep their bytes, and other files keep their content |
| FileSystem.OtherChainsKept | file_system.py:357-368 | writing inside one file's chain leaves the bytes of every other file's chain unchanged |
| Paths.Strip | file_system.py:153 | `strip("/")` leaves no separator at either end |
| Paths.Split | file_system.py:153 | `split("/")` gives at least one part, and no part holds the separator |
| Paths.JoinSplit | file_system.py:153 | joining the parts of a split with "/" gives back the string |
| Paths.SplitJoin | file_system.py:153 | splitting a "/"-join of separator-free parts gives back the parts |
| Tree.Find | file_system.py:243 | the position of the first child with a name, or -1 exactly when no child has it |
| Tree.Lookup | file_system.py:306-310 | a name is found exactly when some child has it, and the result is that child's id |
| Tree.Without | file_system.py:416 | removing a name drops exactly that entry and keeps the order of the others |
| Tree.Walk | file_system.py:144-149 | a walk of names from a node that gets through ends at a node of the tree |
| Tree.WalkAppend | file_system.py:144-149 | walking a path one name further takes one more step from where the shorter path led |
| Tree.WorkingDir | file_system.py:144-149 | the current directory exists exactly when the walk of the current path from the root ends at a directory |
| FileSystem.FileSystem.CurrentDirNode | file_system.py:144-149 | the loop over the current path returns the walk of that path from the root |
| FileSystem.FileSystem.WorkingDirNode | file_system.py:144-149 | the current directory, or None when the path no longer leads to a directory |
| Tree.Resolution | file_system.py:151-171 | the directory of a resolved pair is a node of the tree |
| FileSystem.FileSystem.ResolvePath | file_system.py:151-171 | the resolver returns the pair the path denotes: the root sentinel for "/", the current-directory sentinel for "" and ".", no pair when an inner part is missing or is a file, or the parent directory and the last name |
| Tree.Descend | file_system.py:164-168 | a descent over the inner parts that gets through ends at a node of the tree, and at a directory whenever it followed at least one part |
| FileSystem.FileSystem.DescendFrom | file_system.py:164-168 | the loop over the inner parts agrees with the stepwise descent |
| Tree.ResolveName | file_system.py:151-171 | a plain name resolves to the current directory and that name |
| Tree.ResolveAbsolute | file_system.py:151-171 | an absolute path resolves by descending from the root along its inner parts |
| Tree.AddChild | file_system.py:247-251 | the new node joins the tree under its id; the parent directory keeps its name and, when the name was free, finds the new node under it; every other node is unchanged |
| Tree.AddChildShape | file_system.py:247-251 | adding a fresh node under a free name keeps the tree well formed |
| FileSystem.AddNodeConsistent | file_system.py:294-299 | adding an empty directory or an empty file under a free name keeps `Valid()` |
| FileSystem.FileSystem.Mkdir | file_system.py:240-253 | an existing name gives AlreadyExists and changes nothing. Otherwise an empty directory is appended to the current directory's children, and nothing else changes |
| FileSystem.FileSystem.CreateFile | file_system.py:287-301 | an existing name gives AlreadyExists and changes nothing. Otherwise an empty file with no blocks is appended to the current directory's children, with an empty chain |
| FileSystem.FileSystem.Cd | file_system.py:255-274 | ".." pops one name, or none at the root; "/" empties the path. A missing name gives NotFound, a file gives NotADirectory, and in both cases the path is unchanged. A directory is appended and becomes the current directory. The tree is never changed |
| FileSystem.FileSystem.Ls | file_system.py:276-285 | one listing per child, in insertion order: the name, whether it is a directory, and the size of a file |
| FileSystem.FileSystem.OpenFile | file_system.py:303-320 | a missing name gives NotFound, a directory gives IsADirectory, an open name gives AlreadyOpen; each changes nothing. Otherwise exactly that one entry is added |
| FileSystem.FileSystem.CloseFile | file_system.py:322-328 | an open name is removed from the table and nothing else changes; any other name gives NotOpen |
| Tree.Detach | file_system.py:416 | the removed node leaves the tree; its directory keeps its name and loses exactly one entry when the name was there; every other node is unchanged |
| Tree.DetachShape | file_system.py:416 | removing a file or an empty directory keeps the tree well formed |
| Tree.DetachForgets | file_system.py:416 | after removal the name is gone from its directory and every other name is kept |
| FileSystem.DeleteFileConsistent | file_system.py:412-417 | removing a file whose blocks were freed keeps `Valid()` |
| FileSystem.DeleteDirConsistent | file_system.py:408-417 | removing an empty directory keeps `Valid()` |
| FileSystem.FileSystem.RemoveFile | file_system.py:412-417 | a deleted file's blocks are marked free, get FAT entry FREE and are zeroed; every other block keeps its flag, FAT entry and bytes; its entry and any open entry of that name go; other files keep their content |
| FileSystem.FileSystem.ReleaseBlocks | file_system.py:413-414 | every block of the file's chain is freed and zeroed; every other block is unchanged |
| FileSystem.FileSystem.Unlink | file_system.py:416-417 | the file's entry leaves its directory, the open entry of that name goes, and its chain is forgotten; `Valid()` is restored |
| FileSystem.FileSystem.RemoveDir | file_system.py:408-417 | an empty directory's entry and any open entry of that name go; no block changes |
| FileSystem.FileSystem.DeleteFile | file_system.py:399-420 | a missing name gives NotFound and a non-empty directory gives DirectoryNotEmpty; both change nothing. Otherwise the entry is removed and the open entry of that name goes. A deleted file's blocks are marked free, get FAT entry FREE and are zeroed, and every other block keeps its flag, FAT entry and bytes; deleting an empty directory changes no block. Every remaining file keeps its content |
| Tree.PlanMove | file_system.py:424-458 | the checks of `mv` in the source's order; an accepted move has a source entry in a directory and a target directory without the target name |
| FileSystem.FileSystem.ChooseTarget | file_system.py:429-454 | the target directory and name that `mv` picks for each kind of destination |
| Tree.Destination | file_system.py:429-454 | a refused destination carries an error status, and an accepted target directory is a node of the tree |
| Tree.Relink | file_system.py:460-462 | the tree keeps its nodes; the moved node carries the target name and is the last child of the target directory; every node other than the source directory, the moved node and the target is unchanged |
| Tree.RelinkFacts | file_system.py:460-462 | a move only takes the entry out of the source directory, appends it to the target directory and renames it; every other node is unchanged |
| Tree.RelinkShape | file_system.py:460-462 | a planned move keeps the tree well formed |
| FileSystem.MoveConsistent | file_system.py:460-466 | a planned move, with the open entry of the source name dropped, keeps `Valid()` |
| FileSystem.FileSystem.Mv | file_system.py:422-469 | a refused plan returns its error and changes nothing. An accepted plan relinks the entry, drops the open entry of the source name, and leaves every file's blocks and content alone |
| FileSystem.FileSystem.Relocate | file_system.py:460-466 | the entry moves from the source directory to the target under the target name, the open entry of the source name goes, and every file keeps its blocks and content |
| Tree.PlanRename | file_system.py:424-458 | `mv a b` with `a` present and `b` absent in the current directory plans a rename in place |
| Tree.RenameInPlace | file_system.py:460-462 | after a rename in place the new name finds the entry and the old name is gone |
| Tree.MoveIntoItself | file_system.py:441-462 | `mv d d` for a directory `d` is accepted: `d` leaves its parent and becomes its own child, since the source has no cycle check |
| Tree.ChildPath | file_system.py:479 | a child's path starts with the path of its directory |
| Tree.SearchDir | file_system.py:475-483 | every hit of `dfs` below a node lies below that node's path |
| Tree.SearchEntries | file_system.py:478-483 | every hit of the loop over a directory's children lies below the directory's path |
| Tree.Visit | file_system.py:479-483 | every hit of one turn of that loop lies at or below the child's path |
| Tree.SearchDirHits | file_system.py:475-485 | every match of the search has the searched name as its last path component, and its path starts at the root |
| Tree.SearchFindsChild | file_system.py:479-481 | a child with the searched name is reported, with its full path and its type |
| FileSystem.FileSystem.SearchFiles | file_system.py:471-494 | the matches are the pre-order, insertion-order search from the root, and each one ends in the searched name |
| FileSystem.FileSystem.Dfs | file_system.py:475-483 | a call on a node appends exactly the search result below that node |
| FileSystem.FileSystem.DfsChildren | file_system.py:478-483 | the loop over a directory's children appends exactly the children's search results, in order |
| FileSystem.FileSystem.VisitNext | file_system.py:478-483 | after the turn for child `k`, the matches are those of the first `k + 1` children |
| FileSystem.FileSystem.VisitChild | file_system.py:479-483 | one child: a match when the name agrees, then its own subtree when it is a directory |
| Scenarios.DirectoryBasics | file_system.py:13-18 | `mkdir docs`, `ls`, `cd docs`, `ls`, `cd /`: the root lists docs as a directory, docs lists nothing, and the path is back at the root |
| Scenarios.CreateWriteRead | file_system.py:20-26 | create, open, write, close, reopen and read on a fresh system return exactly the data written, for any data that fits on the disk |
| Scenarios.SearchDocsAnd | file_system.py:28-33 | in the tree with docs and one file, a search finds the file by its name, at the root, and nothing else |
| Scenarios.RenameAndSearch | file_system.py:28-33 | `search notes.txt` finds `/notes.txt`; after `mv notes.txt ideas.txt`, `search ideas.txt` finds `/ideas.txt`, and the old name is not found |
| Scenarios.WriteNotes | file_system.py:20-24 | beside docs, notes.txt is created, opened, written and closed: it becomes a file of the data's length on its own chain, and every other block is still free and zeroed |
| Scenarios.WriteRenameDelete | file_system.py:20-37 | after writing notes.txt, renaming it to ideas.txt and deleting it, only docs is left and every block is free and zeroed again |
| Scenarios.DeleteBoth | file_system.py:35-40 | after that session `ls` shows docs alone; `delete docs` then succeeds, the root is empty, and every block is still free and zeroed |

## Left out

- Persistence (`init_filesystem`, `shutdown`, `_reset_fresh_state`, `_save_state`, `_save_metadata`, `_load_metadata`, `_save_disk_image`, `_load_disk_image_if_exists`, file_system.py:67-140): this is file I/O and JSON. Saving after each change is not modelled.
- The `main` command loop and its argument splitting (file_system.py:496-547): this is terminal I/O.
- All printed output: errors are returned as a `Status`, `ls` returns its listing, `search_files` returns its matches, and `read_file` returns its bytes. The `ls` header line is not modelled.
- UTF-8 encoding in `write_file` and decoding in `read_file`: file data is a sequence of bytes.
- The `pos` field of an open-file entry: nothing reads it.
- The open-file table holds a node id rather than a reference to the node's dictionary.
- The flat `bytearray` disk is a sequence of 512-byte blocks: every access in the source is one whole block at a block-aligned offset.
- FileSystem.FileSystem.SearchFiles: the depth-first search is bounded by `nextId` levels of recursion. The tree reachable from the root stays acyclic, because a directory moved into itself or into its own subtree is first removed from its parent. The model does not prove that acyclicity, so it does not prove that this bound is never reached.
- FileSystem.FileSystem.WriteFile: the contract gives the free map and FAT after a write only through `Valid()` and the new chain. It does not restate the per-block free flags the way `ExtendChain` does.
- An uncaught `KeyError` for a stale current path is the status `Crash` with no state change; the exception itself is not modelled.
