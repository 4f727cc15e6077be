/**
 * The quick testing checklist at the head of file_system.py, replayed on a
 * fresh file system: each numbered flow is a method whose postcondition
 * states what the shell would show. The trees the flows pass through are
 * written out as map literals, with lemmas saying how each operation turns
 * one into the next; the step methods each run one command in the root.
 */
module Scenarios {

  import opened Options
  import opened Disk
  import opened Tree
  import opened FileSystem

  // ---------- the trees of the checklist ----------

  function EmptyRoot(): map<NodeId, Node>
  {
    map[ROOT := Dir("/", [])]
  }

  /** After `mkdir docs`. */
  function DocsOnly(): map<NodeId, Node>
  {
    map[ROOT := Dir("/", [Entry("docs", 1)]), 1 := Dir("docs", [])]
  }

  /** After `create notes.txt` in a fresh file system. */
  function NotesOnly(): map<NodeId, Node>
  {
    map[ROOT := Dir("/", [Entry("notes.txt", 1)]), 1 := File("notes.txt", 0, END_OF_CHAIN)]
  }

  /** The empty directory docs and the file `f`, whose node is `file`, in
      the root. */
  function DocsWith(f: string, file: Node): map<NodeId, Node>
  {
    map[ROOT := Dir("/", [Entry("docs", 1), Entry(f, 2)]), 1 := Dir("docs", []), 2 := file]
  }

  /** After `mkdir docs` and `create f`: the empty directory and the empty
      file in the root. */
  function DocsAnd(f: string): map<NodeId, Node>
  {
    DocsWith(f, File(f, 0, END_OF_CHAIN))
  }

  /** The empty current path leads to the root. */
  lemma AtRootDir(nodes: map<NodeId, Node>)
    requires Closed(nodes) && ROOT in nodes && nodes[ROOT].Dir?
    ensures WorkingDir(nodes, []) == Some(ROOT)
  {
  }

  /** mkdir and create_file append their entry to the root's children. */
  lemma TreesBuilt()
    ensures AddChild(EmptyRoot(), ROOT, 1, Dir("docs", [])) == DocsOnly()
    ensures AddChild(EmptyRoot(), ROOT, 1, File("notes.txt", 0, END_OF_CHAIN)) == NotesOnly()
    ensures AddChild(DocsOnly(), ROOT, 2, File("notes.txt", 0, END_OF_CHAIN)) == DocsAnd("notes.txt")
  {
    assert [] + [Entry("docs", 1)] == [Entry("docs", 1)];
    assert [] + [Entry("notes.txt", 1)] == [Entry("notes.txt", 1)];
    assert [Entry("docs", 1)] + [Entry("notes.txt", 2)] == [Entry("docs", 1), Entry("notes.txt", 2)];
  }

  /** The names the checklist looks up in the root. */
  lemma RootNames()
    ensures Lookup(DocsOnly()[ROOT].children, "docs") == Some(1)
    ensures !HasName(DocsOnly()[ROOT].children, "notes.txt")
    ensures Lookup(NotesOnly()[ROOT].children, "notes.txt") == Some(1)
  {
    assert Find(DocsOnly()[ROOT].children, "docs") == 0;
    assert Find(DocsOnly()[ROOT].children, "notes.txt") == -1;
    assert Find(NotesOnly()[ROOT].children, "notes.txt") == 0;
  }

  /** The file beside docs is found under its name. */
  lemma FileNamed(f: string, file: Node)
    requires f != "docs"
    ensures Lookup(DocsWith(f, file)[ROOT].children, f) == Some(2)
  {
    assert Find(DocsWith(f, file)[ROOT].children, f) == 1;
  }

  /** Searching the tree with docs and `f` finds the file by its name and
      nothing else. */
  lemma SearchDocsAnd(f: string, q: string)
    requires q != "docs"
    ensures Closed(DocsAnd(f)) && ROOT in DocsAnd(f)
    ensures SearchDir(DocsAnd(f), ROOT, "/", q, 3) == if q == f then [Match("/" + f, false)] else []
  {
    var nodes := DocsAnd(f);
    var cs := nodes[ROOT].children;
    assert cs[..1] == [Entry("docs", 1)] && cs[..1][..0] == [];
    assert SearchDir(nodes, 1, "/docs", q, 2) == [];
    assert Visit(nodes, Entry("docs", 1), "/", q, 2) == [];
    assert SearchEntries(nodes, cs[..1], "/", q, 2) == [];
    assert ChildPath("/", f) == "/" + f;
    assert Visit(nodes, Entry(f, 2), "/", q, 2) == if q == f then [Match("/" + f, false)] else [];
    assert SearchDir(nodes, ROOT, "/", q, 3) == SearchEntries(nodes, cs, "/", q, 2);
  }

  /** The full paths of the two names in the root. */
  lemma RootPaths()
    ensures "/" + "notes.txt" == "/notes.txt" && "/" + "ideas.txt" == "/ideas.txt"
  {
  }

  /** mv notes.txt ideas.txt in the root plans a rename in place. */
  lemma RenamePlanned(size: nat, first: int)
    ensures Closed(DocsWith("notes.txt", File("notes.txt", size, first)))
    ensures PlanMove(DocsWith("notes.txt", File("notes.txt", size, first)), [], "notes.txt", "ideas.txt")
         == Move(ROOT, "notes.txt", 2, ROOT, "ideas.txt")
  {
    var nodes := DocsWith("notes.txt", File("notes.txt", size, first));
    var cs := nodes[ROOT].children;
    assert Find(cs, "notes.txt") == 1 && Find(cs, "ideas.txt") == -1;
    PlanRename(nodes, [], ROOT, "notes.txt", "ideas.txt", 2);
  }

  /** Carrying out that rename gives the tree with ideas.txt, whose node
      keeps its size and first block. */
  lemma RenameDone(size: nat, first: int)
    ensures Relink(DocsWith("notes.txt", File("notes.txt", size, first)), ROOT, "notes.txt", 2, ROOT, "ideas.txt")
         == DocsWith("ideas.txt", File("ideas.txt", size, first))
  {
    var cs := DocsWith("notes.txt", File("notes.txt", size, first))[ROOT].children;
    assert Find(cs, "notes.txt") == 1;
    assert Without(cs, "notes.txt") == [Entry("docs", 1)];
    assert [Entry("docs", 1)] + [Entry("ideas.txt", 2)] == [Entry("docs", 1), Entry("ideas.txt", 2)];
  }

  /** Deleting ideas.txt, then docs, from the root empties it. */
  lemma DeletionsDone(file: Node)
    ensures Detach(DocsWith("ideas.txt", file), ROOT, "ideas.txt", 2) == DocsOnly()
    ensures Detach(DocsOnly(), ROOT, "docs", 1) == EmptyRoot()
  {
    var cs := DocsWith("ideas.txt", file)[ROOT].children;
    assert Find(cs, "ideas.txt") == 1;
    assert Without(cs, "ideas.txt") == [Entry("docs", 1)];
    assert Find(DocsOnly()[ROOT].children, "docs") == 0;
  }

  /** A fresh disk has a free block for every block any data up to the
      size of the disk needs. */
  lemma RoomOnFreshDisk(freeMap: seq<bool>, len: nat)
    requires |freeMap| == NUM_BLOCKS && forall b :: 0 <= b < |freeMap| ==> freeMap[b]
    requires len <= DISK_SIZE
    ensures BlocksNeeded(len) <= |FreeIndices(freeMap)|
  {
    AllFree(freeMap);
  }

  /** Replacing the one value of a one-entry map. */
  lemma OneEntry<K, V>(k: K, a: V, b: V)
    ensures map[k := a][k := b] == map[k := b]
  {
  }

  /** Writing notes.txt beside docs changes only its node. */
  lemma NotesWritten(file: Node)
    ensures DocsAnd("notes.txt")[2 := file] == DocsWith("notes.txt", file)
  {
  }

  /** When the only chain is that of file `id`, every block off it is free. */
  lemma OffChainFree(fs: FileSystem, id: NodeId)
    requires fs.Valid() && fs.chains.Keys == {id}
    ensures forall b :: 0 <= b < NUM_BLOCKS && b !in fs.chains[id] ==> fs.freeMap[b]
  {
    assert Ownership(fs.freeMap[..], fs.chains, fs.owner);
    forall b | 0 <= b < NUM_BLOCKS && b !in fs.chains[id]
      ensures fs.freeMap[b]
    {
      assert fs.freeMap[..][b] == fs.freeMap[b];
    }
  }

  // ---------- one command in the root ----------

  /** mkdir `name` in the root, where the name is free. */
  method MkdirAtRoot(fs: FileSystem, name: string, ghost t': map<NodeId, Node>)
    requires fs.Valid() && fs.currentPath == [] && !HasName(fs.nodes[ROOT].children, name)
    requires AddChild(fs.nodes, ROOT, fs.nextId, Dir(name, [])) == t'
    modifies fs
    ensures fs.Valid() && fs.nodes == t' && fs.currentPath == [] && fs.nextId == old(fs.nextId) + 1
    ensures fs.chains == old(fs.chains) && fs.openFiles == old(fs.openFiles)
  {
    AtRootDir(fs.nodes);
    var st := fs.Mkdir(name);
  }

  /** create `name` in the root, where the name is free. */
  method CreateAtRoot(fs: FileSystem, name: string, ghost t': map<NodeId, Node>)
    requires fs.Valid() && fs.currentPath == [] && !HasName(fs.nodes[ROOT].children, name)
    requires AddChild(fs.nodes, ROOT, fs.nextId, File(name, 0, END_OF_CHAIN)) == t'
    modifies fs
    ensures fs.Valid() && fs.nodes == t' && fs.currentPath == [] && fs.nextId == old(fs.nextId) + 1
    ensures fs.chains == old(fs.chains)[old(fs.nextId) := []] && fs.openFiles == old(fs.openFiles)
  {
    AtRootDir(fs.nodes);
    var st := fs.CreateFile(name);
  }

  /** open `name`, the file `id` of the root, not yet open. */
  method OpenAtRoot(fs: FileSystem, name: string, id: NodeId)
    requires fs.Valid() && fs.currentPath == [] && Lookup(fs.nodes[ROOT].children, name) == Some(id)
    requires fs.nodes[id].File? && name !in fs.openFiles
    modifies fs
    ensures fs.Valid() && fs.nodes == old(fs.nodes) && fs.currentPath == [] && fs.chains == old(fs.chains)
    ensures fs.openFiles == old(fs.openFiles)[name := id] && fs.nextId == old(fs.nextId)
  {
    AtRootDir(fs.nodes);
    var st := fs.OpenFile(name);
  }

  /** write `name` into an open file with no blocks yet, on a disk with
      room for the data: the file then holds the data. */
  method WriteOpen(fs: FileSystem, name: string, id: NodeId, data: seq<byte>)
    requires fs.Valid() && fs.openFiles == map[name := id] && id in fs.chains && fs.chains[id] == [] && id != ROOT
    requires BlocksNeeded(|data|) <= |FreeIndices(fs.freeMap[..])|
    modifies fs, fs.freeMap, fs.fat, fs.disk
    ensures fs.Valid() && fs.currentPath == old(fs.currentPath) && fs.openFiles == old(fs.openFiles)
    ensures ROOT in fs.nodes && fs.nodes[ROOT] == old(fs.nodes[ROOT])
    ensures id in fs.chains && fs.Content(id) == data
  {
    ghost var root := fs.nodes[ROOT];
    WriteFresh(fs, name, id, data);
    assert fs.nodes[ROOT] == root;
  }

  /** The same write, stated as the new node of the file. */
  method WriteFresh(fs: FileSystem, name: string, id: NodeId, data: seq<byte>)
    requires fs.Valid() && fs.openFiles == map[name := id] && id in fs.chains && fs.chains[id] == []
    requires BlocksNeeded(|data|) <= |FreeIndices(fs.freeMap[..])|
    modifies fs, fs.freeMap, fs.fat, fs.disk
    ensures fs.Valid() && fs.currentPath == old(fs.currentPath) && fs.openFiles == old(fs.openFiles)
    ensures id in fs.chains && fs.chains[id] != [] && fs.Content(id) == data
    ensures fs.nodes == old(fs.nodes)[id := File(name, |data|, fs.chains[id][0])]
    ensures fs.chains == old(fs.chains)[id := fs.chains[id]] && fs.nextId == old(fs.nextId)
    ensures forall b :: 0 <= b < NUM_BLOCKS && b !in fs.chains[id] ==> fs.disk[b] == old(fs.disk[b])
  {
    assert name in fs.openFiles && fs.openFiles[name] == id;
    assert BlocksNeeded(|data|) - |fs.chains[id]| > 0;
    var st := fs.WriteFile(name, data);
    assert st == Ok && fs.Content(id) == data;
  }

  /** close `name`, open `name`, read `name` for the open file `id` of the
      root: reading gives back what the file holds. */
  method Reread(fs: FileSystem, name: string, id: NodeId) returns (out: seq<byte>)
    requires fs.Valid() && fs.currentPath == [] && fs.openFiles == map[name := id]
    requires Lookup(fs.nodes[ROOT].children, name) == Some(id) && id in fs.chains
    modifies fs
    ensures out == old(fs.Content(id))
  {
    var st := fs.CloseFile(name);
    OpenAtRoot(fs, name, id);
    st, out := fs.ReadFile(name);
  }

  /** ls in the root. */
  method ListRoot(fs: FileSystem, ghost t: map<NodeId, Node>) returns (listing: seq<Listing>)
    requires fs.Valid() && fs.currentPath == [] && fs.nodes == t
    requires t == DocsOnly() || t == EmptyRoot()
    ensures t == DocsOnly() ==> listing == [DirListing("docs")]
    ensures t == EmptyRoot() ==> listing == []
  {
    AtRootDir(fs.nodes);
    var st;
    st, listing := fs.Ls();
  }

  /** mv `src` `dest`, planned as `plan`, whose outcome is `t'`. */
  method MoveAt(fs: FileSystem, src: string, dest: string, ghost plan: MovePlan, ghost t': map<NodeId, Node>)
    requires fs.Valid() && PlanMove(fs.nodes, fs.currentPath, src, dest) == plan && plan.Move?
    requires Relink(fs.nodes, plan.srcDir, plan.srcName, plan.entry, plan.target, plan.targetName) == t'
    modifies fs
    ensures fs.Valid() && fs.nodes == t'
    ensures fs.currentPath == old(fs.currentPath) && fs.nextId == old(fs.nextId) && fs.chains == old(fs.chains)
  {
    var st := fs.Mv(src, dest);
  }

  /** search `q` in the tree with docs and the file `f`. */
  method SearchDocs(fs: FileSystem, f: string, q: string) returns (hits: seq<Match>)
    requires fs.Valid() && fs.nodes == DocsAnd(f) && fs.nextId == 3 && q != "docs"
    ensures hits == if q == f then [Match("/" + f, false)] else []
  {
    SearchDocsAnd(f, q);
    hits := fs.SearchFiles(q);
  }

  /** delete `name`, the child `id` of the root, leaving the tree `t'`. */
  method DeleteAtRoot(fs: FileSystem, name: string, id: NodeId, ghost t': map<NodeId, Node>) returns (st: Status)
    requires fs.Valid() && fs.currentPath == [] && Lookup(fs.nodes[ROOT].children, name) == Some(id)
    requires fs.nodes[id].File? || fs.nodes[id].children == []
    requires Detach(fs.nodes, ROOT, name, id) == t'
    modifies fs, fs.freeMap, fs.fat, fs.disk
    ensures st == Ok && fs.Valid() && fs.currentPath == [] && fs.nodes == t'
    ensures old(fs.nodes)[id].Dir? ==>
      forall b :: 0 <= b < NUM_BLOCKS ==> fs.freeMap[b] == old(fs.freeMap[b]) && fs.disk[b] == old(fs.disk[b])
    ensures old(fs.nodes)[id].File? ==>
      && id in old(fs.chains) && fs.chains == old(fs.chains) - {id}
      && (forall b :: b in old(fs.chains)[id] ==> fs.freeMap[b] && fs.disk[b] == Zeros(BLOCK_SIZE))
      && (forall b :: 0 <= b < NUM_BLOCKS && b !in old(fs.chains)[id] ==>
            fs.freeMap[b] == old(fs.freeMap[b]) && fs.disk[b] == old(fs.disk[b]))
  {
    AtRootDir(fs.nodes);
    st := fs.DeleteFile(name);
  }

  // ---------- the checklist ----------

  /** mkdir docs on a fresh file system. */
  method MakeDocs() returns (fs: FileSystem)
    ensures fresh(fs) && fresh(fs.freeMap) && fresh(fs.fat) && fresh(fs.disk)
    ensures fs.Valid() && fs.nodes == DocsOnly() && fs.currentPath == [] && fs.nextId == 2
    ensures fs.chains == map[] && fs.openFiles == map[]
    ensures forall b :: 0 <= b < NUM_BLOCKS ==> fs.freeMap[b] && fs.disk[b] == Zeros(BLOCK_SIZE)
  {
    fs := new FileSystem();
    TreesBuilt();
    MkdirAtRoot(fs, "docs", DocsOnly());
  }

  /** Checklist 1: mkdir docs, ls, cd docs, ls, cd /. The root lists the
      new directory, the new directory lists nothing, and "/" leads back
      to the root. */
  method DirectoryBasics() returns (atRoot: seq<Listing>, inDocs: seq<Listing>, back: seq<string>)
    ensures atRoot == [DirListing("docs")]
    ensures inDocs == []
    ensures back == []
  {
    var fs := MakeDocs();
    atRoot := ListRoot(fs, DocsOnly());
    inDocs, back := VisitDocs(fs);
  }

  /** cd docs, ls, cd / from the root of the tree with docs alone. */
  method VisitDocs(fs: FileSystem) returns (inDocs: seq<Listing>, back: seq<string>)
    requires fs.Valid() && fs.nodes == DocsOnly() && fs.currentPath == []
    modifies fs
    ensures inDocs == [] && back == []
  {
    AtRootDir(fs.nodes);
    RootNames();
    var st := fs.Cd("docs");
    st, inDocs := fs.Ls();
    st := fs.Cd("/");
    back := fs.currentPath;
  }

  /** Checklist 2: create notes.txt, open it, write, close, reopen, read.
      On a fresh disk any data that fits is read back exactly as written. */
  method CreateWriteRead(data: seq<byte>) returns (out: seq<byte>)
    requires |data| <= DISK_SIZE
    ensures out == data
  {
    var fs := new FileSystem();
    RoomOnFreshDisk(fs.freeMap[..], |data|);
    TreesBuilt();
    RootNames();
    CreateAtRoot(fs, "notes.txt", NotesOnly());
    OpenAtRoot(fs, "notes.txt", 1);
    WriteOpen(fs, "notes.txt", 1, data);
    out := Reread(fs, "notes.txt", 1);
  }

  /** mkdir docs, create notes.txt on a fresh file system. */
  method MakeDocsAndNotes() returns (fs: FileSystem)
    ensures fresh(fs) && fresh(fs.freeMap) && fresh(fs.fat) && fresh(fs.disk)
    ensures fs.Valid() && fs.nodes == DocsAnd("notes.txt") && fs.currentPath == [] && fs.nextId == 3
    ensures fs.chains == map[2 := []] && fs.openFiles == map[]
    ensures forall b :: 0 <= b < NUM_BLOCKS ==> fs.freeMap[b] && fs.disk[b] == Zeros(BLOCK_SIZE)
  {
    fs := MakeDocs();
    TreesBuilt();
    RootNames();
    CreateAtRoot(fs, "notes.txt", DocsAnd("notes.txt"));
  }

  /** mv notes.txt ideas.txt in the tree with docs and notes.txt, a file
      of `size` bytes from block `first`. */
  method RenameNotes(fs: FileSystem, ghost size: nat, ghost first: int)
    requires fs.Valid() && fs.nodes == DocsWith("notes.txt", File("notes.txt", size, first))
    requires fs.currentPath == [] && fs.nextId == 3
    modifies fs
    ensures fs.Valid() && fs.nodes == DocsWith("ideas.txt", File("ideas.txt", size, first))
    ensures fs.currentPath == [] && fs.nextId == 3 && fs.chains == old(fs.chains)
  {
    RenamePlanned(size, first);
    RenameDone(size, first);
    MoveAt(fs, "notes.txt", "ideas.txt", Move(ROOT, "notes.txt", 2, ROOT, "ideas.txt"),
           DocsWith("ideas.txt", File("ideas.txt", size, first)));
  }

  /** Checklists 3 and 4: search notes.txt, mv notes.txt ideas.txt, search
      ideas.txt. The file is found at the root, renamed in place, and then
      found under its new name only. */
  method RenameAndSearch() returns (before: seq<Match>, after: seq<Match>, oldName: seq<Match>)
    ensures before == [Match("/notes.txt", false)]
    ensures after == [Match("/ideas.txt", false)]
    ensures oldName == []
  {
    var fs := MakeDocsAndNotes();
    RootPaths();
    before := SearchDocs(fs, "notes.txt", "notes.txt");
    RenameNotes(fs, 0, END_OF_CHAIN);
    after := SearchDocs(fs, "ideas.txt", "ideas.txt");
    oldName := SearchDocs(fs, "ideas.txt", "notes.txt");
  }

  /** mkdir docs, create notes.txt, open notes.txt on a fresh file system. */
  method OpenNotes() returns (fs: FileSystem)
    ensures fresh(fs) && fresh(fs.freeMap) && fresh(fs.fat) && fresh(fs.disk)
    ensures fs.Valid() && fs.nodes == DocsAnd("notes.txt") && fs.currentPath == [] && fs.nextId == 3
    ensures fs.chains == map[2 := []] && fs.openFiles == map["notes.txt" := 2]
    ensures forall b :: 0 <= b < NUM_BLOCKS ==> fs.freeMap[b] && fs.disk[b] == Zeros(BLOCK_SIZE)
  {
    fs := MakeDocsAndNotes();
    FileNamed("notes.txt", File("notes.txt", 0, END_OF_CHAIN));
    OpenAtRoot(fs, "notes.txt", 2);
  }

  /** Checklist 2 after checklist 1, up to the close: beside docs,
      notes.txt is created, opened, written with `data` and closed. Its
      blocks are `chain`; every other block is still free and zeroed. */
  method WriteNotes(data: seq<byte>) returns (fs: FileSystem, ghost chain: seq<nat>)
    requires |data| <= DISK_SIZE
    ensures fresh(fs) && fresh(fs.freeMap) && fresh(fs.fat) && fresh(fs.disk)
    ensures fs.Valid() && chain != [] && fs.nodes == DocsWith("notes.txt", File("notes.txt", |data|, chain[0]))
    ensures fs.currentPath == [] && fs.nextId == 3 && fs.chains == map[2 := chain]
    ensures forall b :: 0 <= b < NUM_BLOCKS && b !in chain ==> fs.freeMap[b] && fs.disk[b] == Zeros(BLOCK_SIZE)
  {
    fs := OpenNotes();
    chain := WriteClose(fs, data);
  }

  /** write notes.txt `data`, close notes.txt, with notes.txt open and
      empty beside docs on an all-free, zeroed disk. */
  method WriteClose(fs: FileSystem, data: seq<byte>) returns (ghost chain: seq<nat>)
    requires |data| <= DISK_SIZE
    requires fs.Valid() && fs.nodes == DocsAnd("notes.txt") && fs.currentPath == [] && fs.nextId == 3
    requires fs.chains == map[2 := []] && fs.openFiles == map["notes.txt" := 2]
    requires forall b :: 0 <= b < NUM_BLOCKS ==> fs.freeMap[b] && fs.disk[b] == Zeros(BLOCK_SIZE)
    modifies fs, fs.freeMap, fs.fat, fs.disk
    ensures fs.Valid() && chain != [] && fs.nodes == DocsWith("notes.txt", File("notes.txt", |data|, chain[0]))
    ensures fs.currentPath == [] && fs.nextId == 3 && fs.chains == map[2 := chain]
    ensures forall b :: 0 <= b < NUM_BLOCKS && b !in chain ==> fs.freeMap[b] && fs.disk[b] == Zeros(BLOCK_SIZE)
  {
    RoomOnFreshDisk(fs.freeMap[..], |data|);
    WriteFresh(fs, "notes.txt", 2, data);
    chain := fs.chains[2];
    CloseWritten(fs, |data|, chain);
  }

  /** close notes.txt once `chain` holds its `size` bytes. */
  method CloseWritten(fs: FileSystem, ghost size: nat, ghost chain: seq<nat>)
    requires fs.Valid() && chain != [] && fs.nodes == DocsAnd("notes.txt")[2 := File("notes.txt", size, chain[0])]
    requires fs.currentPath == [] && fs.nextId == 3 && fs.chains == map[2 := []][2 := chain]
    requires fs.openFiles == map["notes.txt" := 2]
    requires forall b :: 0 <= b < NUM_BLOCKS && b !in chain ==> fs.disk[b] == Zeros(BLOCK_SIZE)
    modifies fs
    ensures fs.Valid() && fs.nodes == DocsWith("notes.txt", File("notes.txt", size, chain[0]))
    ensures fs.currentPath == [] && fs.nextId == 3 && fs.chains == map[2 := chain]
    ensures forall b :: 0 <= b < NUM_BLOCKS && b !in chain ==> fs.freeMap[b] && fs.disk[b] == Zeros(BLOCK_SIZE)
  {
    var st := fs.CloseFile("notes.txt");
    OneEntry(2, [], chain);
    NotesWritten(File("notes.txt", size, chain[0]));
    OffChainFree(fs, 2);
  }

  /** Checklists 4 and 5 after that: mv notes.txt ideas.txt, delete
      ideas.txt. Deleting the written file frees and zeroes its blocks, so
      every block is free and zeroed again. */
  method WriteRenameDelete(data: seq<byte>) returns (fs: FileSystem)
    requires |data| <= DISK_SIZE
    ensures fresh(fs) && fresh(fs.freeMap) && fresh(fs.fat) && fresh(fs.disk)
    ensures fs.Valid() && fs.nodes == DocsOnly() && fs.currentPath == []
    ensures forall b :: 0 <= b < NUM_BLOCKS ==> fs.freeMap[b] && fs.disk[b] == Zeros(BLOCK_SIZE)
  {
    ghost var chain;
    fs, chain := WriteNotes(data);
    ghost var file := File("ideas.txt", |data|, chain[0]);
    RenameNotes(fs, |data|, chain[0]);
    FileNamed("ideas.txt", file);
    DeletionsDone(file);
    var st := DeleteAtRoot(fs, "ideas.txt", 2, DocsOnly());
  }

  /** Checklists 5 and 6: after that session, ls, delete docs, ls. The root
      lists docs alone; the empty directory then goes too, leaving the root
      empty, with the disk still all free and zeroed. */
  method DeleteBoth(data: seq<byte>) returns (fs: FileSystem, afterFile: seq<Listing>, st: Status, afterDir: seq<Listing>)
    requires |data| <= DISK_SIZE
    ensures afterFile == [DirListing("docs")]
    ensures st == Ok && afterDir == []
    ensures fs.Valid() && forall b :: 0 <= b < NUM_BLOCKS ==> fs.freeMap[b] && fs.disk[b] == Zeros(BLOCK_SIZE)
  {
    fs := WriteRenameDelete(data);
    afterFile := ListRoot(fs, DocsOnly());
    RootNames();
    DeletionsDone(Dir("docs", []));
    st := DeleteAtRoot(fs, "docs", 1, EmptyRoot());
    afterDir := ListRoot(fs, EmptyRoot());
  }
}
