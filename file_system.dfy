/**
 * The FileSystem class of file_system.py: a directory tree whose files
 * keep their bytes in chains of blocks of a 1 MB RAM disk, linked through
 * a file allocation table, plus the current path and the table of open
 * files. Every method mutates the state in place as the source does; the
 * invariant Valid() ties the tree, the FAT, the free map and the ghost
 * record of which chain owns which block together, and every method
 * keeps it.
 */
module FileSystem {

  import opened Options
  import opened Disk
  import opened Paths
  import opened Tree

  /** Each file node has a chain in the FAT that starts at its first block
      and is long enough for its size; nothing else has a chain. */
  ghost predicate FilesHaveChains(nodes: map<NodeId, Node>, chains: map<NodeId, seq<nat>>, fat: seq<int>)
  {
    && (forall id :: id in chains <==> id in nodes && nodes[id].File?)
    && (forall id :: id in chains ==>
          IsChain(fat, nodes[id].firstBlock, chains[id]) && nodes[id].size <= BLOCK_SIZE * |chains[id]|)
  }

  /** The open-file table holds a live file node for each name, and that
      node still carries the name it was opened under. */
  ghost predicate HandlesValid(openFiles: map<string, NodeId>, nodes: map<NodeId, Node>)
  {
    forall k :: k in openFiles ==> openFiles[k] in nodes && nodes[openFiles[k]].File? && nodes[openFiles[k]].name == k
  }

  /** The bookkeeping of the whole file system, on values: the free map and
      the FAT agree, every used block lies on exactly one file's chain, every
      file's chain starts at its first block and covers its size, the tree
      is well formed and every open handle names a live file. */
  ghost predicate Consistent(nodes: map<NodeId, Node>, parent: map<NodeId, NodeId>, nextId: nat,
                             openFiles: map<string, NodeId>, chains: map<NodeId, seq<nat>>, owner: map<nat, NodeId>,
                             freeMap: seq<bool>, fat: seq<int>)
  {
    && FreeMarks(freeMap, fat)
    && Ownership(freeMap, chains, owner)
    && FilesHaveChains(nodes, chains, fat)
    && TreeShape(nodes, parent, nextId)
    && HandlesValid(openFiles, nodes)
  }

  /** One line of `ls`: a directory, or a file with its size. */
  datatype Listing = DirListing(name: string) | FileListing(name: string, size: nat)

  /** Adding a fresh directory, or a fresh empty file together with its
      empty chain, keeps every file's chain and every open handle. */
  lemma AddChildKeeps(nodes: map<NodeId, Node>, parent: map<NodeId, NodeId>, nextId: nat, chains: map<NodeId, seq<nat>>,
                      fat: seq<int>, openFiles: map<string, NodeId>, p: NodeId, node: Node)
    requires TreeShape(nodes, parent, nextId) && FilesHaveChains(nodes, chains, fat) && HandlesValid(openFiles, nodes)
    requires p in nodes && nodes[p].Dir? && |fat| == NUM_BLOCKS
    requires node.File? ==> node.size == 0 && node.firstBlock == END_OF_CHAIN
    ensures var nodes' := AddChild(nodes, p, nextId, node);
      && FilesHaveChains(nodes', if node.File? then chains[nextId := []] else chains, fat)
      && HandlesValid(openFiles, nodes')
  {
    var nodes' := AddChild(nodes, p, nextId, node);
    var chains' := if node.File? then chains[nextId := []] else chains;
    assert nextId !in nodes && nextId != p;
    assert nodes'.Keys == nodes.Keys + {nextId};
    assert nodes'[nextId] == node && nodes'[p].Dir?;
    forall x | x in nodes && x != p
      ensures nodes'[x] == nodes[x]
    {
    }
    forall x | x in chains'
      ensures x in nodes' && nodes'[x].File?
      ensures IsChain(fat, nodes'[x].firstBlock, chains'[x]) && nodes'[x].size <= BLOCK_SIZE * |chains'[x]|
    {
      if x == nextId {
        assert chains'[x] == [] && nodes'[x] == node;
      } else {
        assert x in chains && x != p;
      }
    }
    forall x | x in nodes' && nodes'[x].File?
      ensures x in chains'
    {
      if x != nextId {
        assert x != p && nodes[x] == nodes'[x];
      }
    }
  }

  /** Adding a fresh directory, or a fresh empty file with an empty chain,
      under directory `p` keeps the whole file system consistent. */
  lemma AddNodeConsistent(nodes: map<NodeId, Node>, parent: map<NodeId, NodeId>, nextId: nat,
                          openFiles: map<string, NodeId>, chains: map<NodeId, seq<nat>>, owner: map<nat, NodeId>,
                          freeMap: seq<bool>, fat: seq<int>, p: NodeId, node: Node)
    requires Consistent(nodes, parent, nextId, openFiles, chains, owner, freeMap, fat)
    requires p in nodes && nodes[p].Dir? && !HasName(nodes[p].children, node.name) && |fat| == NUM_BLOCKS
    requires node.Dir? ==> node.children == []
    requires node.File? ==> node.size == 0 && node.firstBlock == END_OF_CHAIN
    ensures Consistent(AddChild(nodes, p, nextId, node), parent[nextId := p], nextId + 1, openFiles,
                       if node.File? then chains[nextId := []] else chains, owner, freeMap, fat)
  {
    AddChildKeeps(nodes, parent, nextId, chains, fat, openFiles, p, node);
    AddChildShape(nodes, parent, nextId, p, node);
    if node.File? {
      OwnershipAdd(freeMap, chains, owner, nextId);
    }
  }

  /** Giving file `id` a new size and first block that fit its chain keeps
      the whole file system consistent. */
  lemma SetFileConsistent(nodes: map<NodeId, Node>, parent: map<NodeId, NodeId>, nextId: nat,
                          openFiles: map<string, NodeId>, chains: map<NodeId, seq<nat>>, owner: map<nat, NodeId>,
                          freeMap: seq<bool>, fat: seq<int>, id: NodeId, head: int, size: nat)
    requires FreeMarks(freeMap, fat) && Ownership(freeMap, chains, owner)
    requires TreeShape(nodes, parent, nextId) && HandlesValid(openFiles, nodes)
    requires id in nodes && nodes[id].File?
    requires forall f :: f in chains <==> f in nodes && nodes[f].File?
    requires forall f :: f in chains && f != id ==>
      IsChain(fat, nodes[f].firstBlock, chains[f]) && nodes[f].size <= BLOCK_SIZE * |chains[f]|
    requires IsChain(fat, head, chains[id]) && size <= BLOCK_SIZE * |chains[id]|
    ensures Consistent(nodes[id := nodes[id].(size := size, firstBlock := head)], parent, nextId, openFiles, chains, owner, freeMap, fat)
  {
    var nodes' := nodes[id := nodes[id].(size := size, firstBlock := head)];
    assert forall f :: f in nodes ==> nodes'[f].Dir? == nodes[f].Dir? && nodes'[f].name == nodes[f].name;
    assert forall d :: d in nodes && nodes[d].Dir? ==> nodes'[d] == nodes[d];
    assert FilesHaveChains(nodes', chains, fat);
    assert TreeShape(nodes', parent, nextId);
  }

  /** Growing the chain of file `id` by the lowest free blocks `nb`, now
      marked used and linked after it, with `head` as the file's first
      block, keeps the whole file system consistent. */
  lemma GrowConsistent(nodes: map<NodeId, Node>, parent: map<NodeId, NodeId>, nextId: nat,
                       openFiles: map<string, NodeId>, chains: map<NodeId, seq<nat>>, owner: map<nat, NodeId>,
                       freeMap: seq<bool>, fat: seq<int>, freeMap': seq<bool>, fat': seq<int>,
                       id: NodeId, head: int, nb: seq<nat>)
    requires Consistent(nodes, parent, nextId, openFiles, chains, owner, freeMap, fat) && id in chains
    requires Extended(freeMap, fat, freeMap', fat', head, chains[id], nb)
    ensures Consistent(nodes[id := nodes[id].(firstBlock := head)], parent, nextId, openFiles,
                       chains[id := chains[id] + nb], Claim(owner, nb, id), freeMap', fat')
  {
    ExtendKeepsBookkeeping(freeMap, fat, freeMap', fat', chains, owner, id, head, nb);
    var chains' := chains[id := chains[id] + nb];
    forall f | f in chains' && f != id
      ensures IsChain(fat', nodes[f].firstBlock, chains'[f])
    {
      ChainFrame(fat, fat', nodes[f].firstBlock, chains[f]);
    }
    SetFileConsistent(nodes, parent, nextId, openFiles, chains', Claim(owner, nb, id), freeMap', fat',
                      id, head, nodes[id].size);
    assert nodes[id].(size := nodes[id].size, firstBlock := head) == nodes[id].(firstBlock := head);
  }

  /** Removing child `name` (node `id`) of directory `p`, with the chain of
      `id` if it is a file, and dropping the handle called `name` keeps
      every other file's chain and every other handle: a handle on `id`
      is the one called `name`. */
  lemma DetachKeeps(nodes: map<NodeId, Node>, parent: map<NodeId, NodeId>, nextId: nat, chains: map<NodeId, seq<nat>>,
                    fat: seq<int>, openFiles: map<string, NodeId>, p: NodeId, name: string, id: NodeId)
    requires TreeShape(nodes, parent, nextId) && FilesHaveChains(nodes, chains, fat) && HandlesValid(openFiles, nodes)
    requires p in nodes && nodes[p].Dir? && Lookup(nodes[p].children, name) == Some(id)
    ensures var nodes' := Detach(nodes, p, name, id);
      && FilesHaveChains(nodes', chains - {id}, fat)
      && HandlesValid(openFiles - {name}, nodes')
  {
    var nodes' := Detach(nodes, p, name, id);
    var k := Find(nodes[p].children, name);
    assert nodes[p].children[k] == Entry(name, id);
    assert nodes[id].name == name;
    forall f | f in nodes && f != p && f != id
      ensures nodes'[f] == nodes[f]
    {
    }
    assert id != p ==> nodes'.Keys == nodes.Keys - {id};
  }

  /** Once the blocks of file `id` are freed, every other file's chain is
      still a chain of the new FAT, since no block lies on two chains. */
  lemma FreedChainsKept(nodes: map<NodeId, Node>, chains: map<NodeId, seq<nat>>, owner: map<nat, NodeId>,
                        freeMap: seq<bool>, fat: seq<int>, fat': seq<int>, id: NodeId)
    requires Ownership(freeMap, chains, owner) && id in chains && |fat| == NUM_BLOCKS && |fat'| == NUM_BLOCKS
    requires FilesHaveChains(nodes, chains - {id}, fat)
    requires forall b :: 0 <= b < NUM_BLOCKS && b !in chains[id] ==> fat'[b] == fat[b]
    ensures FilesHaveChains(nodes, chains - {id}, fat')
  {
    forall f | f in chains && f != id
      ensures IsChain(fat', nodes[f].firstBlock, chains[f])
    {
      assert f in chains - {id} && IsChain(fat, nodes[f].firstBlock, chains[f]);
      forall i | 0 <= i < |chains[f]|
        ensures fat'[chains[f][i]] == fat[chains[f][i]]
      {
        if chains[f][i] in chains[id] {
          UsedBlockOnOneChain(freeMap, chains, owner, chains[f][i], f, id);
        }
      }
      ChainFrame(fat, fat', nodes[f].firstBlock, chains[f]);
    }
  }

  /** Removing the empty directory `id`, child `name` of directory `p`, and
      dropping the handle called `name` keeps the whole file system
      consistent. */
  lemma DeleteDirConsistent(nodes: map<NodeId, Node>, parent: map<NodeId, NodeId>, nextId: nat,
                            openFiles: map<string, NodeId>, chains: map<NodeId, seq<nat>>, owner: map<nat, NodeId>,
                            freeMap: seq<bool>, fat: seq<int>, p: NodeId, name: string, id: NodeId)
    requires Consistent(nodes, parent, nextId, openFiles, chains, owner, freeMap, fat)
    requires p in nodes && nodes[p].Dir? && Lookup(nodes[p].children, name) == Some(id)
    requires nodes[id].Dir? && nodes[id].children == []
    ensures Consistent(Detach(nodes, p, name, id), parent, nextId, openFiles - {name}, chains, owner, freeMap, fat)
  {
    DetachShape(nodes, parent, nextId, p, name, id);
    DetachKeeps(nodes, parent, nextId, chains, fat, openFiles, p, name, id);
    assert chains - {id} == chains;
  }

  /** Removing file `id`, child `name` of directory `p`, together with its
      chain, whose blocks are now free, and dropping the handle called
      `name` keeps the whole file system consistent. */
  lemma DeleteFileConsistent(nodes: map<NodeId, Node>, parent: map<NodeId, NodeId>, nextId: nat,
                             openFiles: map<string, NodeId>, chains: map<NodeId, seq<nat>>, owner: map<nat, NodeId>,
                             freeMap: seq<bool>, fat: seq<int>, freeMap': seq<bool>, fat': seq<int>,
                             p: NodeId, name: string, id: NodeId)
    requires Consistent(nodes, parent, nextId, openFiles, chains, owner, freeMap, fat)
    requires p in nodes && nodes[p].Dir? && Lookup(nodes[p].children, name) == Some(id) && nodes[id].File?
    requires |freeMap'| == NUM_BLOCKS && |fat'| == NUM_BLOCKS
    requires forall j :: 0 <= j < |chains[id]| ==> freeMap'[chains[id][j]] && fat'[chains[id][j]] == FREE
    requires forall b :: 0 <= b < NUM_BLOCKS && b !in chains[id] ==> freeMap'[b] == freeMap[b] && fat'[b] == fat[b]
    ensures Consistent(Detach(nodes, p, name, id), parent, nextId, openFiles - {name},
                       chains - {id}, owner - (set b | b in chains[id]), freeMap', fat')
  {
    FreedMarks(freeMap, fat, freeMap', fat', chains[id]);
    OwnershipRelease(freeMap, freeMap', chains, owner, id);
    DetachShape(nodes, parent, nextId, p, name, id);
    DetachKeeps(nodes, parent, nextId, chains, fat, openFiles, p, name, id);
    FreedChainsKept(Detach(nodes, p, name, id), chains, owner, freeMap, fat, fat', id);
  }

  /** Moving entry `e`, child `sn` of directory `sp`, into directory `td`
      under the free name `tn`, and dropping the handle called `sn`, keeps
      the whole file system consistent: files keep their chains, and a
      handle on `e` is the one called `sn`. */
  lemma MoveConsistent(nodes: map<NodeId, Node>, parent: map<NodeId, NodeId>, nextId: nat,
                       openFiles: map<string, NodeId>, chains: map<NodeId, seq<nat>>, owner: map<nat, NodeId>,
                       freeMap: seq<bool>, fat: seq<int>, sp: NodeId, sn: string, e: NodeId, td: NodeId, tn: string)
    requires Consistent(nodes, parent, nextId, openFiles, chains, owner, freeMap, fat)
    requires sp in nodes && nodes[sp].Dir? && Lookup(nodes[sp].children, sn) == Some(e)
    requires td in nodes && nodes[td].Dir? && !HasName(nodes[td].children, tn)
    ensures Consistent(Relink(nodes, sp, sn, e, td, tn), parent[e := td], nextId, openFiles - {sn}, chains, owner, freeMap, fat)
  {
    var k := Find(nodes[sp].children, sn);
    assert nodes[sp].children[k] == Entry(sn, e) && nodes[e].name == sn;
    RelinkShape(nodes, parent, nextId, sp, sn, e, td, tn);
    RelinkFacts(nodes, sp, sn, e, td, tn);
  }

  /** Setting a file's first block to the one it already has changes nothing. */
  lemma SameFirstBlock(nodes: map<NodeId, Node>, id: NodeId, head: int)
    requires id in nodes && nodes[id].File? && nodes[id].firstBlock == head
    ensures nodes[id := nodes[id].(firstBlock := head)] == nodes
  {
    assert nodes[id].(firstBlock := head) == nodes[id];
  }

  /** Rewriting only the blocks of chain `id` leaves the bytes of every
      other chain as they were, since no block lies on two chains. */
  lemma OtherChainsKept(disk: seq<seq<byte>>, disk': seq<seq<byte>>, freeMap: seq<bool>,
                        chains: map<NodeId, seq<nat>>, owner: map<nat, NodeId>, id: NodeId)
    requires WellSized(disk) && WellSized(disk') && Ownership(freeMap, chains, owner) && id in chains
    requires forall b :: 0 <= b < NUM_BLOCKS && b !in chains[id] ==> disk'[b] == disk[b]
    ensures forall f :: f in chains ==> InRange(chains[f])
    ensures forall f :: f in chains && f != id ==> ChainBytes(disk', chains[f]) == ChainBytes(disk, chains[f])
  {
    forall f | f in chains && f != id
      ensures ChainBytes(disk', chains[f]) == ChainBytes(disk, chains[f])
    {
      forall j | 0 <= j < |chains[f]|
        ensures disk'[chains[f][j]] == disk[chains[f][j]]
      {
        var b := chains[f][j];
        if b in chains[id] {
          UsedBlockOnOneChain(freeMap, chains, owner, b, f, id);
        }
      }
      ChainBytesFrame(disk, disk', chains[f]);
    }
  }

  /** Replacing the value at a key twice is replacing it once. */
  lemma ConcatAssoc<T>(a: seq<T>, b: seq<T>, c: seq<T>)
    ensures (a + b) + c == a + (b + c)
  {
  }

  lemma ReplaceTwice<K, V>(m: map<K, V>, k: K, a: V, b: V)
    ensures m[k := a][k := b] == m[k := b]
  {
  }

  class FileSystem {
    /** The directory tree: `root` and every node below it, by id. */
    var nodes: map<NodeId, Node>
    /** The id the next created node gets. */
    var nextId: nat
    var currentPath: seq<string>
    /** `open_file_table`: file name to the file node it was opened on. */
    var openFiles: map<string, NodeId>

    const freeMap: array<bool>
    const fat: array<int>
    /** `_disk_mem`, block by block. */
    const disk: array<seq<byte>>

    /** The chain of every file, the file that owns every used block, and
        the directory that holds every node other than the root. */
    ghost var chains: map<NodeId, seq<nat>>
    ghost var owner: map<nat, NodeId>
    ghost var parent: map<NodeId, NodeId>

    /** The disk holds NUM_BLOCKS blocks of BLOCK_SIZE bytes. */
    ghost predicate DiskShape()
      reads this, disk
    {
      disk.Length == NUM_BLOCKS && forall b :: 0 <= b < NUM_BLOCKS ==> |disk[b]| == BLOCK_SIZE
    }

    ghost predicate Valid()
      reads this, freeMap, fat, disk
    {
      && freeMap.Length == NUM_BLOCKS && fat.Length == NUM_BLOCKS && DiskShape()
      && Consistent(nodes, parent, nextId, openFiles, chains, owner, freeMap[..], fat[..])
    }

    /** The bytes of file `id`: the first `size` bytes of its chain. */
    ghost function Content(id: NodeId): seq<byte>
      reads this, freeMap, fat, disk
      requires Valid() && id in chains
    {
      assert WellSized(disk[..]);
      ChainBytes(disk[..], chains[id])[..nodes[id].size]
    }

    /** What Valid() says about the file an open handle names. */
    lemma HandleFacts(k: string)
      requires Valid() && k in openFiles
      ensures var id := openFiles[k];
        && id in nodes && nodes[id].File? && nodes[id].name == k && id in chains
        && IsChain(fat[..], nodes[id].firstBlock, chains[id])
        && nodes[id].size <= BLOCK_SIZE * |chains[id]|
        && WellSized(disk[..])
    {
    }

    /** Installs a new tree, open-file table and block bookkeeping at once:
        the one place where the operations below assign those fields. */
    method Commit(nodes1: map<NodeId, Node>, ghost parent1: map<NodeId, NodeId>, nextId1: nat,
                  openFiles1: map<string, NodeId>, ghost chains1: map<NodeId, seq<nat>>, ghost owner1: map<nat, NodeId>)
      modifies this`nodes, this`parent, this`nextId, this`openFiles, this`chains, this`owner
      ensures nodes == nodes1 && parent == parent1 && nextId == nextId1 && openFiles == openFiles1
      ensures chains == chains1 && owner == owner1
    {
      nodes, parent, nextId, openFiles, chains, owner := nodes1, parent1, nextId1, openFiles1, chains1, owner1;
    }

    /** A fresh file system: an empty root, every block free, a zeroed disk. */
    constructor ()
      ensures Valid()
      ensures nodes == map[ROOT := Dir("/", [])] && nextId == 1 && currentPath == [] && openFiles == map[]
      ensures chains == map[]
      ensures forall b :: 0 <= b < NUM_BLOCKS ==> freeMap[b] && fat[b] == FREE
      ensures forall b :: 0 <= b < NUM_BLOCKS ==> disk[b] == Zeros(BLOCK_SIZE)
      ensures fresh(freeMap) && fresh(fat) && fresh(disk)
    {
      nodes := map[ROOT := Dir("/", [])];
      nextId := 1;
      currentPath := [];
      openFiles := map[];
      freeMap := new bool[NUM_BLOCKS](_ => true);
      fat := new int[NUM_BLOCKS](_ => FREE);
      disk := new seq<byte>[NUM_BLOCKS](_ => Zeros(BLOCK_SIZE));
      chains := map[];
      owner := map[];
      parent := map[];
    }

    // ---------- block + FAT helpers ----------

    /** One block of the disk. */
    function ReadBlock(b: nat): (r: seq<byte>)
      reads this, disk
      requires DiskShape() && b < NUM_BLOCKS
      ensures |r| == BLOCK_SIZE
    {
      disk[b]
    }

    /** Writing a block stores the data cut and zero-padded to one block,
        so reading it back gives Pad(data); no other block changes. */
    method WriteBlock(b: nat, data: seq<byte>)
      requires DiskShape() && b < NUM_BLOCKS
      modifies disk
      ensures DiskShape()
      ensures ReadBlock(b) == Pad(data)
      ensures forall b' :: 0 <= b' < NUM_BLOCKS && b' != b ==> disk[b'] == old(disk[b'])
    {
      var blockData := Pad(data);
      disk[b] := blockData;
    }

    /** Allocating `n` blocks takes the `n` lowest free blocks, marks them
        used and links them in ascending order, the last one ending the
        chain; with fewer than `n` free blocks nothing changes. */
    method AllocateBlocks(n: nat) returns (r: Option<seq<nat>>)
      requires freeMap.Length == NUM_BLOCKS && fat.Length == NUM_BLOCKS
      modifies freeMap, fat
      ensures |FreeIndices(old(freeMap[..]))| < n ==>
        r == None && freeMap[..] == old(freeMap[..]) && fat[..] == old(fat[..])
      ensures |FreeIndices(old(freeMap[..]))| >= n ==> r == Some(FreeIndices(old(freeMap[..]))[..n])
      ensures r.Some? ==>
        && (forall i :: 0 <= i < n ==> r.value[i] < NUM_BLOCKS && old(freeMap[..])[r.value[i]])
        && MarkedUsed(old(freeMap[..]), freeMap[..], r.value)
        && FatFrame(old(fat[..]), fat[..], [], r.value)
        && (forall i :: 0 <= i < n - 1 ==> fat[r.value[i]] == r.value[i + 1])
        && (n > 0 ==> fat[r.value[n - 1]] == END_OF_CHAIN)
    {
      var freeIndices := FreeIndices(freeMap[..]);
      if |freeIndices| < n {
        return None;
      }
      var taken := freeIndices[..n];
      FreePrefix(freeMap[..], n);
      MarkTaken(taken);
      LinkTaken(taken);
      return Some(taken);
    }

    /** The first loop of _allocate_blocks: each taken block is marked used
        and, for now, the end of a chain. */
    method MarkTaken(taken: seq<nat>)
      requires freeMap.Length == NUM_BLOCKS && fat.Length == NUM_BLOCKS
      requires forall i :: 0 <= i < |taken| ==> taken[i] < NUM_BLOCKS
      modifies freeMap, fat
      ensures forall b :: 0 <= b < NUM_BLOCKS ==> freeMap[b] == (old(freeMap[b]) && b !in taken)
      ensures forall b :: 0 <= b < NUM_BLOCKS ==> fat[b] == if b in taken then END_OF_CHAIN else old(fat[b])
    {
      for k := 0 to |taken|
        invariant forall b :: 0 <= b < NUM_BLOCKS ==> freeMap[b] == (old(freeMap[b]) && b !in taken[..k])
        invariant forall b :: 0 <= b < NUM_BLOCKS ==> fat[b] == if b in taken[..k] then END_OF_CHAIN else old(fat[b])
      {
        assert taken[..k + 1] == taken[..k] + [taken[k]];
        freeMap[taken[k]] := false;
        fat[taken[k]] := END_OF_CHAIN;
      }
      assert taken[..|taken|] == taken;
    }

    /** The second loop of _allocate_blocks: each taken block but the last
        is linked to the next one, so the blocks form one chain in order. */
    method LinkTaken(taken: seq<nat>)
      requires fat.Length == NUM_BLOCKS
      requires forall i :: 0 <= i < |taken| ==> taken[i] < NUM_BLOCKS
      requires forall i, j :: 0 <= i < j < |taken| ==> taken[i] < taken[j]
      requires forall j :: 0 <= j < |taken| ==> fat[taken[j]] == END_OF_CHAIN
      modifies fat
      ensures forall b :: 0 <= b < NUM_BLOCKS && b !in taken ==> fat[b] == old(fat[b])
      ensures forall i :: 0 <= i < |taken| - 1 ==> fat[taken[i]] == taken[i + 1]
      ensures |taken| > 0 ==> fat[taken[|taken| - 1]] == END_OF_CHAIN
    {
      if |taken| > 0 {
        for i := 0 to |taken| - 1
          invariant forall b :: 0 <= b < NUM_BLOCKS && b !in taken ==> fat[b] == old(fat[b])
          invariant forall j :: 0 <= j < i ==> fat[taken[j]] == taken[j + 1]
          invariant forall j :: i <= j < |taken| ==> fat[taken[j]] == END_OF_CHAIN
        {
          fat[taken[i]] := taken[i + 1];
        }
      }
    }

    /** Following the FAT from `first` gives the chain that starts there. */
    method GetBlockChain(first: int, ghost c: seq<nat>) returns (chain: seq<nat>)
      requires fat.Length == NUM_BLOCKS && IsChain(fat[..], first, c)
      ensures chain == c
    {
      chain := [];
      var b := first;
      ghost var i := 0;
      while b != END_OF_CHAIN && b != FREE
        invariant 0 <= i <= |c| && chain == c[..i]
        invariant b == if i < |c| then c[i] else END_OF_CHAIN
        decreases |c| - i
      {
        assert c[..i + 1] == c[..i] + [c[i]];
        chain := chain + [b];
        b := fat[b];
        i := i + 1;
      }
      assert c[..i] == c;
    }

    /** Extending the chain `c` that starts at `first` by `n` blocks: the
        `n` lowest free blocks are taken and linked after the last block
        of `c`, and the (possibly new) head is returned. Nothing changes
        when `n` is 0 or fewer than `n` blocks are free. */
    method ExtendChain(first: int, n: nat, ghost c: seq<nat>) returns (r: Option<int>)
      requires FreeMarks(freeMap[..], fat[..]) && IsChain(fat[..], first, c)
      modifies freeMap, fat
      ensures n == 0 || |FreeIndices(old(freeMap[..]))| < n ==>
        r == None && freeMap[..] == old(freeMap[..]) && fat[..] == old(fat[..])
      ensures n > 0 && |FreeIndices(old(freeMap[..]))| >= n ==>
        var nb := FreeIndices(old(freeMap[..]))[..n];
        && r == Some(if first == END_OF_CHAIN then nb[0] else first)
        && Extended(old(freeMap[..]), old(fat[..]), freeMap[..], fat[..], r.value, c, nb)
    {
      ghost var fat0 := fat[..];
      ghost var freeMap0 := freeMap[..];
      var newBlocks := AllocateBlocks(n);
      if newBlocks.None? || newBlocks.value == [] {
        return None;
      }
      var nb := newBlocks.value;
      ghost var fat1 := fat[..];
      AllocationKeepsChain(freeMap0, fat0, fat1, first, c, nb);
      if first == END_OF_CHAIN {
        ExtendLinks(fat0, fat1, fat[..], first, c, nb);
        return Some(nb[0]);
      }
      var curr := LastBlock(first, c);
      fat[curr] := nb[0];
      ExtendLinks(fat0, fat1, fat[..], first, c, nb);
      return Some(first);
    }

    /** The walk of _extend_chain along the FAT to the last block of the
        non-empty chain `c` that starts at `first`. */
    method LastBlock(first: int, ghost c: seq<nat>) returns (curr: int)
      requires fat.Length == NUM_BLOCKS && IsChain(fat[..], first, c) && c != []
      ensures curr == c[|c| - 1]
    {
      curr := first;
      ghost var i := 0;
      while fat[curr] != END_OF_CHAIN
        invariant 0 <= i < |c| && curr == c[i]
        invariant fat[curr] == if i < |c| - 1 then c[i + 1] else END_OF_CHAIN
        decreases |c| - i
      {
        curr := fat[curr];
        i := i + 1;
      }
    }

    /** Freeing the chain `c` that starts at `first`: each of its blocks is
        marked free in the free map and the FAT and is zeroed on the disk;
        no other block changes. */
    method FreeChain(first: int, ghost c: seq<nat>)
      requires freeMap.Length == NUM_BLOCKS && DiskShape()
      requires IsChain(fat[..], first, c)
      modifies freeMap, fat, disk
      ensures DiskShape()
      ensures forall j :: 0 <= j < |c| ==> freeMap[c[j]] && fat[c[j]] == FREE && disk[c[j]] == Zeros(BLOCK_SIZE)
      ensures forall b :: 0 <= b < NUM_BLOCKS && b !in c ==>
        freeMap[b] == old(freeMap[b]) && fat[b] == old(fat[b]) && disk[b] == old(disk[b])
    {
      ghost var freeMap0, fat0, disk0 := freeMap[..], fat[..], disk[..];
      ChainIsAcyclic(fat0, first, c);
      PadEmpty();
      var b := first;
      ghost var i := 0;
      while b != END_OF_CHAIN
        invariant 0 <= i <= |c| && DiskShape()
        invariant b == if i < |c| then c[i] else END_OF_CHAIN
        invariant forall j :: 0 <= j < i ==> freeMap[c[j]] && fat[c[j]] == FREE && disk[c[j]] == Zeros(BLOCK_SIZE)
        invariant forall x :: 0 <= x < NUM_BLOCKS && x !in c[..i] ==>
          freeMap[x] == freeMap0[x] && fat[x] == fat0[x] && disk[x] == disk0[x]
        decreases |c| - i
      {
        assert forall j :: 0 <= j < i ==> c[j] != c[i];
        assert c[..i + 1] == c[..i] + [b];
        var nxt := fat[b];
        freeMap[b] := true;
        fat[b] := FREE;
        WriteBlock(b, []);
        b := nxt;
        i := i + 1;
      }
      assert c[..i] == c;
    }
  
    // ---------- path helpers ----------

    /** _get_current_dir_node: walk `current_path` down from the root;
        None when a name is missing or a file is met on the way (KeyError). */
    method CurrentDirNode() returns (r: Option<NodeId>)
      requires Valid()
      ensures r == Walk(nodes, ROOT, currentPath)
    {
      var node := ROOT;
      for k := 0 to |currentPath|
        invariant node in nodes
        invariant Walk(nodes, ROOT, currentPath) == Walk(nodes, node, currentPath[k..])
      {
        DropFront(currentPath, k);
        if nodes[node].File? {
          return None;
        }
        var child := Lookup(nodes[node].children, currentPath[k]);
        if child.None? {
          return None;
        }
        node := child.value;
      }
      return Some(node);
    }

    /** The directory that mkdir, create_file, open_file, ls and delete_file
        work in; None when they raise. */
    method WorkingDirNode() returns (r: Option<NodeId>)
      requires Valid()
      ensures r == WorkingDir(nodes, currentPath)
    {
      var node := CurrentDirNode();
      if node.None? || nodes[node.value].File? {
        return None;
      }
      return node;
    }

    /** _resolve_path: the directory a path's last name lives in and that
        name, from the root for an absolute path and from the current
        directory otherwise, or one of its sentinels. */
    method ResolvePath(path: string) returns (r: Resolved)
      requires Valid()
      ensures r == Resolution(nodes, currentPath, path)
    {
      var parts := PathParts(path);
      var node := ROOT;
      if |path| > 0 && path[0] == SEP {
        if parts == [] {
          return AtRoot;
        }
      } else {
        var cwd := CurrentDirNode();
        if cwd.None? {
          return Crashed;
        }
        node := cwd.value;
        if path == "" || path == "." {
          return AtCurrent;
        }
      }
      var step := DescendFrom(node, parts[..|parts| - 1]);
      match step {
        case Fault => return Crashed;
        case Miss => return Unresolved;
        case Into(d) => return Located(d, parts[|parts| - 1]);
      }
    }

    /** The loop of _resolve_path over all names but the last: move into
        each named subdirectory; stop at a missing name or a file, and
        raise when the starting node is a file. */
    method DescendFrom(start: NodeId, front: seq<string>) returns (r: Step)
      requires Valid() && start in nodes
      ensures r == Descend(nodes, start, front)
    {
      var node := start;
      for i := 0 to |front|
        invariant node in nodes
        invariant Descend(nodes, start, front) == Descend(nodes, node, front[i..])
      {
        DropFront(front, i);
        if nodes[node].File? {
          return Fault;
        }
        var child := Lookup(nodes[node].children, front[i]);
        if child.None? || nodes[child.value].File? {
          return Miss;
        }
        node := child.value;
      }
      return Into(node);
    }

    // ---------- user operations ----------

    /** mkdir: a new empty directory in the current directory, unless the
        name is taken there. */
    method Mkdir(dirname: string) returns (st: Status)
      requires Valid()
      modifies this`nodes, this`parent, this`nextId, this`openFiles, this`chains, this`owner
      ensures Valid()
      ensures st != Ok ==> unchanged(this)
      ensures WorkingDir(old(nodes), old(currentPath)).None? ==> st == Crash
      ensures WorkingDir(old(nodes), old(currentPath)).Some? ==>
        var p := WorkingDir(old(nodes), old(currentPath)).value;
        && (HasName(old(nodes)[p].children, dirname) ==> st == AlreadyExists)
        && (!HasName(old(nodes)[p].children, dirname) ==>
          && st == Ok
          && nodes == AddChild(old(nodes), p, old(nextId), Dir(dirname, []))
          && nextId == old(nextId) + 1
          && currentPath == old(currentPath) && openFiles == old(openFiles) && chains == old(chains))
    {
      var cwd := WorkingDirNode();
      if cwd.None? {
        return Crash;
      }
      var p := cwd.value;
      if HasName(nodes[p].children, dirname) {
        return AlreadyExists;
      }
      var node := Dir(dirname, []);
      AddNodeConsistent(nodes, parent, nextId, openFiles, chains, owner, freeMap[..], fat[..], p, node);
      Commit(AddChild(nodes, p, nextId, node), parent[nextId := p], nextId + 1, openFiles, chains, owner);
      return Ok;
    }

    /** create_file: a new empty file (size 0, no first block) in the current
        directory, unless the name is taken there. */
    method CreateFile(filename: string) returns (st: Status)
      requires Valid()
      modifies this`nodes, this`parent, this`nextId, this`openFiles, this`chains, this`owner
      ensures Valid()
      ensures st != Ok ==> unchanged(this)
      ensures WorkingDir(old(nodes), old(currentPath)).None? ==> st == Crash
      ensures WorkingDir(old(nodes), old(currentPath)).Some? ==>
        var p := WorkingDir(old(nodes), old(currentPath)).value;
        && (HasName(old(nodes)[p].children, filename) ==> st == AlreadyExists)
        && (!HasName(old(nodes)[p].children, filename) ==>
          && st == Ok
          && nodes == AddChild(old(nodes), p, old(nextId), File(filename, 0, END_OF_CHAIN))
          && nextId == old(nextId) + 1
          && currentPath == old(currentPath) && openFiles == old(openFiles)
          && chains == old(chains)[old(nextId) := []])
    {
      var cwd := WorkingDirNode();
      if cwd.None? {
        return Crash;
      }
      var p := cwd.value;
      if HasName(nodes[p].children, filename) {
        return AlreadyExists;
      }
      var node := File(filename, 0, END_OF_CHAIN);
      AddNodeConsistent(nodes, parent, nextId, openFiles, chains, owner, freeMap[..], fat[..], p, node);
      ghost var chains1: map<NodeId, seq<nat>> := chains[nextId := []];
      Commit(AddChild(nodes, p, nextId, node), parent[nextId := p], nextId + 1, openFiles, chains1, owner);
      return Ok;
    }

    /** cd: "..", "/" or a subdirectory of the current directory. Only the
        current path changes, and a current path that led to a directory
        still does after a successful cd. */
    method Cd(dirname: string) returns (st: Status)
      requires Valid()
      modifies this
      ensures Valid()
      ensures nodes == old(nodes) && nextId == old(nextId) && openFiles == old(openFiles)
      ensures chains == old(chains) && owner == old(owner) && parent == old(parent)
      ensures dirname == ".." ==>
        st == Ok && currentPath == if old(currentPath) == [] then [] else old(currentPath)[..|old(currentPath)| - 1]
      ensures dirname == "/" ==> st == Ok && currentPath == []
      ensures dirname != ".." && dirname != "/" ==>
        match WorkingDir(nodes, old(currentPath))
        case None => st == Crash && currentPath == old(currentPath)
        case Some(p) =>
          match Lookup(nodes[p].children, dirname)
          case None => st == NotFound && currentPath == old(currentPath)
          case Some(c) =>
            if nodes[c].Dir? then st == Ok && currentPath == old(currentPath) + [dirname] && WorkingDir(nodes, currentPath) == Some(c)
            else st == NotADirectory && currentPath == old(currentPath)
      ensures st == Ok && WorkingDir(nodes, old(currentPath)).Some? ==> WorkingDir(nodes, currentPath).Some?
    {
      if dirname == ".." {
        if currentPath != [] {
          ghost var walked := Walk(nodes, ROOT, currentPath).Some?;
          if walked {
            WalkPrefix(nodes, ROOT, currentPath);
          }
          currentPath := currentPath[..|currentPath| - 1];
        }
        return Ok;
      }
      if dirname == "/" {
        currentPath := [];
        return Ok;
      }
      var cwd := WorkingDirNode();
      if cwd.None? {
        return Crash;
      }
      var p := cwd.value;
      var entry := Lookup(nodes[p].children, dirname);
      if entry.None? {
        return NotFound;
      }
      if nodes[entry.value].Dir? {
        WalkAppend(nodes, ROOT, currentPath, dirname);
        currentPath := currentPath + [dirname];
        return Ok;
      }
      return NotADirectory;
    }

    /** ls: one line per entry of the current directory, in insertion order,
        saying whether it is a directory and, for a file, its size. */
    method Ls() returns (st: Status, listing: seq<Listing>)
      requires Valid()
      ensures WorkingDir(nodes, currentPath).None? ==> st == Crash && listing == []
      ensures WorkingDir(nodes, currentPath).Some? ==>
        var cs := nodes[WorkingDir(nodes, currentPath).value].children;
        && st == Ok && |listing| == |cs|
        && forall i :: 0 <= i < |cs| ==>
             && listing[i].name == cs[i].name
             && (listing[i].DirListing? <==> nodes[cs[i].id].Dir?)
             && (listing[i].FileListing? ==> listing[i].size == nodes[cs[i].id].size)
    {
      var cwd := WorkingDirNode();
      if cwd.None? {
        return Crash, [];
      }
      var cs := nodes[cwd.value].children;
      listing := [];
      for i := 0 to |cs|
        invariant |listing| == i
        invariant forall j :: 0 <= j < i ==>
          && listing[j].name == cs[j].name
          && (listing[j].DirListing? <==> nodes[cs[j].id].Dir?)
          && (listing[j].FileListing? ==> listing[j].size == nodes[cs[j].id].size)
      {
        var e := cs[i];
        match nodes[e.id]
        case Dir(_, _) =>
          listing := listing + [DirListing(e.name)];
        case File(_, size, _) =>
          listing := listing + [FileListing(e.name, size)];
      }
      return Ok, listing;
    }

    /** open_file: a file of the current directory enters the open-file
        table under its name; a missing name, a directory or a name already
        in the table is refused. */
    method OpenFile(filename: string) returns (st: Status)
      requires Valid()
      modifies this
      ensures Valid()
      ensures nodes == old(nodes) && nextId == old(nextId) && currentPath == old(currentPath)
      ensures chains == old(chains) && owner == old(owner) && parent == old(parent)
      ensures st != Ok ==> openFiles == old(openFiles)
      ensures
        match WorkingDir(nodes, currentPath)
        case None => st == Crash
        case Some(p) =>
          match Lookup(nodes[p].children, filename)
          case None => st == NotFound
          case Some(id) =>
            if nodes[id].Dir? then st == IsADirectory
            else if filename in old(openFiles) then st == AlreadyOpen
            else st == Ok && openFiles == old(openFiles)[filename := id]
    {
      var cwd := WorkingDirNode();
      if cwd.None? {
        return Crash;
      }
      var entry := Lookup(nodes[cwd.value].children, filename);
      if entry.None? {
        return NotFound;
      }
      if nodes[entry.value].Dir? {
        return IsADirectory;
      }
      if filename in openFiles {
        return AlreadyOpen;
      }
      openFiles := openFiles[filename := entry.value];
      return Ok;
    }

    /** close_file: the name leaves the open-file table, if it is there. */
    method CloseFile(filename: string) returns (st: Status)
      requires Valid()
      modifies this
      ensures Valid()
      ensures nodes == old(nodes) && nextId == old(nextId) && currentPath == old(currentPath)
      ensures chains == old(chains) && owner == old(owner) && parent == old(parent)
      ensures filename in old(openFiles) ==> st == Ok && openFiles == old(openFiles) - {filename}
      ensures filename !in old(openFiles) ==> st == NotOpen && openFiles == old(openFiles)
    {
      if filename in openFiles {
        openFiles := openFiles - {filename};
        return Ok;
      }
      return NotOpen;
    }
  

    /** read_file: the bytes of an open file, from its first block up to its
        size; an unknown name is refused. */
    method ReadFile(filename: string) returns (st: Status, out: seq<byte>)
      requires Valid()
      ensures filename !in openFiles ==> st == NotOpen && out == []
      ensures filename in openFiles ==> openFiles[filename] in chains && st == Ok && out == Content(openFiles[filename])
    {
      if filename !in openFiles {
        return NotOpen, [];
      }
      HandleFacts(filename);
      var id := openFiles[filename];
      var entry := nodes[id];
      ghost var c := chains[id];
      if entry.firstBlock == END_OF_CHAIN || entry.size == 0 {
        return Ok, [];
      }
      var chain := GetBlockChain(entry.firstBlock, c);
      out := ReadChain(chain, entry.size);
      return Ok, out;
    }

    /** The loop of read_file: the first `size` bytes of the blocks of
        `chain`, taken block by block. */
    method ReadChain(chain: seq<nat>, size: nat) returns (out: seq<byte>)
      requires DiskShape() && InRange(chain) && size <= BLOCK_SIZE * |chain|
      ensures WellSized(disk[..]) && out == ChainBytes(disk[..], chain)[..size]
    {
      ghost var d := disk[..];
      assert WellSized(d);
      var toRead: int := size;
      out := [];
      for k := 0 to |chain|
        invariant toRead == size - Min(k * BLOCK_SIZE, size)
        invariant out == ChainBytes(d, chain)[..Min(k * BLOCK_SIZE, size)]
      {
        if toRead <= 0 {
          break;
        }
        var chunk := ReadBlock(chain[k]);
        var take := Min(BLOCK_SIZE, toRead);
        ChainBytesBlock(d, chain, k);
        PrefixExtend(ChainBytes(d, chain), k * BLOCK_SIZE, chunk, take);
        out := out + chunk[..take];
        toRead := toRead - take;
      }
    }

    /** The loop of write_file over the chain: block `j` receives the j-th
        block-sized slice of the data, zero-padded, and blocks past the end
        of the data are zeroed; no other block changes. */
    method WriteChain(chain: seq<nat>, data: seq<byte>)
      requires DiskShape() && InRange(chain) && Distinct(chain)
      modifies disk
      ensures DiskShape()
      ensures forall j :: 0 <= j < |chain| ==>
        disk[chain[j]] == Pad(data[Min(j * BLOCK_SIZE, |data|) .. Min(j * BLOCK_SIZE + BLOCK_SIZE, |data|)])
      ensures forall b :: 0 <= b < NUM_BLOCKS && b !in chain ==> disk[b] == old(disk[b])
    {
      var offset := 0;
      var remaining := |data|;
      for k := 0 to |chain|
        invariant DiskShape()
        invariant offset == Min(k * BLOCK_SIZE, |data|) && remaining == |data| - offset
        invariant forall j :: 0 <= j < k ==>
          disk[chain[j]] == Pad(data[Min(j * BLOCK_SIZE, |data|) .. Min(j * BLOCK_SIZE + BLOCK_SIZE, |data|)])
        invariant forall b :: 0 <= b < NUM_BLOCKS && b !in chain[..k] ==> disk[b] == old(disk[b])
      {
        assert forall j :: 0 <= j < k ==> chain[j] != chain[k];
        assert chain[..k + 1] == chain[..k] + [chain[k]];
        if remaining <= 0 {
          WriteBlock(chain[k], []);
        } else {
          var chunk := data[offset .. Min(offset + BLOCK_SIZE, |data|)];
          WriteBlock(chain[k], chunk);
          offset := offset + |chunk|;
          remaining := remaining - |chunk|;
        }
      }
      assert chain[..|chain|] == chain;
    }

    /** The growth step of write_file: the chain of file `id` is extended by
        `needed` blocks (the lowest free ones), and a file that had no block
        gets the first of them as its first block. With fewer free blocks
        nothing changes. */
    method GrowFile(id: NodeId, needed: nat) returns (ok: bool)
      requires Valid() && id in chains && needed > 0
      modifies this`nodes, this`parent, this`nextId, this`openFiles, this`chains, this`owner, freeMap, fat
      ensures Valid()
      ensures openFiles == old(openFiles) && nextId == old(nextId) && parent == old(parent)
      ensures |FreeIndices(old(freeMap[..]))| < needed ==>
        !ok && unchanged(this) && freeMap[..] == old(freeMap[..]) && fat[..] == old(fat[..])
      ensures |FreeIndices(old(freeMap[..]))| >= needed ==>
        var nb := FreeIndices(old(freeMap[..]))[..needed];
        && ok
        && chains == old(chains)[id := old(chains)[id] + nb]
        && nodes == (if old(nodes)[id].firstBlock == END_OF_CHAIN then old(nodes)[id := old(nodes)[id].(firstBlock := chains[id][0])] else old(nodes))
        && Extended(old(freeMap[..]), old(fat[..]), freeMap[..], fat[..], chains[id][0], old(chains)[id], nb)
      ensures forall f :: f in chains && f != id ==> Content(f) == old(Content(f))
    {
      ok := GrowChain(id, needed);
    }

    /** GrowFile without its content frame. */
    method GrowChain(id: NodeId, needed: nat) returns (ok: bool)
      requires Valid() && id in chains && needed > 0
      modifies this`nodes, this`parent, this`nextId, this`openFiles, this`chains, this`owner, freeMap, fat
      ensures Valid()
      ensures openFiles == old(openFiles) && nextId == old(nextId) && parent == old(parent)
      ensures |FreeIndices(old(freeMap[..]))| < needed ==>
        !ok && unchanged(this) && freeMap[..] == old(freeMap[..]) && fat[..] == old(fat[..])
      ensures |FreeIndices(old(freeMap[..]))| >= needed ==>
        var nb := FreeIndices(old(freeMap[..]))[..needed];
        && ok
        && chains == old(chains)[id := old(chains)[id] + nb]
        && nodes == (if old(nodes)[id].firstBlock == END_OF_CHAIN then old(nodes)[id := old(nodes)[id].(firstBlock := chains[id][0])] else old(nodes))
        && Extended(old(freeMap[..]), old(fat[..]), freeMap[..], fat[..], chains[id][0], old(chains)[id], nb)
    {
      var entry := nodes[id];
      ghost var freeMap0: seq<bool>, fat0: seq<int> := freeMap[..], fat[..];
      assert entry.File? && IsChain(fat0, entry.firstBlock, chains[id]) && FreeMarks(freeMap0, fat0);
      var first := entry.firstBlock;
      var newStart := ExtendChain(first, needed, chains[id]);
      if newStart.None? {
        return false;
      }
      ghost var nb: seq<nat> := FreeIndices(freeMap0)[..needed];
      RecordGrowth(id, newStart.value, freeMap0, fat0, nb);
      return true;
    }

    /** The bookkeeping half of growing file `id` by the blocks `nb` once the
        FAT and the free map hold them: the chain and the owner record take
        the new blocks, and a file that had no blocks gets `head` as its
        first block. */
    method RecordGrowth(id: NodeId, head: int, ghost freeMap0: seq<bool>, ghost fat0: seq<int>, ghost nb: seq<nat>)
      requires freeMap.Length == NUM_BLOCKS && fat.Length == NUM_BLOCKS && DiskShape()
      requires Consistent(nodes, parent, nextId, openFiles, chains, owner, freeMap0, fat0) && id in chains
      requires Extended(freeMap0, fat0, freeMap[..], fat[..], head, chains[id], nb)
      requires nodes[id].firstBlock != END_OF_CHAIN ==> head == nodes[id].firstBlock
      modifies this`nodes, this`parent, this`nextId, this`openFiles, this`chains, this`owner
      ensures Valid()
      ensures openFiles == old(openFiles) && nextId == old(nextId) && parent == old(parent)
      ensures chains == old(chains)[id := old(chains)[id] + nb]
      ensures nodes == if old(nodes)[id].firstBlock == END_OF_CHAIN then old(nodes)[id := old(nodes)[id].(firstBlock := head)] else old(nodes)
    {
      GrowConsistent(nodes, parent, nextId, openFiles, chains, owner, freeMap0, fat0, freeMap[..], fat[..], id, head, nb);
      ghost var grown: map<NodeId, seq<nat>> := chains;
      grown := grown[id := chains[id] + nb];
      var nodes1 := nodes;
      if nodes[id].firstBlock == END_OF_CHAIN {
        nodes1 := nodes[id := nodes[id].(firstBlock := head)];
      } else {
        SameFirstBlock(nodes, id, head);
      }
      Commit(nodes1, parent, nextId, openFiles, grown, Claim(owner, nb, id));
    }

    /** The last step of write_file: file `id` records its new size. */
    method SetSize(id: NodeId, size: nat)
      requires Valid() && id in chains && size <= BLOCK_SIZE * |chains[id]|
      modifies this`nodes, this`parent, this`nextId, this`openFiles, this`chains, this`owner
      ensures Valid()
      ensures parent == old(parent) && nextId == old(nextId) && openFiles == old(openFiles)
      ensures chains == old(chains) && owner == old(owner)
      ensures nodes == old(nodes)[id := old(nodes)[id].(size := size)]
    {
      var entry := nodes[id];
      SetFileConsistent(nodes, parent, nextId, openFiles, chains, owner, freeMap[..], fat[..], id, entry.firstBlock, size);
      assert entry.(size := size, firstBlock := entry.firstBlock) == entry.(size := size);
      Commit(nodes[id := entry.(size := size)], parent, nextId, openFiles, chains, owner);
    }

    /** The data-writing half of write_file, once the chain of file `id`
        covers the data: the data is laid out over the chain block by block
        and the file's size becomes the data's length. The file's content
        becomes the data and every other file keeps its content. */
    method StoreData(id: NodeId, chain: seq<nat>, data: seq<byte>)
      requires Valid() && id in chains && chain == chains[id] && |data| <= BLOCK_SIZE * |chain|
      modifies this`nodes, this`parent, this`nextId, this`openFiles, this`chains, this`owner, disk
      ensures Valid()
      ensures parent == old(parent) && nextId == old(nextId) && openFiles == old(openFiles)
      ensures chains == old(chains) && owner == old(owner)
      ensures nodes == old(nodes)[id := old(nodes)[id].(size := |data|)]
      ensures Content(id) == data && WellSized(disk[..]) && ChainBytes(disk[..], chain) == Padded(data, |chain|)
      ensures forall b :: 0 <= b < NUM_BLOCKS && b !in chain ==> disk[b] == old(disk[b])
      ensures forall f :: f in chains && f != id ==> Content(f) == old(Content(f))
    {
      LayOut(id, chain, data);
      SetSize(id, |data|);
    }

    /** The write loop of write_file on the disk alone: the chain of file
        `id` starts with the data, and every other block, hence every other
        file, is as it was. */
    method LayOut(id: NodeId, chain: seq<nat>, data: seq<byte>)
      requires Valid() && id in chains && chain == chains[id] && |data| <= BLOCK_SIZE * |chain|
      modifies disk
      ensures Valid() && WellSized(disk[..])
      ensures ChainBytes(disk[..], chain) == Padded(data, |chain|) && ChainBytes(disk[..], chain)[..|data|] == data
      ensures forall b :: 0 <= b < NUM_BLOCKS && b !in chain ==> disk[b] == old(disk[b])
      ensures forall f :: f in chains && f != id ==> Content(f) == old(Content(f))
    {
      var entry := nodes[id];
      assert entry.File? && IsChain(fat[..], entry.firstBlock, chain) && InRange(chain);
      ghost var disk0 := disk[..];
      ChainIsAcyclic(fat[..], entry.firstBlock, chain);
      WriteChain(chain, data);
      WrittenChain(disk[..], chain, data);
      OtherChainsKept(disk0, disk[..], freeMap[..], chains, owner, id);
    }

    /** mv: the checks of PlanMove, in the source's order; a move pops the
        entry from its directory, renames it and inserts it into the target
        directory, and drops the handle called by its old name. Files keep
        their chains, so every file keeps its content. */
    method Mv(src: string, dest: string) returns (st: Status)
      requires Valid()
      modifies this`nodes, this`parent, this`nextId, this`openFiles, this`chains, this`owner
      ensures Valid()
      ensures var plan := PlanMove(old(nodes), old(currentPath), src, dest);
        && (plan.Refused? ==> st == plan.status && unchanged(this))
        && (plan.Move? ==>
          && st == Ok
          && nodes == Relink(old(nodes), plan.srcDir, plan.srcName, plan.entry, plan.target, plan.targetName)
          && openFiles == old(openFiles) - {plan.srcName})
      ensures chains == old(chains) && nextId == old(nextId)
      ensures forall f :: f in chains ==> Content(f) == old(Content(f))
    {
      var s := ResolvePath(src);
      if s.Crashed? {
        return Crash;
      }
      if !s.Located? {
        return NotFound;
      }
      var sp, sn := s.dir, s.name;
      if nodes[sp].File? {
        return Crash;
      }
      var found := Lookup(nodes[sp].children, sn);
      if found.None? {
        return NotFound;
      }
      var e := found.value;
      var d := ChooseTarget(dest, sn);
      if d.Refused? {
        return d.status;
      }
      var td, tn := d.target, d.targetName;
      if nodes[td].File? {
        return Crash;
      }
      if HasName(nodes[td].children, tn) {
        return AlreadyExists;
      }
      Relocate(sp, sn, e, td, tn);
      return Ok;
    }

    /** The (target_dir, target_name) choice of mv for the entry called
        `srcName`: the root, the current directory, an existing directory
        (all keeping the name), or a new name in the destination's
        directory; an existing file or an unresolvable destination is
        refused. */
    method ChooseTarget(dest: string, srcName: string) returns (r: MovePlan)
      requires Valid()
      ensures r == Destination(nodes, currentPath, dest, srcName)
    {
      var d := ResolvePath(dest);
      match d {
        case AtRoot =>
          return Move(ROOT, "", ROOT, ROOT, srcName);
        case AtCurrent =>
          var cwd := CurrentDirNode();
          if cwd.None? {
            return Refused(Crash);
          }
          return Move(ROOT, "", ROOT, cwd.value, srcName);
        case Located(dp, dn) =>
          if nodes[dp].File? {
            return Refused(Crash);
          }
          var existing := Lookup(nodes[dp].children, dn);
          if existing.Some? {
            if nodes[existing.value].File? {
              return Refused(AlreadyExists);
            }
            return Move(ROOT, "", ROOT, existing.value, srcName);
          }
          return Move(ROOT, "", ROOT, dp, dn);
        case Crashed =>
          return Refused(Crash);
        case Unresolved =>
          return Refused(InvalidDestination);
      }
    }

    /** The updates of mv once its checks pass: entry `e`, child `sn` of
        directory `sp`, moves into directory `td` under the name `tn`, and
        the handle called `sn` is dropped. Every file keeps its content. */
    method Relocate(sp: NodeId, sn: string, e: NodeId, td: NodeId, tn: string)
      requires Valid()
      requires sp in nodes && nodes[sp].Dir? && Lookup(nodes[sp].children, sn) == Some(e)
      requires td in nodes && nodes[td].Dir? && !HasName(nodes[td].children, tn)
      modifies this`nodes, this`parent, this`nextId, this`openFiles, this`chains, this`owner
      ensures Valid()
      ensures nodes == Relink(old(nodes), sp, sn, e, td, tn) && openFiles == old(openFiles) - {sn}
      ensures chains == old(chains) && nextId == old(nextId)
      ensures forall f :: f in chains ==> Content(f) == old(Content(f))
    {
      MoveConsistent(nodes, parent, nextId, openFiles, chains, owner, freeMap[..], fat[..], sp, sn, e, td, tn);
      RelinkFacts(nodes, sp, sn, e, td, tn);
      ghost var parent1: map<NodeId, NodeId> := parent[e := td];
      Commit(Relink(nodes, sp, sn, e, td, tn), parent1, nextId, openFiles - {sn}, chains, owner);
    }

    /** search_files: every entry called `name` anywhere below the root,
        with its full path, in the order of the source's depth-first walk;
        each hit is an absolute path ending in "/" + name. */
    method SearchFiles(name: string) returns (matches: seq<Match>)
      requires Valid()
      ensures matches == SearchDir(nodes, ROOT, "/", name, nextId)
      ensures forall m :: m in matches ==> HitOk(m, name)
    {
      matches := Dfs(ROOT, "/", name, nextId, []);
      SearchDirHits(nodes, ROOT, "/", name, nextId);
    }

    /** The nested `dfs` of search_files: appends to `acc` the hits below
        node `n`, whose path is `pathSoFar`. */
    method Dfs(n: NodeId, pathSoFar: string, name: string, fuel: nat, acc: seq<Match>) returns (matches: seq<Match>)
      requires Closed(nodes) && n in nodes
      ensures matches == acc + SearchDir(nodes, n, pathSoFar, name, fuel)
      decreases fuel, 0
    {
      matches := acc;
      if fuel == 0 || nodes[n].File? {
        return;
      }
      matches := DfsChildren(nodes[n].children, pathSoFar, name, fuel - 1, acc);
    }

    /** The loop of `dfs` over the children `cs` of one directory. */
    method DfsChildren(cs: seq<Entry>, pathSoFar: string, name: string, fuel: nat, acc: seq<Match>) returns (matches: seq<Match>)
      requires Closed(nodes) && AllIn(nodes, cs)
      ensures matches == acc + SearchEntries(nodes, cs, pathSoFar, name, fuel)
      decreases fuel, 3
    {
      matches := acc;
      for k := 0 to |cs|
        invariant matches == acc + SearchEntries(nodes, cs[..k], pathSoFar, name, fuel)
      {
        matches := VisitNext(cs, k, pathSoFar, name, fuel, acc, matches);
      }
      assert cs[..|cs|] == cs;
    }

    /** The turn of that loop for child `k`: the hits of the first `k`
        children grow into those of the first `k + 1`. */
    method VisitNext(cs: seq<Entry>, k: nat, pathSoFar: string, name: string, fuel: nat, ghost acc: seq<Match>, sofar: seq<Match>) returns (matches: seq<Match>)
      requires Closed(nodes) && AllIn(nodes, cs) && k < |cs|
      requires sofar == acc + SearchEntries(nodes, cs[..k], pathSoFar, name, fuel)
      ensures matches == acc + SearchEntries(nodes, cs[..k + 1], pathSoFar, name, fuel)
      decreases fuel, 2
    {
      SearchEntriesStep(nodes, cs, pathSoFar, name, fuel, k);
      matches := VisitChild(cs[k], pathSoFar, name, fuel, sofar);
      ConcatAssoc(acc, SearchEntries(nodes, cs[..k], pathSoFar, name, fuel), Visit(nodes, cs[k], pathSoFar, name, fuel));
    }

    /** One turn of the loop in `dfs`: record the child `e` if it is called
        `name`, then search below it if it is a directory. */
    method VisitChild(e: Entry, pathSoFar: string, name: string, fuel: nat, acc: seq<Match>) returns (matches: seq<Match>)
      requires Closed(nodes) && e.id in nodes
      ensures matches == acc + Visit(nodes, e, pathSoFar, name, fuel)
      decreases fuel, 1
    {
      var childPath := ChildPath(pathSoFar, e.name);
      matches := acc;
      if e.name == name {
        matches := matches + [Match(childPath, nodes[e.id].Dir?)];
      }
      if nodes[e.id].Dir? {
        matches := Dfs(e.id, childPath, name, fuel, matches);
      }
    }

    /** delete_file: the entry `name` of the current directory goes away,
        a file together with its blocks, a directory only when it is empty,
        and so does the handle called `name`, whatever file it is on. A
        missing name or a non-empty directory changes nothing; every file
        that remains keeps its content. */
    method DeleteFile(name: string) returns (st: Status)
      requires Valid()
      modifies this`nodes, this`parent, this`nextId, this`openFiles, this`chains, this`owner, freeMap, fat, disk
      ensures Valid()
      ensures st != Ok ==>
        unchanged(this) && freeMap[..] == old(freeMap[..]) && fat[..] == old(fat[..]) && disk[..] == old(disk[..])
      ensures WorkingDir(old(nodes), old(currentPath)).None? ==> st == Crash
      ensures WorkingDir(old(nodes), old(currentPath)).Some? ==>
        var p := WorkingDir(old(nodes), old(currentPath)).value;
        && (!HasName(old(nodes)[p].children, name) ==> st == NotFound)
        && (HasName(old(nodes)[p].children, name) ==>
          var id := Lookup(old(nodes)[p].children, name).value;
          && (old(nodes)[id].Dir? && old(nodes)[id].children != [] ==> st == DirectoryNotEmpty)
          && (old(nodes)[id].File? || old(nodes)[id].children == [] ==>
            && st == Ok && nodes == Detach(old(nodes), p, name, id) && openFiles == old(openFiles) - {name}
            && chains == old(chains) - {id}
            && (old(nodes)[id].Dir? ==>
              freeMap[..] == old(freeMap[..]) && fat[..] == old(fat[..]) && disk[..] == old(disk[..]))
            && (old(nodes)[id].File? ==>
              && (forall j :: 0 <= j < |old(chains)[id]| ==>
                freeMap[old(chains)[id][j]] && fat[old(chains)[id][j]] == FREE && disk[old(chains)[id][j]] == Zeros(BLOCK_SIZE))
              && (forall b :: 0 <= b < NUM_BLOCKS && b !in old(chains)[id] ==>
                freeMap[b] == old(freeMap[b]) && fat[b] == old(fat[b])&& disk[b] == old(disk[b])))))
      ensures nextId == old(nextId) && parent == old(parent)
      ensures st == Ok ==> chains.Keys <= old(chains).Keys && forall f :: f in chains ==> Content(f) == old(Content(f))
    {
      var cwd := WorkingDirNode();
      if cwd.None? {
        return Crash;
      }
      var p := cwd.value;
      var found := Lookup(nodes[p].children, name);
      if found.None? {
        return NotFound;
      }
      var id := found.value;
      if nodes[id].Dir? {
        if nodes[id].children != [] {
          return DirectoryNotEmpty;
        }
        RemoveDir(p, name, id);
      } else {
        RemoveFile(p, name, id);
      }
      return Ok;
    }

    /** The removal step of delete_file for file `id`, child `name` of
        directory `p`: its blocks, if it has any, are freed and zeroed, its
        entry is popped and the handle called `name` is dropped. No other
        block changes, so every other file keeps its content. */
    method RemoveFile(p: NodeId, name: string, id: NodeId)
      requires Valid() && p in nodes && nodes[p].Dir? && Lookup(nodes[p].children, name) == Some(id) && nodes[id].File?
      modifies this`nodes, this`parent, this`nextId, this`openFiles, this`chains, this`owner, freeMap, fat, disk
      ensures Valid()
      ensures nodes == Detach(old(nodes), p, name, id) && openFiles == old(openFiles) - {name}
      ensures chains == old(chains) - {id} && nextId == old(nextId) && parent == old(parent)
      ensures forall j :: 0 <= j < |old(chains)[id]| ==>
        freeMap[old(chains)[id][j]] && fat[old(chains)[id][j]] == FREE && disk[old(chains)[id][j]] == Zeros(BLOCK_SIZE)
      ensures forall b :: 0 <= b < NUM_BLOCKS && b !in old(chains)[id] ==>
        freeMap[b] == old(freeMap[b]) && fat[b] == old(fat[b]) && disk[b] == old(disk[b])
      ensures forall f :: f in chains ==> Content(f) == old(Content(f))
    {
      ghost var freeMap0, fat0, disk0 := freeMap[..], fat[..], disk[..];
      ReleaseBlocks(id);
      OtherChainsKept(disk0, disk[..], freeMap0, chains, owner, id);
      Unlink(p, name, id, freeMap0, fat0);
    }

    /** The freeing half of delete_file for file `id` (_free_chain when the
        file has a first block): the blocks of its chain are marked free in
        the free map and the FAT and zeroed; no other block changes. */
    method ReleaseBlocks(id: NodeId)
      requires Valid() && id in chains
      modifies freeMap, fat, disk
      ensures DiskShape()
      ensures forall j :: 0 <= j < |chains[id]| ==>
        freeMap[chains[id][j]] && fat[chains[id][j]] == FREE && disk[chains[id][j]] == Zeros(BLOCK_SIZE)
      ensures forall b :: 0 <= b < NUM_BLOCKS && b !in chains[id] ==>
        freeMap[b] == old(freeMap[b]) && fat[b] == old(fat[b]) && disk[b] == old(disk[b])
    {
      var entry := nodes[id];
      assert IsChain(fat[..], entry.firstBlock, chains[id]);
      if entry.firstBlock != END_OF_CHAIN {
        FreeChain(entry.firstBlock, chains[id]);
      }
    }

    /** The bookkeeping half of delete_file for file `id`, child `name` of
        directory `p`, once its blocks are free: the entry is popped, the
        handle called `name` is dropped and the chain is forgotten. */
    method Unlink(p: NodeId, name: string, id: NodeId, ghost freeMap0: seq<bool>, ghost fat0: seq<int>)
      requires freeMap.Length == NUM_BLOCKS && fat.Length == NUM_BLOCKS && DiskShape()
      requires Consistent(nodes, parent, nextId, openFiles, chains, owner, freeMap0, fat0)
      requires p in nodes && nodes[p].Dir? && Lookup(nodes[p].children, name) == Some(id) && nodes[id].File?
      requires forall j :: 0 <= j < |chains[id]| ==> freeMap[chains[id][j]] && fat[chains[id][j]] == FREE
      requires forall b :: 0 <= b < NUM_BLOCKS && b !in chains[id] ==> freeMap[b] == freeMap0[b] && fat[b] == fat0[b]
      modifies this`nodes, this`parent, this`nextId, this`openFiles, this`chains, this`owner
      ensures Valid()
      ensures nodes == Detach(old(nodes), p, name, id) && openFiles == old(openFiles) - {name}
      ensures chains == old(chains) - {id} && nextId == old(nextId) && parent == old(parent)
    {
      DeleteFileConsistent(nodes, parent, nextId, openFiles, chains, owner, freeMap0, fat0, freeMap[..], fat[..], p, name, id);
      ghost var chains1: map<NodeId, seq<nat>> := chains - {id};
      ghost var owner1: map<nat, NodeId> := owner - (set b | b in chains[id]);
      Commit(Detach(nodes, p, name, id), parent, nextId, openFiles - {name}, chains1, owner1);
    }

    /** The removal step of delete_file for the empty directory `id`, child
        `name` of directory `p`: its entry is popped and the handle called
        `name` is dropped. */
    method RemoveDir(p: NodeId, name: string, id: NodeId)
      requires Valid() && p in nodes && nodes[p].Dir? && Lookup(nodes[p].children, name) == Some(id)
      requires nodes[id].Dir? && nodes[id].children == []
      modifies this`nodes, this`parent, this`nextId, this`openFiles, this`chains, this`owner
      ensures Valid()
      ensures nodes == Detach(old(nodes), p, name, id) && openFiles == old(openFiles) - {name}
      ensures chains == old(chains) && nextId == old(nextId) && parent == old(parent)
      ensures forall f :: f in chains ==> Content(f) == old(Content(f))
    {
      DeleteDirConsistent(nodes, parent, nextId, openFiles, chains, owner, freeMap[..], fat[..], p, name, id);
      Commit(Detach(nodes, p, name, id), parent, nextId, openFiles - {name}, chains, owner);
    }

    /** The first half of write_file: file `id` grows by the lowest free
        blocks to `blocksNeeded` blocks when its chain is shorter (it never
        shrinks); with too few free blocks nothing changes. Every other
        file keeps its content. */
    method EnsureBlocks(id: NodeId, blocksNeeded: nat) returns (ok: bool)
      requires Valid() && id in chains
      modifies this`nodes, this`parent, this`nextId, this`openFiles, this`chains, this`owner, freeMap, fat
      ensures Valid()
      ensures openFiles == old(openFiles) && nextId == old(nextId) && parent == old(parent)
      ensures var grow := blocksNeeded - |old(chains)[id]|;
        if grow > 0 && |FreeIndices(old(freeMap[..]))| < grow then
          !ok && unchanged(this) && freeMap[..] == old(freeMap[..]) && fat[..] == old(fat[..])
        else
          var nb := if grow > 0 then FreeIndices(old(freeMap[..]))[..grow] else [];
          && ok
          && (grow > 0 ==> chains == old(chains)[id := old(chains)[id] + nb])
          && (grow <= 0 ==> chains == old(chains))
          && |chains[id]| >= blocksNeeded
          && (grow > 0 && old(nodes)[id].firstBlock == END_OF_CHAIN ==>
                nodes == old(nodes)[id := old(nodes)[id].(firstBlock := chains[id][0])])
          && (grow <= 0 || old(nodes)[id].firstBlock != END_OF_CHAIN ==> nodes == old(nodes))
          && (forall f :: f in chains && f != id ==> Content(f) == old(Content(f)))
    {
      var entry := nodes[id];
      assert entry.File? && IsChain(fat[..], entry.firstBlock, chains[id]);
      ghost var chains0: map<NodeId, seq<nat>>, free0: seq<nat> := chains, FreeIndices(freeMap[..]);
      var currentChain := GetBlockChain(entry.firstBlock, chains[id]);
      assert FreeIndices(freeMap[..]) == free0;
      if blocksNeeded > |currentChain| {
        var needed := blocksNeeded - |currentChain|;
        ok := GrowFile(id, needed);
        assert ok ==> chains == chains0[id := chains0[id] + free0[..needed]];
      } else {
        ok := true;
      }
    }

    /** write_file: the data replaces the content of an open file. The chain
        grows by the lowest free blocks to the blocks the data needs (never
        shrinks), the data is laid out over it block by block, and the size
        becomes the data's length; every other file keeps its content. An
        unknown name, or too few free blocks, changes nothing. */
    method WriteFile(filename: string, data: seq<byte>) returns (st: Status)
      requires Valid()
      modifies this`nodes, this`parent, this`nextId, this`openFiles, this`chains, this`owner, freeMap, fat, disk
      ensures Valid()
      ensures openFiles == old(openFiles) && nextId == old(nextId) && parent == old(parent)
      ensures filename !in openFiles ==> st == NotOpen
      ensures st != Ok ==>
        unchanged(this) && freeMap[..] == old(freeMap[..]) && fat[..] == old(fat[..]) && disk[..] == old(disk[..])
      ensures filename in openFiles ==>
        var id := openFiles[filename];
        var grow := BlocksNeeded(|data|) - |old(chains)[id]|;
        if grow > 0 && |FreeIndices(old(freeMap[..]))| < grow then st == DiskFull
        else
          var nb := if grow > 0 then FreeIndices(old(freeMap[..]))[..grow] else [];
          && st == Ok
          && (grow > 0 ==> chains == old(chains)[id := old(chains)[id] + nb])
          && (grow <= 0 ==> chains == old(chains))
          && chains[id] != []
          && nodes == old(nodes)[id := File(filename, |data|, chains[id][0])]
          && Content(id) == data
          && WellSized(disk[..]) && ChainBytes(disk[..], chains[id]) == Padded(data, |chains[id]|)
          && (forall b :: 0 <= b < NUM_BLOCKS && b !in chains[id] ==> disk[b] == old(disk[b]))
          && (forall f :: f in chains && f != id ==> Content(f) == old(Content(f)))
    {
      if filename !in openFiles {
        return NotOpen;
      }
      HandleFacts(filename);
      var id := openFiles[filename];
      ghost var nodes0 := nodes;
      var ok := EnsureBlocks(id, BlocksNeeded(|data|));
      if !ok {
        return DiskFull;
      }
      FillFile(filename, id, data, nodes0);
      return Ok;
    }

    /** The rest of write_file once the chain of the open file `filename`,
        node `id`, covers the data: the data goes over the chain and the
        node becomes a file of |data| bytes that starts at the chain's first
        block. `nodes0` is the tree before the chain grew. */
    method FillFile(filename: string, id: NodeId, data: seq<byte>, ghost nodes0: map<NodeId, Node>)
      requires Valid() && filename in openFiles && openFiles[filename] == id && id in chains
      requires chains[id] != [] && |data| <= BLOCK_SIZE * |chains[id]| && id in nodes0 && nodes0[id].File?
      requires nodes0[id].firstBlock == END_OF_CHAIN ==> nodes == nodes0[id := nodes0[id].(firstBlock := chains[id][0])]
      requires nodes0[id].firstBlock != END_OF_CHAIN ==> nodes == nodes0
      modifies this`nodes, this`parent, this`nextId, this`openFiles, this`chains, this`owner, disk
      ensures Valid()
      ensures openFiles == old(openFiles) && nextId == old(nextId) && parent == old(parent) && chains == old(chains)
      ensures nodes == nodes0[id := File(filename, |data|, chains[id][0])]
      ensures Content(id) == data && WellSized(disk[..]) && ChainBytes(disk[..], chains[id]) == Padded(data, |chains[id]|)
      ensures forall b :: 0 <= b < NUM_BLOCKS && b !in chains[id] ==> disk[b] == old(disk[b])
      ensures forall f :: f in chains && f != id ==> Content(f) == old(Content(f))
    {
      HandleFacts(filename);
      var chain := GetBlockChain(nodes[id].firstBlock, chains[id]);
      StoreData(id, chain, data);
      if nodes0[id].firstBlock == END_OF_CHAIN {
        ReplaceTwice(nodes0, id, nodes0[id].(firstBlock := chain[0]), File(filename, |data|, chain[0]));
      }
    }
  }
}
