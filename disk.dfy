/**
 * The RAM disk of file_system.py: a flat byte buffer cut into fixed-size
 * blocks, a free map with one flag per block, and a file allocation table
 * (FAT) whose entry for a block is the index of the next block of the same
 * file, END_OF_CHAIN for the last block, or FREE for an unused block.
 *
 * Everything here is a pure function or lemma over the values held by the
 * arrays of the FileSystem class; the class itself is in file_system.dfy.
 */
module Disk {

  const BLOCK_SIZE: nat := 512
  const DISK_SIZE: nat := 1024 * 1024
  const NUM_BLOCKS: nat := DISK_SIZE / BLOCK_SIZE

  /** FAT markers: a free block, and the last block of a chain. */
  const FREE: int := -2
  const END_OF_CHAIN: int := -1

  newtype byte = x: int | 0 <= x < 256

  function Min(a: int, b: int): int
  {
    if a <= b then a else b
  }

  function Zeros(n: nat): (r: seq<byte>)
    ensures |r| == n
    ensures forall i :: 0 <= i < n ==> r[i] == 0
  {
    seq(n, _ => 0)
  }

  /** What a block holds after being written with `data`: the data cut to
      one block, then padded with zero bytes to exactly one block. */
  function Pad(data: seq<byte>): (r: seq<byte>)
    ensures |r| == BLOCK_SIZE
    ensures forall i :: 0 <= i < BLOCK_SIZE ==> r[i] == if i < |data| then data[i] else 0
  {
    var cut := if |data| <= BLOCK_SIZE then data else data[..BLOCK_SIZE];
    cut + Zeros(BLOCK_SIZE - |cut|)
  }

  /** Writing no data leaves a block of zero bytes. */
  lemma PadEmpty()
    ensures Pad([]) == Zeros(BLOCK_SIZE)
  {
  }

  /** A disk image as its NUM_BLOCKS blocks of BLOCK_SIZE bytes each:
      every read and write of the source touches one whole block at a
      block-aligned offset, so the flat buffer is seen only block-wise. */
  ghost predicate WellSized(disk: seq<seq<byte>>)
  {
    |disk| == NUM_BLOCKS && forall b :: 0 <= b < NUM_BLOCKS ==> |disk[b]| == BLOCK_SIZE
  }

  /** The number of blocks a write of `len` bytes needs: the ceiling of
      len / BLOCK_SIZE, but at least one block even for empty data. */
  function BlocksNeeded(len: nat): (r: nat)
    ensures r >= 1
    ensures len <= BLOCK_SIZE * r
    ensures r == 1 || BLOCK_SIZE * (r - 1) < len
  {
    var ceil := (len + BLOCK_SIZE - 1) / BLOCK_SIZE;
    if ceil == 0 then 1 else ceil
  }

  ghost predicate InRange(c: seq<nat>)
  {
    forall i :: 0 <= i < |c| ==> c[i] < NUM_BLOCKS
  }

  /** `c` is the chain of blocks that starts at `head` in `fat`: the FAT links
      each block of `c` to the next one and marks the last one END_OF_CHAIN;
      the empty chain has head END_OF_CHAIN. */
  ghost predicate IsChain(fat: seq<int>, head: int, c: seq<nat>)
  {
    && |fat| == NUM_BLOCKS
    && InRange(c)
    && (c == [] ==> head == END_OF_CHAIN)
    && (c != [] ==> head == c[0] && fat[c[|c| - 1]] == END_OF_CHAIN)
    && (forall i :: 0 <= i < |c| - 1 ==> fat[c[i]] == c[i + 1])
  }

  ghost predicate Distinct(c: seq<nat>)
  {
    forall i, j :: 0 <= i < j < |c| ==> c[i] != c[j]
  }

  /** A chain that ends in END_OF_CHAIN cannot visit a block twice: a repeated
      block would make every later block repeat too, up to the last one,
      whose FAT entry is END_OF_CHAIN and not a link. */
  lemma {:induction false} ChainIsAcyclic(fat: seq<int>, head: int, c: seq<nat>)
    requires IsChain(fat, head, c)
    ensures Distinct(c)
  {
    forall i, j | 0 <= i < j < |c|
      ensures c[i] != c[j]
    {
      NoRepeat(fat, head, c, i, j);
    }
  }

  lemma {:induction false} NoRepeat(fat: seq<int>, head: int, c: seq<nat>, i: nat, j: nat)
    requires IsChain(fat, head, c)
    requires i < j < |c|
    ensures c[i] != c[j]
    decreases |c| - j
  {
    if j < |c| - 1 {
      NoRepeat(fat, head, c, i + 1, j + 1);
      assert fat[c[i]] == c[i + 1] && fat[c[j]] == c[j + 1];
    } else {
      assert fat[c[i]] == c[i + 1] && fat[c[j]] == END_OF_CHAIN;
    }
  }

  /** Linking chain `c` to the fresh chain `nb` gives one chain. */
  lemma AppendChain(fat: seq<int>, head: int, c: seq<nat>, nb: seq<nat>)
    requires |fat| == NUM_BLOCKS && InRange(c) && InRange(nb) && nb != []
    requires c == [] ==> head == nb[0]
    requires c != [] ==> head == c[0] && fat[c[|c| - 1]] == nb[0]
    requires forall j :: 0 <= j < |c| - 1 ==> fat[c[j]] == c[j + 1]
    requires forall j :: 0 <= j < |nb| - 1 ==> fat[nb[j]] == nb[j + 1]
    requires fat[nb[|nb| - 1]] == END_OF_CHAIN
    ensures IsChain(fat, head, c + nb)
  {
    var cc := c + nb;
    forall i | 0 <= i < |cc| - 1
      ensures fat[cc[i]] == cc[i + 1]
    {
      if i >= |c| {
        assert cc[i] == nb[i - |c|] && cc[i + 1] == nb[i - |c| + 1];
      }
    }
  }

  /** The blocks of a chain are in use, so an allocation of free blocks
      neither takes one of them nor disturbs the chain. */
  lemma AllocationKeepsChain(freeMap: seq<bool>, fat: seq<int>, fat': seq<int>, head: int, c: seq<nat>, nb: seq<nat>)
    requires FreeMarks(freeMap, fat) && IsChain(fat, head, c)
    requires forall i :: 0 <= i < |nb| ==> nb[i] < |freeMap| && freeMap[nb[i]]
    requires FatFrame(fat, fat', [], nb)
    ensures forall j :: 0 <= j < |c| ==> c[j] !in nb
    ensures IsChain(fat', head, c)
  {
    forall j | 0 <= j < |c|
      ensures c[j] !in nb && fat'[c[j]] == fat[c[j]]
    {
      if j < |c| - 1 {
        assert fat[c[j]] == c[j + 1];
      }
    }
  }

  /** The last step of _extend_chain: once the fresh blocks `nb` are linked
      among themselves, pointing the tail of `c` at the first of them (or
      taking it as the head of an empty chain) yields the chain `c + nb`,
      and only blocks of `c` and `nb` differ from the FAT before allocation. */
  lemma ExtendLinks(fat0: seq<int>, fat1: seq<int>, fat2: seq<int>, head: int, c: seq<nat>, nb: seq<nat>)
    requires IsChain(fat0, head, c) && |fat1| == NUM_BLOCKS && nb != [] && InRange(nb)
    requires forall j :: 0 <= j < |c| ==> c[j] !in nb
    requires forall b :: 0 <= b < NUM_BLOCKS && b !in nb ==> fat1[b] == fat0[b]
    requires forall j :: 0 <= j < |nb| - 1 ==> fat1[nb[j]] == nb[j + 1]
    requires fat1[nb[|nb| - 1]] == END_OF_CHAIN
    requires c == [] ==> fat2 == fat1
    requires c != [] ==> fat2 == fat1[c[|c| - 1] := nb[0]]
    ensures IsChain(fat2, if c == [] then nb[0] else head, c + nb)
    ensures FatFrame(fat0, fat2, c, nb)
  {
    if c != [] {
      ChainIsAcyclic(fat0, head, c);
      forall j | 0 <= j < |c| - 1
        ensures fat2[c[j]] == c[j + 1]
      {
        assert c[j] != c[|c| - 1];
        assert fat1[c[j]] == fat0[c[j]];
      }
      assert c[|c| - 1] in c;
      forall j | 0 <= j < |nb|
        ensures fat2[nb[j]] == fat1[nb[j]]
      {
        assert nb[j] != c[|c| - 1];
      }
    }
    AppendChain(fat2, if c == [] then nb[0] else head, c, nb);
  }

  /** A chain is read only at its own blocks: a FAT that agrees there holds the same chain. */
  lemma ChainFrame(fat: seq<int>, fat': seq<int>, head: int, c: seq<nat>)
    requires IsChain(fat, head, c)
    requires |fat'| == NUM_BLOCKS
    requires forall i :: 0 <= i < |c| ==> fat'[c[i]] == fat[c[i]]
    ensures IsChain(fat', head, c)
  {
  }

  /** The indices of the free blocks (the list comprehension at the top of
      _allocate_blocks); FreeIndicesSorted says what they are. */
  function FreeIndices(freeMap: seq<bool>): (r: seq<nat>)
    ensures |r| <= |freeMap|
    decreases |freeMap|
  {
    if freeMap == [] then []
    else
      var last := |freeMap| - 1;
      FreeIndices(freeMap[..last]) + (if freeMap[last] then [last] else [])
  }

  /** `r` lists exactly the free blocks of `freeMap`, in ascending order. */
  ghost predicate FreeList(freeMap: seq<bool>, r: seq<nat>)
  {
    && (forall i :: 0 <= i < |r| ==> r[i] < |freeMap| && freeMap[r[i]])
    && (forall b :: 0 <= b < |freeMap| && freeMap[b] ==> b in r)
    && (forall i, j :: 0 <= i < j < |r| ==> r[i] < r[j])
  }

  lemma {:induction false} FreeIndicesSorted(freeMap: seq<bool>)
    ensures FreeList(freeMap, FreeIndices(freeMap))
    decreases |freeMap|
  {
    if freeMap != [] {
      var last := |freeMap| - 1;
      var init := freeMap[..last];
      FreeIndicesSorted(init);
      var r0 := FreeIndices(init);
      var r := FreeIndices(freeMap);
      assert r == r0 + (if freeMap[last] then [last] else []);
      forall b | 0 <= b < |freeMap| && freeMap[b]
        ensures b in r
      {
        if b < last {
          assert init[b];
        }
      }
    }
  }

  /** With every block free, every block is listed: a fresh disk can
      hand out all NUM_BLOCKS blocks. */
  lemma {:induction false} AllFree(freeMap: seq<bool>)
    requires forall b :: 0 <= b < |freeMap| ==> freeMap[b]
    ensures |FreeIndices(freeMap)| == |freeMap|
    decreases |freeMap|
  {
    if freeMap != [] {
      AllFree(freeMap[..|freeMap| - 1]);
    }
  }

  /** The first `n` free indices are free blocks, in ascending order. */
  lemma FreePrefix(freeMap: seq<bool>, n: nat)
    requires n <= |FreeIndices(freeMap)|
    ensures var t := FreeIndices(freeMap)[..n];
      && (forall i :: 0 <= i < n ==> t[i] < |freeMap| && freeMap[t[i]])
      && (forall i, j :: 0 <= i < j < n ==> t[i] < t[j])
  {
    FreeIndicesSorted(freeMap);
  }

  /** `freeMap'` is `freeMap` with the blocks of `nb` marked used. */
  ghost predicate MarkedUsed(freeMap: seq<bool>, freeMap': seq<bool>, nb: seq<nat>)
  {
    |freeMap'| == |freeMap| && forall b :: 0 <= b < |freeMap| ==> freeMap'[b] == (freeMap[b] && b !in nb)
  }

  /** `fat'` agrees with `fat` outside the blocks of `c` and `nb`. */
  ghost predicate FatFrame(fat: seq<int>, fat': seq<int>, c: seq<nat>, nb: seq<nat>)
  {
    |fat'| == |fat| && forall b :: 0 <= b < |fat| && b !in c && b !in nb ==> fat'[b] == fat[b]
  }

  /** The first `n` free indices are the `n` lowest free blocks: every free
      block that is not among them lies above all of them. */
  lemma LowestFree(freeMap: seq<bool>, n: nat, b: nat)
    requires n <= |FreeIndices(freeMap)|
    requires b < |freeMap| && freeMap[b] && b !in FreeIndices(freeMap)[..n]
    ensures forall i :: 0 <= i < n ==> FreeIndices(freeMap)[i] < b
  {
    FreeIndicesSorted(freeMap);
    var r := FreeIndices(freeMap);
    var k :| 0 <= k < |r| && r[k] == b;
    assert k >= n;
  }

  /** The bytes of a chain of blocks, block after block. */
  function ChainBytes(disk: seq<seq<byte>>, c: seq<nat>): (r: seq<byte>)
    requires WellSized(disk) && InRange(c)
    ensures |r| == BLOCK_SIZE * |c|
    decreases |c|
  {
    if c == [] then [] else ChainBytes(disk, c[..|c| - 1]) + disk[c[|c| - 1]]
  }

  /** Block `j` of a chain occupies bytes [j*BLOCK_SIZE, (j+1)*BLOCK_SIZE) of its bytes. */
  lemma {:induction false} ChainBytesBlock(disk: seq<seq<byte>>, c: seq<nat>, j: nat)
    requires WellSized(disk) && InRange(c) && j < |c|
    ensures ChainBytes(disk, c)[j * BLOCK_SIZE .. j * BLOCK_SIZE + BLOCK_SIZE] == disk[c[j]]
    decreases |c|
  {
    var init := c[..|c| - 1];
    assert ChainBytes(disk, c) == ChainBytes(disk, init) + disk[c[|c| - 1]];
    if j < |c| - 1 {
      ChainBytesBlock(disk, init, j);
      assert init[j] == c[j];
    }
  }

  /** Appending the first `take` bytes of the block found at `lo` extends a
      prefix of `s` by those bytes. */
  lemma PrefixExtend(s: seq<byte>, lo: nat, blk: seq<byte>, take: nat)
    requires lo + |blk| <= |s| && s[lo .. lo + |blk|] == blk && take <= |blk|
    ensures s[..lo] + blk[..take] == s[..lo + take]
  {
    assert blk[..take] == s[lo .. lo + take];
  }

  /** A byte sequence whose every block-sized slice is the matching block of
      the chain is the chain's bytes. */
  lemma {:induction false} ChainBytesOfBlocks(disk: seq<seq<byte>>, c: seq<nat>, p: seq<byte>)
    requires WellSized(disk) && InRange(c)
    requires |p| == BLOCK_SIZE * |c|
    requires forall j :: 0 <= j < |c| ==> disk[c[j]] == p[j * BLOCK_SIZE .. j * BLOCK_SIZE + BLOCK_SIZE]
    ensures ChainBytes(disk, c) == p
    decreases |c|
  {
    if c != [] {
      var k := |c| - 1;
      var init := c[..k];
      var front := p[..BLOCK_SIZE * k];
      forall j | 0 <= j < |init|
        ensures disk[init[j]] == front[j * BLOCK_SIZE .. j * BLOCK_SIZE + BLOCK_SIZE]
      {
        assert init[j] == c[j];
        assert front[j * BLOCK_SIZE .. j * BLOCK_SIZE + BLOCK_SIZE] == p[j * BLOCK_SIZE .. j * BLOCK_SIZE + BLOCK_SIZE];
      }
      ChainBytesOfBlocks(disk, init, front);
      assert p == front + p[k * BLOCK_SIZE .. k * BLOCK_SIZE + BLOCK_SIZE];
    }
  }

  /** The bytes of a chain depend only on the chain's own blocks. */
  lemma {:induction false} ChainBytesFrame(disk: seq<seq<byte>>, disk': seq<seq<byte>>, c: seq<nat>)
    requires WellSized(disk) && WellSized(disk') && InRange(c)
    requires forall j :: 0 <= j < |c| ==> disk'[c[j]] == disk[c[j]]
    ensures ChainBytes(disk', c) == ChainBytes(disk, c)
    decreases |c|
  {
    if c != [] {
      var init := c[..|c| - 1];
      forall j | 0 <= j < |init|
        ensures disk'[init[j]] == disk[init[j]]
      {
        assert init[j] == c[j];
      }
      ChainBytesFrame(disk, disk', init);
    }
  }

  /** Block `j` of data laid out over whole blocks and padded with zeros:
      the j-th slice of the data, padded as one block write pads it. */
  function Padded(data: seq<byte>, blocks: nat): (r: seq<byte>)
    requires |data| <= BLOCK_SIZE * blocks
    ensures |r| == BLOCK_SIZE * blocks
    ensures r[..|data|] == data
    ensures forall p :: 0 <= p < |r| ==> r[p] == if p < |data| then data[p] else 0
  {
    data + Zeros(BLOCK_SIZE * blocks - |data|)
  }

  /** Block `k` of the padded layout is what one block write of the k-th
      slice of the data (Python's clamped `data[k*512 : k*512+512]`) leaves. */
  lemma PadSlice(data: seq<byte>, blocks: nat, k: nat)
    requires |data| <= BLOCK_SIZE * blocks && k < blocks
    ensures Pad(data[Min(k * BLOCK_SIZE, |data|) .. Min(k * BLOCK_SIZE + BLOCK_SIZE, |data|)])
         == Padded(data, blocks)[k * BLOCK_SIZE .. k * BLOCK_SIZE + BLOCK_SIZE]
  {
    var lo := k * BLOCK_SIZE;
    var chunk := data[Min(lo, |data|) .. Min(lo + BLOCK_SIZE, |data|)];
    var padded := Padded(data, blocks);
    var slice := padded[lo .. lo + BLOCK_SIZE];
    forall i | 0 <= i < BLOCK_SIZE
      ensures Pad(chunk)[i] == slice[i]
    {
      assert slice[i] == padded[lo + i];
      if lo + i < |data| {
        assert i < |chunk| && chunk[i] == data[lo + i];
      } else {
        assert i >= |chunk|;
      }
    }
  }

  /** A chain whose block `j` holds the j-th block-sized slice of `data`,
      zero-padded, holds `data` followed by zeros: reading back its first
      |data| bytes gives the data. */
  lemma WrittenChain(disk: seq<seq<byte>>, c: seq<nat>, data: seq<byte>)
    requires WellSized(disk) && InRange(c) && |data| <= BLOCK_SIZE * |c|
    requires forall j :: 0 <= j < |c| ==>
      disk[c[j]] == Pad(data[Min(j * BLOCK_SIZE, |data|) .. Min(j * BLOCK_SIZE + BLOCK_SIZE, |data|)])
    ensures ChainBytes(disk, c) == Padded(data, |c|)
    ensures ChainBytes(disk, c)[..|data|] == data
  {
    var p := Padded(data, |c|);
    forall j | 0 <= j < |c|
      ensures disk[c[j]] == p[j * BLOCK_SIZE .. j * BLOCK_SIZE + BLOCK_SIZE]
    {
      PadSlice(data, |c|, j);
    }
    ChainBytesOfBlocks(disk, c, p);
  }

  /** The used/free bookkeeping: a block is free exactly when its FAT entry says FREE. */
  ghost predicate FreeMarks(freeMap: seq<bool>, fat: seq<int>)
  {
    && |freeMap| == NUM_BLOCKS && |fat| == NUM_BLOCKS
    && forall b :: 0 <= b < NUM_BLOCKS ==> (freeMap[b] <==> fat[b] == FREE)
  }

  /** Ownership of blocks by chains: a block is used exactly when it has an
      owner, the owner's chain holds it, and every block of a chain is owned
      by that chain's key. Together these say that every used block lies on
      exactly one chain and every block of a chain is used. */
  ghost predicate Ownership<K>(freeMap: seq<bool>, chains: map<K, seq<nat>>, owner: map<nat, K>)
  {
    && |freeMap| == NUM_BLOCKS
    && (forall b :: 0 <= b < NUM_BLOCKS ==> (!freeMap[b] <==> b in owner))
    && (forall b :: b in owner ==> b < NUM_BLOCKS && owner[b] in chains && b in chains[owner[b]])
    && (forall k, i :: k in chains && 0 <= i < |chains[k]| ==> chains[k][i] in owner && owner[chains[k][i]] == k)
  }

  /** Every used block lies on exactly one chain; no block of a chain is free. */
  lemma UsedBlockOnOneChain<K>(freeMap: seq<bool>, chains: map<K, seq<nat>>, owner: map<nat, K>, b: nat, k1: K, k2: K)
    requires Ownership(freeMap, chains, owner)
    requires k1 in chains && k2 in chains && b in chains[k1] && b in chains[k2]
    ensures k1 == k2 && b < NUM_BLOCKS && !freeMap[b]
  {
    var i :| 0 <= i < |chains[k1]| && chains[k1][i] == b;
    var j :| 0 <= j < |chains[k2]| && chains[k2][j] == b;
  }

  /** A new key starts with the empty chain. */
  lemma OwnershipAdd<K>(freeMap: seq<bool>, chains: map<K, seq<nat>>, owner: map<nat, K>, k: K)
    requires Ownership(freeMap, chains, owner) && k !in chains
    ensures Ownership(freeMap, chains[k := []], owner)
  {
  }

  /** `owner` with every block of `nb` now owned by `k`. */
  function Claim<K>(owner: map<nat, K>, nb: seq<nat>, k: K): (r: map<nat, K>)
    ensures forall b :: b in r <==> b in owner || b in nb
    ensures forall b :: b in r ==> r[b] == if b in nb then k else owner[b]
  {
    owner + map b | b in nb :: k
  }

  /** Growing chain `k` by free blocks `nb` that are now marked used. */
  lemma OwnershipGrow<K>(freeMap: seq<bool>, freeMap': seq<bool>, chains: map<K, seq<nat>>, owner: map<nat, K>, k: K, nb: seq<nat>)
    requires Ownership(freeMap, chains, owner) && k in chains
    requires forall i :: 0 <= i < |nb| ==> nb[i] < NUM_BLOCKS && freeMap[nb[i]]
    requires |freeMap'| == NUM_BLOCKS
    requires forall b :: 0 <= b < NUM_BLOCKS ==> freeMap'[b] == (freeMap[b] && b !in nb)
    ensures Ownership(freeMap', chains[k := chains[k] + nb], Claim(owner, nb, k))
  {
    var chains' := chains[k := chains[k] + nb];
    var owner' := Claim(owner, nb, k);
    forall b | b in owner'
      ensures b < NUM_BLOCKS && owner'[b] in chains' && b in chains'[owner'[b]]
    {
      if b !in nb {
        assert owner'[b] == owner[b];
        if owner[b] == k {
          assert b in chains[k];
        }
      } else {
        var i :| 0 <= i < |nb| && nb[i] == b;
        assert chains'[k][|chains[k]| + i] == b;
      }
    }
    forall k2, i | k2 in chains' && 0 <= i < |chains'[k2]|
      ensures chains'[k2][i] in owner' && owner'[chains'[k2][i]] == k2
    {
      if k2 == k && i >= |chains[k]| {
        assert chains'[k2][i] == nb[i - |chains[k]|];
      } else {
        var b := chains'[k2][i];
        assert b == chains[k2][i];
        assert !freeMap[b];
        assert b !in nb;
      }
    }
  }

  /** Releasing every block of chain `k`, which are now marked free. */
  lemma OwnershipRelease<K>(freeMap: seq<bool>, freeMap': seq<bool>, chains: map<K, seq<nat>>, owner: map<nat, K>, k: K)
    requires Ownership(freeMap, chains, owner) && k in chains
    requires |freeMap'| == NUM_BLOCKS
    requires forall b :: 0 <= b < NUM_BLOCKS ==> freeMap'[b] == (freeMap[b] || b in chains[k])
    ensures Ownership(freeMap', chains - {k}, owner - (set b | b in chains[k]))
  {
    var chains' := chains - {k};
    var owner' := owner - (set b | b in chains[k]);
    forall b | 0 <= b < NUM_BLOCKS
      ensures !freeMap'[b] <==> b in owner'
    {
      if b in chains[k] {
        var i :| 0 <= i < |chains[k]| && chains[k][i] == b;
      }
    }
    forall b | b in owner'
      ensures b < NUM_BLOCKS && owner'[b] in chains' && b in chains'[owner'[b]]
    {
    }
    forall k2, i | k2 in chains' && 0 <= i < |chains'[k2]|
      ensures chains'[k2][i] in owner' && owner'[chains'[k2][i]] == k2
    {
      var b := chains[k2][i];
      assert owner[b] == k2;
    }
  }

  /** Marking the blocks of `c` free in both the free map and the FAT keeps
      the two in agreement, and frees exactly the blocks of `c`. */
  lemma FreedMarks(freeMap: seq<bool>, fat: seq<int>, freeMap': seq<bool>, fat': seq<int>, c: seq<nat>)
    requires FreeMarks(freeMap, fat) && |freeMap'| == NUM_BLOCKS && |fat'| == NUM_BLOCKS
    requires forall j :: 0 <= j < |c| ==> c[j] < NUM_BLOCKS && freeMap'[c[j]] && fat'[c[j]] == FREE
    requires forall b :: 0 <= b < NUM_BLOCKS && b !in c ==> freeMap'[b] == freeMap[b] && fat'[b] == fat[b]
    ensures FreeMarks(freeMap', fat')
    ensures forall b :: 0 <= b < NUM_BLOCKS ==> freeMap'[b] == (freeMap[b] || b in c)
  {
    forall b | 0 <= b < NUM_BLOCKS && b in c
      ensures freeMap'[b] && fat'[b] == FREE
    {
      var j :| 0 <= j < |c| && c[j] == b;
    }
  }

  /** `freeMap'` and `fat'` are `freeMap` and `fat` after the chain `c` was
      extended by the lowest free blocks `nb`, now marked used, so that
      `c + nb` is the chain that starts at `head`; the FAT is unchanged
      outside `c` and `nb`. */
  ghost predicate Extended(freeMap: seq<bool>, fat: seq<int>, freeMap': seq<bool>, fat': seq<int>,
                           head: int, c: seq<nat>, nb: seq<nat>)
  {
    && |nb| <= |FreeIndices(freeMap)| && nb == FreeIndices(freeMap)[..|nb|]
    && IsChain(fat', head, c + nb)
    && MarkedUsed(freeMap, freeMap', nb)
    && FatFrame(fat, fat', c, nb)
  }

  /** Extending chain `k` by the lowest free blocks `nb`, now marked used
      and linked after it: the free map and the FAT stay in step, every
      used block still lies on exactly one chain, and the FAT entries of
      every other chain are untouched. */
  lemma ExtendKeepsBookkeeping<K>(freeMap: seq<bool>, fat: seq<int>, freeMap': seq<bool>, fat': seq<int>,
                                  chains: map<K, seq<nat>>, owner: map<nat, K>, k: K, head: int, nb: seq<nat>)
    requires FreeMarks(freeMap, fat) && Ownership(freeMap, chains, owner) && k in chains
    requires Extended(freeMap, fat, freeMap', fat', head, chains[k], nb)
    ensures FreeMarks(freeMap', fat')
    ensures Ownership(freeMap', chains[k := chains[k] + nb], Claim(owner, nb, k))
    ensures forall k2, i :: k2 in chains && k2 != k && 0 <= i < |chains[k2]| ==> fat'[chains[k2][i]] == fat[chains[k2][i]]
  {
    FreePrefix(freeMap, |nb|);
    var c := chains[k] + nb;
    forall b | 0 <= b < NUM_BLOCKS
      ensures freeMap'[b] <==> fat'[b] == FREE
    {
      if b in c {
        var i :| 0 <= i < |c| && c[i] == b;
        if i < |chains[k]| {
          assert b == chains[k][i];
        }
        assert fat'[b] != FREE by {
          if i < |c| - 1 {
            assert fat'[c[i]] == c[i + 1];
          }
        }
      }
    }
    OwnershipGrow(freeMap, freeMap', chains, owner, k, nb);
    forall k2, i | k2 in chains && k2 != k && 0 <= i < |chains[k2]|
      ensures fat'[chains[k2][i]] == fat[chains[k2][i]]
    {
      var b := chains[k2][i];
      assert owner[b] == k2;
      assert b !in nb;
    }
  }
}
