/** `deleteFromVFS`: release every block of a file and zero its data. */
module Remove {
  import opened Types
  import opened Chains

  /** A descriptor once its file is deleted: not in use, empty, and linked
      to 0 (the value the source stores, not -1). The first block also loses
      its start flag and its name. */
  function Reclaim(n: Inode, isHead: bool): (r: Inode)
    ensures !InUse(r) && r.size == 0 && r.next == 0
    ensures isHead ==> !IsStart(r) && r.name == ""
    ensures !isHead ==> r.name == n.name && IsStart(r) == IsStart(n)
  {
    FlagBitsIndependent(n.flags);
    FlagBitsIndependent(n.flags & !IS_START);
    Release(if isHead then Unstart(n) else n)
  }

  /** What deletion does to the first block before the walk: the start
      flag is cleared and the name becomes the empty string. */
  function Unstart(n: Inode): Inode
  {
    n.(flags := n.flags & !IS_START, name := "")
  }

  /** What one step of the walk does to a descriptor. */
  function Release(n: Inode): Inode
  {
    n.(flags := n.flags & !IN_USE, size := 0, next := 0)
  }

  /** The image after one step of the walk at block `x`: the block joins
      the free pool with zeroed data, empty and unlinked, its start flag and
      name as they were; nothing else changes. */
  function ReleaseAt(w: Vfs, x: nat): (r: Vfs)
    requires Valid(w) && x < w.numNodes
    ensures Valid(r) && r.numNodes == w.numNodes
    ensures !InUse(r.inodes[x]) && IsStart(r.inodes[x]) == IsStart(w.inodes[x]) && r.inodes[x].name == w.inodes[x].name
    ensures r.inodes[x].size == 0 && r.inodes[x].next == 0 && r.blocks[x] == Zeros(BLOCK_SIZE)
    ensures FreeSet(r.inodes) == FreeSet(w.inodes) + {x}
    ensures forall y :: 0 <= y < w.numNodes && y != x ==> r.inodes[y] == w.inodes[y] && r.blocks[y] == w.blocks[y]
  {
    FlagBitsIndependent(w.inodes[x].flags);
    Vfs(w.numNodes, w.inodes[x := Release(w.inodes[x])], w.blocks[x := Zeros(BLOCK_SIZE)])
  }

  /** `v'` is `v` with the chain `c` of the file starting at `h` released:
      each of its descriptors reclaimed and each of its blocks zeroed, and
      nothing else changed. */
  predicate Reclaimed(v: Vfs, v': Vfs, h: nat, c: seq<nat>)
    requires Valid(v) && Valid(v') && v'.numNodes == v.numNodes
    requires forall k :: 0 <= k < |c| ==> c[k] < v.numNodes
  {
    && (forall k :: 0 <= k < |c| ==>
          v'.inodes[c[k]] == Reclaim(v.inodes[c[k]], c[k] == h) && v'.blocks[c[k]] == Zeros(BLOCK_SIZE))
    && (forall x :: 0 <= x < v.numNodes && x !in c ==> v'.inodes[x] == v.inodes[x] && v'.blocks[x] == v.blocks[x])
  }

  /** `v'` is `v` after deleting the first file whose name matches `name`. */
  predicate FileDeleted(v: Vfs, name: string, v': Vfs)
    requires Valid(v) && Valid(v') && v'.numNodes == v.numNodes
  {
    && FindHead(v.inodes, name).Some?
    && var h := FindHead(v.inodes, name).value;
       Reclaimed(v, v', h, Chain(v.inodes, h))
  }

  /** `deleteFromVFS(vfs, file_name)`. The lookup is the first descriptor
      that starts a file whose name matches; then the start flag and name
      are cleared and the chain is walked until a link of -1, each visited
      descriptor reclaimed and its block overwritten with zeros. The walk
      reads each `next` before overwriting it with 0. The source walks
      whatever the links say, so it needs the chain of the file it deletes
      to be proper; since that file is found by name, this requires every
      file's chain to be proper (`HeadsHaveChains`). */
  method DeleteFromVFS(v: Vfs, name: string) returns (status: Status, v': Vfs)
    requires Valid(v) && HeadsHaveChains(v.inodes)
    ensures Valid(v') && v'.numNodes == v.numNodes
    ensures status == Success || status == FileNotFound
    ensures status == FileNotFound <==> forall j :: 0 <= j < v.numNodes ==> !HeadNamed(v.inodes[j], name)
    ensures status == FileNotFound ==> v' == v
    ensures status == Success ==> FileDeleted(v, name, v')
  {
    var found := FindHead(v.inodes, name);
    if found.None? {
      return FileNotFound, v;
    }
    var h := found.value;
    v' := ReleaseChain(v, h, Chain(v.inodes, h));
    status := Success;
  }

  /** The walk of `deleteFromVFS` from the first block `h` of a file whose
      chain is `c`: the first block loses its start flag and name, then each
      block in turn is released and zeroed, its link being read before it
      is overwritten with 0, until the link read is -1. */
  method ReleaseChain(v: Vfs, h: nat, ghost c: seq<nat>) returns (w: Vfs)
    requires Valid(v) && ProperChain(v.inodes, c) && c[0] == h
    ensures Valid(w) && w.numNodes == v.numNodes
    ensures Reclaimed(v, w, h, c)
  {
    w := v.(inodes := v.inodes[h := Unstart(v.inodes[h])]);
    var cur: int := h;
    ghost var k: nat := 0;
    while cur != -1
      invariant k <= |c|
      invariant cur == (if k < |c| then c[k] else -1)
      invariant Valid(w) && w.numNodes == v.numNodes
      invariant forall j :: 0 <= j < k ==>
        w.inodes[c[j]] == Reclaim(v.inodes[c[j]], c[j] == h) && w.blocks[c[j]] == Zeros(BLOCK_SIZE)
      invariant forall j :: k <= j < |c| ==>
        w.inodes[c[j]] == (if j == 0 then Unstart(v.inodes[h]) else v.inodes[c[j]]) && w.blocks[c[j]] == v.blocks[c[j]]
      invariant forall x :: 0 <= x < v.numNodes && x !in c ==> w.inodes[x] == v.inodes[x] && w.blocks[x] == v.blocks[x]
      decreases |c| - k
    {
      assert (c[k] == h) == (k == 0);
      assert forall j :: 0 <= j < |c| && j != k ==> c[j] != c[k];
      assert w.inodes[cur].next == v.inodes[c[k]].next;
      ChainLinks(v.inodes, c, k);
      var next := w.inodes[cur].next;
      w := ReleaseAt(w, cur);
      cur := next;
      k := k + 1;
    }
  }
}

/** The invariants deletion keeps and the space it returns. */
module RemoveInvariants {
  import opened Types
  import opened Chains
  import opened Remove

  /** The facts about a deletion every lemma below starts from. */
  predicate Deleted(v: Vfs, v': Vfs, h: nat)
  {
    && Valid(v) && Valid(v') && v'.numNodes == v.numNodes
    && HeadsHaveChains(v.inodes) && ChainsDisjoint(v.inodes)
    && h < v.numNodes && IsHead(v.inodes[h])
    && Reclaimed(v, v', h, Chain(v.inodes, h))
  }

  /** Every block of the deleted file is free afterwards. */
  lemma DeletedBlocksFree(v: Vfs, v': Vfs, h: nat)
    requires Deleted(v, v', h)
    ensures forall x :: x in Chain(v.inodes, h) ==> x < v.numNodes && !InUse(v'.inodes[x]) && !IsStart(v'.inodes[x])
  {
    var c := Chain(v.inodes, h);
    forall k | 0 < k < |c|
      ensures !IsStart(v'.inodes[c[k]])
    {
      HeadOnlyAtFront(v.inodes, h, k);
    }
  }

  /** The files after a deletion are the old ones except the deleted one. */
  lemma HeadsAfterDelete(v: Vfs, v': Vfs, h: nat, x: nat)
    requires Deleted(v, v', h)
    requires x < v.numNodes
    ensures IsHead(v'.inodes[x]) <==> x != h && IsHead(v.inodes[x])
    ensures IsHead(v'.inodes[x]) ==> x !in Chain(v.inodes, h) && v'.inodes[x] == v.inodes[x]
  {
    var c := Chain(v.inodes, h);
    DeletedBlocksFree(v, v', h);
    assert h in c;
    if x !in c {
      assert v'.inodes[x] == v.inodes[x];
      assert IsHead(v.inodes[x]) ==> Disjoint(c, Chain(v.inodes, x)) || x == h;
    }
  }

  /** A surviving file keeps its chain, which stays proper and shares no
      block with the deleted one. */
  lemma OtherChainKept(v: Vfs, v': Vfs, h: nat, h2: nat)
    requires Deleted(v, v', h)
    requires h2 < v.numNodes && h2 != h && IsHead(v.inodes[h2])
    ensures Disjoint(Chain(v.inodes, h2), Chain(v.inodes, h))
    ensures Chain(v'.inodes, h2) == Chain(v.inodes, h2)
    ensures ProperChain(v'.inodes, Chain(v.inodes, h2))
  {
    var c := Chain(v.inodes, h);
    var d := Chain(v.inodes, h2);
    assert Disjoint(d, c);
    assert forall x :: x in d ==> x !in c;
    ChainFrame(v.inodes, v'.inodes, h2, Elems(c));
  }

  lemma DeleteHeadsHaveChains(v: Vfs, v': Vfs, h: nat)
    requires Deleted(v, v', h)
    ensures HeadsHaveChains(v'.inodes)
  {
    forall h2 | 0 <= h2 < v.numNodes && IsHead(v'.inodes[h2])
      ensures ProperChain(v'.inodes, Chain(v'.inodes, h2))
    {
      HeadsAfterDelete(v, v', h, h2);
      OtherChainKept(v, v', h, h2);
    }
  }

  lemma DeleteChainsDisjoint(v: Vfs, v': Vfs, h: nat)
    requires Deleted(v, v', h)
    ensures ChainsDisjoint(v'.inodes)
  {
    forall h1, h2 | 0 <= h1 < v.numNodes && 0 <= h2 < v.numNodes && h1 != h2 && IsHead(v'.inodes[h1]) && IsHead(v'.inodes[h2])
      ensures Disjoint(Chain(v'.inodes, h1), Chain(v'.inodes, h2))
    {
      HeadsAfterDelete(v, v', h, h1);
      HeadsAfterDelete(v, v', h, h2);
      OtherChainKept(v, v', h, h1);
      OtherChainKept(v, v', h, h2);
    }
  }

  lemma DeleteInUseOwned(v: Vfs, v': Vfs, h: nat)
    requires Deleted(v, v', h) && InUseOwned(v.inodes)
    ensures InUseOwned(v'.inodes)
  {
    forall x | 0 <= x < v.numNodes && InUse(v'.inodes[x])
      ensures OnSomeChain(v'.inodes, x)
    {
      OwnedAfterDelete(v, v', h, x);
    }
  }

  lemma OwnedAfterDelete(v: Vfs, v': Vfs, h: nat, x: nat)
    requires Deleted(v, v', h) && InUseOwned(v.inodes)
    requires x < v.numNodes && InUse(v'.inodes[x])
    ensures OnSomeChain(v'.inodes, x)
  {
    DeletedBlocksFree(v, v', h);
    assert x !in Chain(v.inodes, h);
    assert v'.inodes[x] == v.inodes[x];
    assert OnSomeChain(v.inodes, x);
    OwnerSurvives(v, v', h, x);
  }

  lemma OwnerSurvives(v: Vfs, v': Vfs, h: nat, x: nat)
    requires Deleted(v, v', h)
    requires x < v.numNodes && x !in Chain(v.inodes, h) && OnSomeChain(v.inodes, x)
    ensures OnSomeChain(v'.inodes, x)
  {
    var h2 :| 0 <= h2 < v.numNodes && IsHead(v.inodes[h2]) && x in Chain(v.inodes, h2);
    assert h2 != h;
    OtherChainKept(v, v', h, h2);
    HeadsAfterDelete(v, v', h, h2);
  }

  lemma DeleteNamesUnique(v: Vfs, v': Vfs, h: nat)
    requires Deleted(v, v', h) && NamesUnique(v.inodes)
    ensures NamesUnique(v'.inodes)
  {
    forall h1, h2 | 0 <= h1 < v.numNodes && 0 <= h2 < v.numNodes && h1 != h2 && IsHead(v'.inodes[h1]) && IsHead(v'.inodes[h2])
      ensures !NamesMatch(v'.inodes[h1].name, v'.inodes[h2].name)
    {
      HeadsAfterDelete(v, v', h, h1);
      HeadsAfterDelete(v, v', h, h2);
    }
  }

  /** Deleting a file keeps the table well formed. */
  lemma DeletePreservesWellFormed(v: Vfs, v': Vfs, h: nat)
    requires Deleted(v, v', h) && WellFormed(v.inodes)
    ensures WellFormed(v'.inodes)
  {
    DeleteHeadsHaveChains(v, v', h);
    DeleteChainsDisjoint(v, v', h);
    DeleteInUseOwned(v, v', h);
    DeleteNamesUnique(v, v', h);
  }

  /** Deleting a file returns exactly its blocks to the free pool. */
  lemma DeleteFreeCount(v: Vfs, v': Vfs, h: nat)
    requires Deleted(v, v', h)
    ensures FreeSet(v'.inodes) == FreeSet(v.inodes) + Elems(Chain(v.inodes, h))
    ensures |FreeSet(v'.inodes)| == |FreeSet(v.inodes)| + |Chain(v.inodes, h)|
  {
    var c := Chain(v.inodes, h);
    DeletedBlocksFree(v, v', h);
    assert ProperChain(v.inodes, c);
    assert FreeSet(v'.inodes) == FreeSet(v.inodes) + Elems(c);
    assert FreeSet(v.inodes) !! Elems(c);
    DistinctCard(c);
  }

  /** Deleting a file keeps every free block zero. */
  lemma DeleteKeepsFreeBlocksZero(v: Vfs, v': Vfs, h: nat)
    requires Deleted(v, v', h) && FreeBlocksZero(v)
    ensures FreeBlocksZero(v')
  {
  }

  /** Once deleted, the name no longer finds a file. */
  lemma DeletedNameGone(v: Vfs, v': Vfs, h: nat, name: string)
    requires Deleted(v, v', h) && NamesUnique(v.inodes)
    requires HeadNamed(v.inodes[h], name)
    ensures FindHead(v'.inodes, name).None?
  {
    forall j | 0 <= j < v.numNodes
      ensures !HeadNamed(v'.inodes[j], name)
    {
      HeadsAfterDelete(v, v', h, j);
    }
  }
}
