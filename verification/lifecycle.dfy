/** What the operations promise together: a stored file reads back, a name
    cannot be stored twice, and deleting a stored file returns its space. */
module Lifecycle {
  import opened Types
  import opened Chains
  import opened Store
  import opened StoreInvariants
  import opened Remove
  import opened RemoveInvariants
  import opened Retrieve

  /** After a store, looking the name up finds the first block of the new
      chain. */
  lemma NewChainFound(ins: seq<Inode>, ins': seq<Inode>, q: seq<nat>, dest: string)
    requires NewChain(ins, ins', q, dest)
    ensures FindHead(ins', dest) == Some(q[0])
  {
    StoredNameMatches(dest);
    assert HeadNamed(ins'[q[0]], dest);
    forall j | 0 <= j < q[0]
      ensures !HeadNamed(ins'[j], dest)
    {
      assert forall k :: 0 <= k < |q| ==> q[0] <= q[k];
      assert ins'[j] == ins[j];
    }
  }

  /** A block that held zeros, with a chunk written over its start. */
  lemma OverwriteZeros(c: seq<byte>)
    requires |c| <= BLOCK_SIZE
    ensures Overwrite(Zeros(BLOCK_SIZE), c) == c + Zeros(BLOCK_SIZE - |c|)
  {
  }

  /** Appending the `j`-th stored block to the source's first `j` blocks. */
  lemma ChunkAppend(src: seq<byte>, j: nat)
    requires j < NodesRequired(|src|)
    ensures BLOCK_SIZE * j <= |src|
    ensures j + 1 < NodesRequired(|src|) ==>
      BLOCK_SIZE * (j + 1) <= |src| && src[..BLOCK_SIZE * j] + Chunk(src, j) == src[..BLOCK_SIZE * (j + 1)]
    ensures j + 1 == NodesRequired(|src|) ==>
      BLOCK_SIZE * (j + 1) >= |src|
      && src[..BLOCK_SIZE * j] + Chunk(src, j) + Zeros(BLOCK_SIZE - |Chunk(src, j)|)
         == src + Zeros(BLOCK_SIZE * (j + 1) - |src|)
  {
    var c := Chunk(src, j);
    if j + 1 < NodesRequired(|src|) {
      assert src[..BLOCK_SIZE * j] + c == src[..BLOCK_SIZE * (j + 1)];
    } else {
      assert src[..BLOCK_SIZE * j] + c == src;
    }
  }

  /** Reading back the first `k` blocks of a stored file gives the source's
      first `k` blocks, whatever the taken blocks held before, since those
      blocks are written in full; reading all of them gives the source
      followed by zeros, provided the blocks taken held zeros before. */
  lemma {:induction false} ReadBackPrefix(v: Vfs, v': Vfs, q: seq<nat>, src: seq<byte>, k: nat)
    requires Valid(v) && Valid(v') && v'.numNodes == v.numNodes
    requires |q| == NodesRequired(|src|)
    requires forall j :: 0 <= j < |q| ==> q[j] < v.numNodes
    requires StoredData(v, v', q, src)
    requires k <= |q|
    requires k == |q| ==> forall j :: 0 <= j < |q| ==> v.blocks[q[j]] == Zeros(BLOCK_SIZE)
    ensures k < |q| ==> BLOCK_SIZE * k <= |src| && Concat(v', q[..k]) == src[..BLOCK_SIZE * k]
    ensures k == |q| ==> BLOCK_SIZE * k >= |src| && Concat(v', q[..k]) == src + Zeros(BLOCK_SIZE * k - |src|)
    decreases k
  {
    if k > 0 {
      var j := k - 1;
      ReadBackPrefix(v, v', q, src, j);
      assert q[..k][..j] == q[..j];
      assert Concat(v', q[..k]) == Concat(v', q[..j]) + v'.blocks[q[j]];
      ChunkAppend(src, j);
      if k == |q| {
        OverwriteZeros(Chunk(src, j));
      }
    } else {
      assert BLOCK_SIZE * k == 0;
    }
  }

  /** Whatever the taken blocks held before, the blocks of a stored file
      read back start with the source, and less than a block follows it. */
  lemma ReadBackStartsWithSource(v: Vfs, v': Vfs, q: seq<nat>, src: seq<byte>)
    requires Valid(v) && Valid(v') && v'.numNodes == v.numNodes
    requires |q| == NodesRequired(|src|) > 0
    requires forall j :: 0 <= j < |q| ==> q[j] < v.numNodes
    requires StoredData(v, v', q, src)
    ensures |src| <= |Concat(v', q)| < |src| + BLOCK_SIZE
    ensures Concat(v', q)[..|src|] == src
  {
    var j := |q| - 1;
    var c := Chunk(src, j);
    ReadBackPrefix(v, v', q, src, j);
    assert Concat(v', q) == Concat(v', q[..j]) + v'.blocks[q[j]];
    assert src[..BLOCK_SIZE * j] + c == src;
    assert Concat(v', q) == src + v.blocks[q[j]][|c|..];
  }

  /** A successful store leaves a new chain, found under its name, whose
      blocks held zeros if the free blocks did. */
  lemma StoredFacts(v: Vfs, src: seq<byte>, dest: string)
    requires Valid(v) && |src| > 0
    requires CopyTo(v, Some(src), dest).0 == Success
    ensures var v' := CopyTo(v, Some(src), dest).1; var q := Selection(v.inodes, |src|);
      && Valid(v') && v'.numNodes == v.numNodes
      && NewChain(v.inodes, v'.inodes, q, dest)
      && StoredData(v, v', q, src)
      && FindHead(v'.inodes, dest) == Some(q[0])
      && Chain(v'.inodes, q[0]) == q
  {
    var v' := CopyTo(v, Some(src), dest).1;
    var q := Selection(v.inodes, |src|);
    StoredIsNewChain(v, v', src, dest);
    NewChainIsSelection(v.inodes, v'.inodes, q, dest);
    NewChainFound(v.inodes, v'.inodes, q, dest);
  }

  /** Reading back a stored file gives the source padded with zeros to a
      whole number of blocks: `copyFrom` writes full blocks, and the blocks
      taken were zero. */
  lemma RoundTrip(v: Vfs, src: seq<byte>, dest: string, hostDest: string)
    requires Valid(v) && WellFormed(v.inodes) && FreeBlocksZero(v) && |src| > 0
    requires !EmptyCString(hostDest)
    requires CopyTo(v, Some(src), dest).0 == Success
    ensures HeadsHaveChains(CopyTo(v, Some(src), dest).1.inodes)
    ensures CopyFrom(CopyTo(v, Some(src), dest).1, dest, hostDest, true)
      == (Success, Some(src + Zeros(BLOCK_SIZE * NodesRequired(|src|) - |src|)))
  {
    var v' := CopyTo(v, Some(src), dest).1;
    CopyToPreservesWellFormed(v, Some(src), dest);
    StoredFacts(v, src, dest);
    TakenBlocksZero(v, v'.inodes, Selection(v.inodes, |src|), dest);
    ReadBackNewChain(v, v', Selection(v.inodes, |src|), src, dest, hostDest);
  }

  /** The blocks a store takes are free, so they held zeros. */
  lemma TakenBlocksZero(v: Vfs, ins': seq<Inode>, q: seq<nat>, dest: string)
    requires Valid(v) && FreeBlocksZero(v)
    requires NewChain(v.inodes, ins', q, dest)
    ensures forall j :: 0 <= j < |q| ==> q[j] < v.numNodes && v.blocks[q[j]] == Zeros(BLOCK_SIZE)
  {
  }

  /** `copyFrom` of the file a store just created. */
  lemma ReadBackNewChain(v: Vfs, v': Vfs, q: seq<nat>, src: seq<byte>, dest: string, hostDest: string)
    requires Valid(v) && Valid(v') && v'.numNodes == v.numNodes
    requires |q| == NodesRequired(|src|) > 0
    requires forall j :: 0 <= j < |q| ==> q[j] < v.numNodes && v.blocks[q[j]] == Zeros(BLOCK_SIZE)
    requires StoredData(v, v', q, src)
    requires HeadsHaveChains(v'.inodes) && FindHead(v'.inodes, dest) == Some(q[0]) && Chain(v'.inodes, q[0]) == q
    requires !EmptyCString(hostDest)
    ensures CopyFrom(v', dest, hostDest, true) == (Success, Some(src + Zeros(BLOCK_SIZE * NodesRequired(|src|) - |src|)))
  {
    CopyFromFound(v', dest, hostDest, q[0]);
    ReadBackAll(v, v', q, src);
  }

  /** All the blocks of a stored file, read back, are the source followed
      by zeros when the blocks taken held zeros. */
  lemma ReadBackAll(v: Vfs, v': Vfs, q: seq<nat>, src: seq<byte>)
    requires Valid(v) && Valid(v') && v'.numNodes == v.numNodes
    requires |q| == NodesRequired(|src|)
    requires forall j :: 0 <= j < |q| ==> q[j] < v.numNodes && v.blocks[q[j]] == Zeros(BLOCK_SIZE)
    requires StoredData(v, v', q, src)
    ensures Concat(v', q) == src + Zeros(BLOCK_SIZE * |q| - |src|)
  {
    ReadBackPrefix(v, v', q, src, |q|);
    assert q[..|q|] == q;
  }

  /** On any well-formed image, the stored bytes are a prefix of what reads
      back, and less than a block follows them. */
  lemma RoundTripPrefix(v: Vfs, src: seq<byte>, dest: string, hostDest: string)
    requires Valid(v) && WellFormed(v.inodes) && |src| > 0
    requires !EmptyCString(hostDest)
    requires CopyTo(v, Some(src), dest).0 == Success
    ensures HeadsHaveChains(CopyTo(v, Some(src), dest).1.inodes)
    ensures var r := CopyFrom(CopyTo(v, Some(src), dest).1, dest, hostDest, true);
      r.1.Some? && |src| <= |r.1.value| < |src| + BLOCK_SIZE && r.1.value[..|src|] == src
  {
    var v' := CopyTo(v, Some(src), dest).1;
    var q := Selection(v.inodes, |src|);
    CopyToPreservesWellFormed(v, Some(src), dest);
    StoredFacts(v, src, dest);
    CopyFromFound(v', dest, hostDest, q[0]);
    ReadBackStartsWithSource(v, v', q, src);
  }

  /** The `size` fields of the descriptors `c`, added up. */
  function SizeSum(ins: seq<Inode>, c: seq<nat>): nat
    requires forall k :: 0 <= k < |c| ==> c[k] < |ins|
  {
    if c == [] then 0 else SizeSum(ins, c[..|c| - 1]) + ins[c[|c| - 1]].size
  }

  /** The sizes recorded on the first `k` blocks of a stored file add up to
      the bytes those blocks hold: full blocks, then what is left of the
      source. */
  lemma {:induction false} StoredSizesSum(v: Vfs, v': Vfs, q: seq<nat>, src: seq<byte>, k: nat)
    requires Valid(v) && Valid(v') && v'.numNodes == v.numNodes
    requires |q| == NodesRequired(|src|)
    requires forall j :: 0 <= j < |q| ==> q[j] < v.numNodes
    requires StoredData(v, v', q, src)
    requires k <= |q|
    ensures SizeSum(v'.inodes, q[..k]) == if k < |q| then BLOCK_SIZE * k else |src|
    decreases k
  {
    if k > 0 {
      StoredSizesSum(v, v', q, src, k - 1);
      assert q[..k][..k - 1] == q[..k - 1];
      assert v'.inodes[q[k - 1]].size == |Chunk(src, k - 1)|;
    }
  }

  /** Every block of a stored file records a full BLOCK_SIZE bytes but the
      last, and the recorded sizes add up to the source's length. */
  lemma StoredSizes(v: Vfs, src: seq<byte>, dest: string)
    requires Valid(v) && |src| > 0
    requires CopyTo(v, Some(src), dest).0 == Success
    ensures var v' := CopyTo(v, Some(src), dest).1; var q := Selection(v.inodes, |src|);
      && (forall k :: 0 <= k < |q| - 1 ==> v'.inodes[q[k]].size == BLOCK_SIZE)
      && 0 < v'.inodes[q[|q| - 1]].size <= BLOCK_SIZE
      && SizeSum(v'.inodes, q) == |src|
  {
    StoredFacts(v, src, dest);
    ChainSizes(v, CopyTo(v, Some(src), dest).1, Selection(v.inodes, |src|), src);
  }

  /** The sizes a store records on its chain `q`. */
  lemma ChainSizes(v: Vfs, v': Vfs, q: seq<nat>, src: seq<byte>)
    requires Valid(v) && Valid(v') && v'.numNodes == v.numNodes
    requires |q| == NodesRequired(|src|) > 0
    requires forall j :: 0 <= j < |q| ==> q[j] < v.numNodes
    requires StoredData(v, v', q, src)
    ensures forall k :: 0 <= k < |q| - 1 ==> v'.inodes[q[k]].size == BLOCK_SIZE
    ensures 0 < v'.inodes[q[|q| - 1]].size <= BLOCK_SIZE
    ensures SizeSum(v'.inodes, q) == |src|
  {
    StoredSizesSum(v, v', q, src, |q|);
    assert q[..|q|] == q;
  }

  /** A name that was just stored cannot be stored again. */
  lemma DuplicateRejected(v: Vfs, src: seq<byte>, dest: string, other: Option<seq<byte>>)
    requires Valid(v) && |src| > 0
    requires other.Some? ==> |other.value| > 0
    requires CopyTo(v, Some(src), dest).0 == Success
    ensures CopyTo(CopyTo(v, Some(src), dest).1, other, dest) == (WrongName, CopyTo(v, Some(src), dest).1)
  {
    StoredFacts(v, src, dest);
  }

  /** Deleting the file a store created gives back exactly the free pool
      it was stored from. */
  lemma NewChainDeleted(ins: seq<Inode>, v': Vfs, v'': Vfs, q: seq<nat>, dest: string)
    requires Valid(v') && |ins| == v'.numNodes
    requires NewChain(ins, v'.inodes, q, dest)
    requires WellFormed(v'.inodes) && Chain(v'.inodes, q[0]) == q
    requires Valid(v'') && v''.numNodes == v'.numNodes
    requires Reclaimed(v', v'', q[0], q)
    ensures FreeSet(v''.inodes) == FreeSet(ins)
  {
    assert Deleted(v', v'', q[0]);
    DeleteFreeCount(v', v'', q[0]);
    NewChainFreeSet(ins, v'.inodes, q, dest);
    assert Elems(q) <= FreeSet(ins);
  }

  /** Storing a file and then deleting it restores the free pool. */
  lemma CopyThenDeleteFrees(v: Vfs, src: seq<byte>, dest: string, v'': Vfs)
    requires Valid(v) && WellFormed(v.inodes) && |src| > 0
    requires CopyTo(v, Some(src), dest).0 == Success
    requires Valid(v'') && v''.numNodes == v.numNodes
    requires FileDeleted(CopyTo(v, Some(src), dest).1, dest, v'')
    ensures FreeSet(v''.inodes) == FreeSet(v.inodes)
  {
    var v' := CopyTo(v, Some(src), dest).1;
    var q := Selection(v.inodes, |src|);
    CopyToPreservesWellFormed(v, Some(src), dest);
    StoredFacts(v, src, dest);
    NewChainDeleted(v.inodes, v', v'', q, dest);
  }
}
