/** `copyTo`: store a host file in the image as a new chain of free blocks. */
module Store {
  import opened Types
  import opened Chains

  /** Blocks a source of `len` bytes needs: `len / BLOCK_SIZE`, rounded up. */
  function NodesRequired(len: nat): (r: nat)
    ensures (r - 1) * BLOCK_SIZE < len <= r * BLOCK_SIZE
  {
    if len % BLOCK_SIZE == 0 then len / BLOCK_SIZE else len / BLOCK_SIZE + 1
  }

  /** The bytes the `k`-th `fread` of at most BLOCK_SIZE bytes returns. */
  function Chunk(src: seq<byte>, k: nat): (r: seq<byte>)
    requires k < NodesRequired(|src|)
    ensures 0 < |r| <= BLOCK_SIZE
    ensures |r| == (if k + 1 < NodesRequired(|src|) then BLOCK_SIZE else |src| - k * BLOCK_SIZE)
    ensures r == src[k * BLOCK_SIZE .. k * BLOCK_SIZE + |r|]
  {
    var lo := k * BLOCK_SIZE;
    var hi := if lo + BLOCK_SIZE <= |src| then lo + BLOCK_SIZE else |src|;
    src[lo..hi]
  }

  predicate Ascending(q: seq<nat>)
  {
    forall a, b :: 0 <= a < b < |q| ==> q[a] < q[b]
  }

  /** The scan for free blocks: indices from `i` upwards whose IN_USE bit is
      clear, stopping once `want` have been collected. */
  function Scan(ins: seq<Inode>, i: nat, want: nat): (r: seq<nat>)
    requires i <= |ins|
    ensures |r| <= want
    ensures forall k :: 0 <= k < |r| ==> i <= r[k] < |ins| && !InUse(ins[r[k]])
    ensures Ascending(r)
    ensures forall k, j :: 0 <= k < |r| && i <= j < r[k] && !InUse(ins[j]) ==> j in r
    ensures |r| < want ==> forall j :: i <= j < |ins| && !InUse(ins[j]) ==> j in r
    decreases |ins| - i
  {
    if i == |ins| || want == 0 then []
    else if !InUse(ins[i]) then [i] + Scan(ins, i + 1, want - 1)
    else Scan(ins, i + 1, want)
  }

  /** The blocks `copyTo` picks for a source of `len` bytes. */
  function Selection(ins: seq<Inode>, len: nat): seq<nat>
  {
    Scan(ins, 0, NodesRequired(len))
  }

  /** The scan comes up short exactly when fewer blocks are free than wanted;
      otherwise it returns exactly `want` blocks. */
  lemma ScanCount(ins: seq<Inode>, want: nat)
    ensures |Scan(ins, 0, want)| < want <==> |FreeSet(ins)| < want
    ensures |FreeSet(ins)| >= want ==> |Scan(ins, 0, want)| == want
  {
    var r := Scan(ins, 0, want);
    DistinctCard(r);
    assert Elems(r) <= FreeSet(ins);
    if |r| < want {
      assert FreeSet(ins) == Elems(r);
    } else {
      assert FreeSet(ins) == Elems(r) + (FreeSet(ins) - Elems(r));
    }
  }

  /** An ascending selection of indices below `n` has at most `n` entries. */
  lemma {:induction false} AscendingBound(q: seq<nat>, n: nat)
    requires Ascending(q)
    requires forall k :: 0 <= k < |q| ==> q[k] < n
    ensures |q| <= n
    ensures forall k :: 0 <= k < |q| ==> k <= q[k]
    decreases |q|
  {
    if q != [] {
      var p := q[..|q| - 1];
      assert forall k :: 0 <= k < |p| ==> p[k] == q[k];
      AscendingBound(p, q[|q| - 1]);
    }
  }

  /** The checks `copyTo` makes before touching anything: the destination
      name, an existing file with a matching name, the source file, and the
      free space. */
  function Precheck(v: Vfs, src: Option<seq<byte>>, dest: string): Status
  {
    if EmptyCString(dest) then WrongName
    else if FindHead(v.inodes, dest).Some? then WrongName
    else if src.None? then FileOpening
    else if |Selection(v.inodes, |src.value|)| < NodesRequired(|src.value|) then NotEnoughSpace
    else Success
  }

  /** `dest` is a usable new file name: not empty and not matching any file. */
  predicate NameAvailable(ins: seq<Inode>, dest: string)
  {
    !EmptyCString(dest) && forall j :: 0 <= j < |ins| ==> !HeadNamed(ins[j], dest)
  }

  /** The `k`-th selected descriptor after the loop body ran on it: in use,
      holding the `k`-th chunk, linked to the next selected index. The
      source assigns `nodes_queue[k + 1]` on the last iteration too, an
      uninitialised entry of the queue (it is allocated with room for R
      descriptors, not R ints); the -1 written after the loop replaces that
      value, so the last link is -1 here directly. */
  function Link(n: Inode, q: seq<nat>, src: seq<byte>, k: nat): Inode
    requires k < |q| == NodesRequired(|src|)
  {
    n.(flags := IN_USE, size := |Chunk(src, k)|, next := NextIn(q, k))
  }

  /** A block after writing `part` at its start. */
  function Overwrite(b: seq<byte>, part: seq<byte>): seq<byte>
    requires |part| <= |b|
  {
    part + b[|part|..]
  }

  predicate Selectable(v: Vfs, q: seq<nat>, src: seq<byte>)
  {
    && Valid(v)
    && |q| == NodesRequired(|src|)
    && |q| > 0
    && Ascending(q)
    && forall k :: 0 <= k < |q| ==> q[k] < v.numNodes
  }

  /** The state after the first `k` iterations of the copy loop. Each
      iteration writes the chunk just read into the block of the selected
      descriptor: the source passes `vfs->inodes[i].size` as the byte count
      there, where `nodes_queue[i]` is meant (see `CopyToAsWritten`); this
      definition writes the chunk's own length. */
  function Build(v: Vfs, q: seq<nat>, src: seq<byte>, k: nat): (r: Vfs)
    requires Selectable(v, q, src) && k <= |q|
    ensures Valid(r) && r.numNodes == v.numNodes
    decreases k
  {
    if k == 0 then v
    else
      var p := Build(v, q, src, k - 1);
      var i := q[k - 1];
      Vfs(p.numNodes,
          p.inodes[i := Link(p.inodes[i], q, src, k - 1)],
          p.blocks[i := Overwrite(p.blocks[i], Chunk(src, k - 1))])
  }

  /** After `k` iterations the first `k` selected descriptors are linked and
      hold their chunks, and nothing else has changed. Each selected index
      is written exactly once because the selection is ascending. */
  lemma {:induction false} BuildSpec(v: Vfs, q: seq<nat>, src: seq<byte>, k: nat)
    requires Selectable(v, q, src) && k <= |q|
    ensures forall j :: 0 <= j < k ==>
      && Build(v, q, src, k).inodes[q[j]] == Link(v.inodes[q[j]], q, src, j)
      && Build(v, q, src, k).blocks[q[j]] == Overwrite(v.blocks[q[j]], Chunk(src, j))
    ensures forall x :: 0 <= x < v.numNodes && x !in q[..k] ==>
      Build(v, q, src, k).inodes[x] == v.inodes[x] && Build(v, q, src, k).blocks[x] == v.blocks[x]
    decreases k
  {
    if k > 0 {
      BuildSpec(v, q, src, k - 1);
      var i := q[k - 1];
      assert i !in q[..k - 1];
      assert q[..k] == q[..k - 1] + [i];
    }
  }

  /** One more iteration of the corrected loop. */
  lemma BuildStep(v: Vfs, q: seq<nat>, src: seq<byte>, k: nat)
    requires Selectable(v, q, src) && 0 < k <= |q|
    ensures var p := Build(v, q, src, k - 1); var i := q[k - 1];
      && Build(v, q, src, k).inodes == p.inodes[i := Link(p.inodes[i], q, src, k - 1)]
      && Build(v, q, src, k).blocks == p.blocks[i := Overwrite(p.blocks[i], Chunk(src, k - 1))]
  {
  }

  /** The loop's result with the first selected descriptor marked as the
      start of the file and given the (truncated) destination name. */
  function Commit(v: Vfs, q: seq<nat>, src: seq<byte>, dest: string): Vfs
    requires Selectable(v, q, src)
  {
    var b := Build(v, q, src, |q|);
    var h := q[0];
    b.(inodes := b.inodes[h := b.inodes[h].(flags := b.inodes[h].flags | IS_START, name := CName(dest))])
  }

  /** Outside the selection nothing changes. */
  predicate StoredFrame(v: Vfs, v': Vfs, q: seq<nat>)
    requires Valid(v) && Valid(v') && v'.numNodes == v.numNodes
  {
    forall x :: 0 <= x < v.numNodes && x !in q ==> v'.inodes[x] == v.inodes[x] && v'.blocks[x] == v.blocks[x]
  }

  /** The selected descriptors in order: the first starts the file and holds
      the stored name, the others are plain in-use blocks keeping their old
      name field, each links to the next selected index and the last to -1. */
  predicate StoredLinks(v: Vfs, v': Vfs, q: seq<nat>, dest: string)
    requires Valid(v) && Valid(v') && v'.numNodes == v.numNodes
    requires |q| > 0 && forall k :: 0 <= k < |q| ==> q[k] < v.numNodes
  {
    && v'.inodes[q[0]].flags == IN_USE | IS_START
    && v'.inodes[q[0]].name == CName(dest)
    && (forall k :: 0 < k < |q| ==> v'.inodes[q[k]].flags == IN_USE && v'.inodes[q[k]].name == v.inodes[q[k]].name)
    && (forall k :: 0 <= k < |q| ==> v'.inodes[q[k]].next == NextIn(q, k))
  }

  /** The `k`-th selected block holds the `k`-th chunk of the source (a full
      block for all but the last) at its start, keeps its old bytes after
      it, and its descriptor records the chunk's length. */
  predicate StoredData(v: Vfs, v': Vfs, q: seq<nat>, src: seq<byte>)
    requires Valid(v) && Valid(v') && v'.numNodes == v.numNodes
    requires |q| == NodesRequired(|src|) && forall k :: 0 <= k < |q| ==> q[k] < v.numNodes
  {
    forall k :: 0 <= k < |q| ==>
      && v'.inodes[q[k]].size == |Chunk(src, k)|
      && v'.blocks[q[k]] == Overwrite(v.blocks[q[k]], Chunk(src, k))
  }

  /** What a successful store leaves behind, stated without the loop: the
      selected descriptors form one chain in selection order, the first
      carrying the name, every block full except the last, which holds the
      remainder; nothing else changes. */
  predicate Stored(v: Vfs, v': Vfs, src: seq<byte>, dest: string)
    requires Valid(v) && Valid(v')
  {
    var q := Selection(v.inodes, |src|);
    && |q| == NodesRequired(|src|) > 0
    && v'.numNodes == v.numNodes
    && StoredFrame(v, v', q)
    && StoredLinks(v, v', q, dest)
    && StoredData(v, v', q, src)
  }

  lemma CommitStores(v: Vfs, src: seq<byte>, dest: string)
    requires Selectable(v, Selection(v.inodes, |src|), src)
    ensures Valid(Commit(v, Selection(v.inodes, |src|), src, dest))
    ensures Stored(v, Commit(v, Selection(v.inodes, |src|), src, dest), src, dest)
  {
    var q := Selection(v.inodes, |src|);
    var v' := Commit(v, q, src, dest);
    assert q[..|q|] == q;
    CommitFrame(v, q, src, dest);
    CommitLinks(v, q, src, dest);
    CommitData(v, q, src, dest);
  }

  lemma CommitFrame(v: Vfs, q: seq<nat>, src: seq<byte>, dest: string)
    requires Selectable(v, q, src)
    ensures Valid(Commit(v, q, src, dest)) && Commit(v, q, src, dest).numNodes == v.numNodes
    ensures StoredFrame(v, Commit(v, q, src, dest), q)
  {
    BuildSpec(v, q, src, |q|);
    assert q[..|q|] == q;
  }

  lemma CommitLinks(v: Vfs, q: seq<nat>, src: seq<byte>, dest: string)
    requires Selectable(v, q, src)
    ensures Valid(Commit(v, q, src, dest)) && Commit(v, q, src, dest).numNodes == v.numNodes
    ensures StoredLinks(v, Commit(v, q, src, dest), q, dest)
  {
    var v' := Commit(v, q, src, dest);
    BuildSpec(v, q, src, |q|);
    forall k | 0 < k < |q|
      ensures v'.inodes[q[k]].flags == IN_USE && v'.inodes[q[k]].name == v.inodes[q[k]].name
    {
      assert q[k] != q[0];
    }
  }

  lemma CommitData(v: Vfs, q: seq<nat>, src: seq<byte>, dest: string)
    requires Selectable(v, q, src)
    ensures Valid(Commit(v, q, src, dest)) && Commit(v, q, src, dest).numNodes == v.numNodes
    ensures StoredData(v, Commit(v, q, src, dest), q, src)
  {
    forall k | 0 <= k < |q|
      ensures Commit(v, q, src, dest).inodes[q[k]].size == |Chunk(src, k)|
      ensures Commit(v, q, src, dest).blocks[q[k]] == Overwrite(v.blocks[q[k]], Chunk(src, k))
    {
      CommitAt(v, q, src, dest, k);
    }
  }

  lemma CommitAt(v: Vfs, q: seq<nat>, src: seq<byte>, dest: string, k: nat)
    requires Selectable(v, q, src) && k < |q|
    ensures Commit(v, q, src, dest).inodes[q[k]].size == |Chunk(src, k)|
    ensures Commit(v, q, src, dest).blocks[q[k]] == Overwrite(v.blocks[q[k]], Chunk(src, k))
  {
    BuildSpec(v, q, src, |q|);
    var b := Build(v, q, src, |q|);
    assert b.inodes[q[k]] == Link(v.inodes[q[k]], q, src, k);
  }

  /** `copyTo(vfs, src_name, dest_name)`. `src` is the host file's content,
      or None when it cannot be opened. A zero-length source makes the
      source index a zero-length queue, so it is excluded here. */
  function CopyTo(v: Vfs, src: Option<seq<byte>>, dest: string): (r: (Status, Vfs))
    requires Valid(v)
    requires src.Some? ==> |src.value| > 0
    ensures Valid(r.1)
    ensures r.0 == WrongName <==> !NameAvailable(v.inodes, dest)
    ensures r.0 == FileOpening <==> NameAvailable(v.inodes, dest) && src.None?
    ensures r.0 == NotEnoughSpace <==>
      NameAvailable(v.inodes, dest) && src.Some? && |FreeSet(v.inodes)| < NodesRequired(|src.value|)
    ensures r.0 == Success <==>
      NameAvailable(v.inodes, dest) && src.Some? && NodesRequired(|src.value|) <= |FreeSet(v.inodes)|
    ensures r.0 != Success ==> r.1 == v
    ensures r.0 == Success ==> src.Some? && Stored(v, r.1, src.value, dest)
  {
    var status := Precheck(v, src, dest);
    ScanCount(v.inodes, if src.Some? then NodesRequired(|src.value|) else 0);
    if status != Success then (status, v)
    else
      var q := Selection(v.inodes, |src.value|);
      AscendingBound(q, v.numNodes);
      CommitStores(v, src.value, dest);
      (Success, Commit(v, q, src.value, dest))
  }
}

/** The invariants `copyTo` keeps. */
module StoreInvariants {
  import opened Types
  import opened Chains
  import opened Store

  /** `ins'` is `ins` with the free descriptors `q` turned into one new file
      named `dest`, whose name matched no file before. */
  predicate NewChain(ins: seq<Inode>, ins': seq<Inode>, q: seq<nat>, dest: string)
  {
    && |ins'| == |ins|
    && |q| > 0
    && Ascending(q)
    && (forall k :: 0 <= k < |q| ==> q[k] < |ins| && !InUse(ins[q[k]]))
    && (forall x :: 0 <= x < |ins| && x !in q ==> ins'[x] == ins[x])
    && IsHead(ins'[q[0]])
    && ins'[q[0]].name == CName(dest)
    && (forall k :: 0 < k < |q| ==> InUse(ins'[q[k]]) && !IsStart(ins'[q[k]]))
    && (forall k :: 0 <= k < |q| ==> ins'[q[k]].size <= BLOCK_SIZE)
    && (forall k :: 0 <= k < |q| ==> ins'[q[k]].next == NextIn(q, k))
    && (forall j :: 0 <= j < |ins| ==> !HeadNamed(ins[j], dest))
  }

  lemma StoredIsNewChain(v: Vfs, v': Vfs, src: seq<byte>, dest: string)
    requires Valid(v) && Valid(v')
    requires Stored(v, v', src, dest)
    requires NameAvailable(v.inodes, dest)
    ensures NewChain(v.inodes, v'.inodes, Selection(v.inodes, |src|), dest)
  {
    var q := Selection(v.inodes, |src|);
    assert StoredLinks(v, v', q, dest);
    assert StoredData(v, v', q, src);
    forall k | 0 <= k < |q|
      ensures v'.inodes[q[k]].size <= BLOCK_SIZE
    {
      assert k + 1 == |q| ==> |src| - k * BLOCK_SIZE <= BLOCK_SIZE;
    }
    forall k | 0 < k < |q|
      ensures InUse(v'.inodes[q[k]]) && !IsStart(v'.inodes[q[k]])
    {
      assert v'.inodes[q[k]].flags == IN_USE;
    }
    assert IsHead(v'.inodes[q[0]]) by {
      assert v'.inodes[q[0]].flags == IN_USE | IS_START;
    }
  }

  /** The new file's chain is exactly the selection, and it is proper. */
  lemma NewChainIsSelection(ins: seq<Inode>, ins': seq<Inode>, q: seq<nat>, dest: string)
    requires NewChain(ins, ins', q, dest)
    ensures Chain(ins', q[0]) == q
    ensures ProperChain(ins', q)
  {
    AscendingBound(q, |ins|);
    assert Distinct(q);
    assert forall k :: 0 <= k < |q| ==> InUse(ins'[q[k]]);
    LaidOutChain(ins', q);
  }

  /** An existing file keeps its chain, block for block. */
  lemma OldChainKept(ins: seq<Inode>, ins': seq<Inode>, q: seq<nat>, dest: string, h: nat)
    requires NewChain(ins, ins', q, dest)
    requires HeadsHaveChains(ins)
    requires h < |ins| && IsHead(ins[h])
    ensures h !in q
    ensures Chain(ins', h) == Chain(ins, h)
    ensures ProperChain(ins', Chain(ins, h))
    ensures Disjoint(Chain(ins, h), q) && Disjoint(q, Chain(ins, h))
  {
    var c := Chain(ins, h);
    assert ProperChain(ins, c);
    assert forall x :: x in c ==> x !in q;
    ChainFrame(ins, ins', h, Elems(q));
  }

  /** The files of the new table: the new one, and the old ones. */
  lemma HeadsAfterStore(ins: seq<Inode>, ins': seq<Inode>, q: seq<nat>, dest: string, x: nat)
    requires NewChain(ins, ins', q, dest)
    requires x < |ins|
    ensures IsHead(ins'[x]) <==> x == q[0] || (x !in q && IsHead(ins[x]))
  {
    if x in q {
      var k :| 0 <= k < |q| && q[k] == x;
      assert k > 0 ==> !IsStart(ins'[q[k]]);
    }
  }

  /** Every selected descriptor is in use once the new file is stored. */
  lemma SelectedInUse(ins: seq<Inode>, ins': seq<Inode>, q: seq<nat>, dest: string)
    requires NewChain(ins, ins', q, dest)
    ensures forall x :: x in q ==> x < |ins'| && InUse(ins'[x])
  {
    assert forall k :: 0 <= k < |q| ==> InUse(ins'[q[k]]);
  }

  lemma NewHeadsHaveChains(ins: seq<Inode>, ins': seq<Inode>, q: seq<nat>, dest: string)
    requires NewChain(ins, ins', q, dest)
    requires HeadsHaveChains(ins)
    ensures HeadsHaveChains(ins')
  {
    forall h | 0 <= h < |ins'| && IsHead(ins'[h])
      ensures ProperChain(ins', Chain(ins', h))
    {
      HeadsAfterStore(ins, ins', q, dest, h);
      if h == q[0] {
        NewChainIsSelection(ins, ins', q, dest);
      } else {
        OldChainKept(ins, ins', q, dest, h);
      }
    }
  }

  lemma NewChainsDisjoint(ins: seq<Inode>, ins': seq<Inode>, q: seq<nat>, dest: string)
    requires NewChain(ins, ins', q, dest)
    requires HeadsHaveChains(ins) && ChainsDisjoint(ins)
    ensures ChainsDisjoint(ins')
  {
    forall h1, h2 | 0 <= h1 < |ins'| && 0 <= h2 < |ins'| && h1 != h2 && IsHead(ins'[h1]) && IsHead(ins'[h2])
      ensures Disjoint(Chain(ins', h1), Chain(ins', h2))
    {
      NewChainIsSelection(ins, ins', q, dest);
      HeadsAfterStore(ins, ins', q, dest, h1);
      HeadsAfterStore(ins, ins', q, dest, h2);
      if h1 != q[0] {
        OldChainKept(ins, ins', q, dest, h1);
      }
      if h2 != q[0] {
        OldChainKept(ins, ins', q, dest, h2);
      }
    }
  }

  lemma NewInUseOwned(ins: seq<Inode>, ins': seq<Inode>, q: seq<nat>, dest: string)
    requires NewChain(ins, ins', q, dest)
    requires HeadsHaveChains(ins) && InUseOwned(ins)
    ensures InUseOwned(ins')
  {
    forall i | 0 <= i < |ins'| && InUse(ins'[i])
      ensures OnSomeChain(ins', i)
    {
      OwnedAfterStore(ins, ins', q, dest, i);
    }
  }

  lemma OwnedAfterStore(ins: seq<Inode>, ins': seq<Inode>, q: seq<nat>, dest: string, i: nat)
    requires NewChain(ins, ins', q, dest)
    requires HeadsHaveChains(ins) && InUseOwned(ins)
    requires i < |ins'| && InUse(ins'[i])
    ensures OnSomeChain(ins', i)
  {
    if i in q {
      OwnedByNew(ins, ins', q, dest, i);
    } else {
      assert ins'[i] == ins[i];
      OwnedByOld(ins, ins', q, dest, i);
    }
  }

  lemma OwnedByNew(ins: seq<Inode>, ins': seq<Inode>, q: seq<nat>, dest: string, i: nat)
    requires NewChain(ins, ins', q, dest)
    requires i in q
    ensures OnSomeChain(ins', i)
  {
    NewChainIsSelection(ins, ins', q, dest);
    assert IsHead(ins'[q[0]]);
    assert i in Chain(ins', q[0]);
  }

  lemma OwnedByOld(ins: seq<Inode>, ins': seq<Inode>, q: seq<nat>, dest: string, i: nat)
    requires NewChain(ins, ins', q, dest)
    requires HeadsHaveChains(ins)
    requires OnSomeChain(ins, i)
    ensures OnSomeChain(ins', i)
  {
    var h :| 0 <= h < |ins| && IsHead(ins[h]) && i in Chain(ins, h);
    OldChainKept(ins, ins', q, dest, h);
    HeadsAfterStore(ins, ins', q, dest, h);
    assert i in Chain(ins', h);
  }

  lemma NewNamesUnique(ins: seq<Inode>, ins': seq<Inode>, q: seq<nat>, dest: string)
    requires NewChain(ins, ins', q, dest)
    requires NamesUnique(ins)
    ensures NamesUnique(ins')
  {
    StoredNameMatches(dest);
    forall h1, h2 | 0 <= h1 < |ins'| && 0 <= h2 < |ins'| && h1 != h2 && IsHead(ins'[h1]) && IsHead(ins'[h2])
      ensures !NamesMatch(ins'[h1].name, ins'[h2].name)
    {
      HeadsAfterStore(ins, ins', q, dest, h1);
      HeadsAfterStore(ins, ins', q, dest, h2);
      if h1 == q[0] {
        assert !HeadNamed(ins[h2], dest);
      } else if h2 == q[0] {
        assert !HeadNamed(ins[h1], dest);
      }
    }
  }

  lemma NewChainWellFormed(ins: seq<Inode>, ins': seq<Inode>, q: seq<nat>, dest: string)
    requires NewChain(ins, ins', q, dest)
    requires WellFormed(ins)
    ensures WellFormed(ins')
  {
    NewHeadsHaveChains(ins, ins', q, dest);
    NewChainsDisjoint(ins, ins', q, dest);
    NewInUseOwned(ins, ins', q, dest);
    NewNamesUnique(ins, ins', q, dest);
  }

  /** `copyTo` keeps the table well formed, whatever it returns. */
  lemma CopyToPreservesWellFormed(v: Vfs, src: Option<seq<byte>>, dest: string)
    requires Valid(v) && WellFormed(v.inodes)
    requires src.Some? ==> |src.value| > 0
    ensures WellFormed(CopyTo(v, src, dest).1.inodes)
  {
    var r := CopyTo(v, src, dest);
    if r.0 == Success {
      StoredIsNewChain(v, r.1, src.value, dest);
      NewChainWellFormed(v.inodes, r.1.inodes, Selection(v.inodes, |src.value|), dest);
    }
  }

  /** Storing a new file takes exactly its blocks out of the free pool. */
  lemma NewChainFreeSet(ins: seq<Inode>, ins': seq<Inode>, q: seq<nat>, dest: string)
    requires NewChain(ins, ins', q, dest)
    ensures FreeSet(ins') == FreeSet(ins) - Elems(q)
    ensures |FreeSet(ins')| == |FreeSet(ins)| - |q|
  {
    SelectedInUse(ins, ins', q, dest);
    assert FreeSet(ins') == FreeSet(ins) - Elems(q);
    assert Elems(q) <= FreeSet(ins);
    AscendingBound(q, |ins|);
    DistinctCard(q);
    assert FreeSet(ins) == (FreeSet(ins) - Elems(q)) + Elems(q);
  }

  /** A successful store takes exactly its blocks from the free pool; any
      other outcome leaves the pool alone. */
  lemma CopyToFreeCount(v: Vfs, src: Option<seq<byte>>, dest: string)
    requires Valid(v)
    requires src.Some? ==> |src.value| > 0
    ensures var r := CopyTo(v, src, dest);
      r.0 == Success ==> |FreeSet(r.1.inodes)| == |FreeSet(v.inodes)| - NodesRequired(|src.value|)
    ensures var r := CopyTo(v, src, dest);
      r.0 != Success ==> FreeSet(r.1.inodes) == FreeSet(v.inodes)
  {
    var r := CopyTo(v, src, dest);
    if r.0 == Success {
      StoredIsNewChain(v, r.1, src.value, dest);
      NewChainFreeSet(v.inodes, r.1.inodes, Selection(v.inodes, |src.value|), dest);
    }
  }

  /** Blocks of free descriptors stay zero across `copyTo`. */
  lemma CopyToKeepsFreeBlocksZero(v: Vfs, src: Option<seq<byte>>, dest: string)
    requires Valid(v) && FreeBlocksZero(v)
    requires src.Some? ==> |src.value| > 0
    ensures FreeBlocksZero(CopyTo(v, src, dest).1)
  {
    var r := CopyTo(v, src, dest);
    if r.0 == Success {
      var q := Selection(v.inodes, |src.value|);
      StoredIsNewChain(v, r.1, src.value, dest);
      assert StoredFrame(v, r.1, q);
      SelectedInUse(v.inodes, r.1.inodes, q, dest);
    }
  }
}
