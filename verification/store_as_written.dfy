/** The copy loop of `copyTo` exactly as VirtualFS.c:210-216 writes it. The
    byte count of each block write is taken from the descriptor indexed by the
    loop counter `i` rather than by `nodes_queue[i]`, and what is written
    comes from a buffer that still holds bytes of earlier reads (or its
    initial contents) beyond the chunk just read. */
module StoreAsWritten {
  import opened Types
  import opened Chains
  import opened Store

  /** The image and the `buff` array as the loop leaves them. */
  datatype CopyLoop = CopyLoop(vfs: Vfs, buff: seq<byte>)

  /** Every descriptor in use records at most a block's worth of bytes,
      as every store writes it; free descriptors' sizes are unconstrained. */
  predicate InUseWithinBlock(ins: seq<Inode>)
  {
    forall x :: 0 <= x < |ins| && InUse(ins[x]) ==> ins[x].size <= BLOCK_SIZE
  }

  /** The selection skips no free descriptor below any index it took, as
      the scan at VirtualFS.c:196-201 guarantees. */
  predicate NoFreeSkipped(ins: seq<Inode>, q: seq<nat>)
  {
    forall k, j :: 0 <= k < |q| && 0 <= j < q[k] && j < |ins| && !InUse(ins[j]) ==> j in q
  }

  /** A well-formed table keeps every size in use within a block. */
  lemma WellFormedSizes(ins: seq<Inode>)
    requires WellFormed(ins)
    ensures InUseWithinBlock(ins)
  {
    forall x | 0 <= x < |ins| && InUse(ins[x])
      ensures ins[x].size <= BLOCK_SIZE
    {
      assert OnSomeChain(ins, x);
      var h :| 0 <= h < |ins| && IsHead(ins[h]) && x in Chain(ins, h);
      assert ProperChain(ins, Chain(ins, h));
    }
  }

  /** After `k` iterations of the loop, table `ins'` has the descriptors
      selected so far in use and every other one as in `ins`. */
  predicate SelectedSoFar(ins: seq<Inode>, ins': seq<Inode>, q: seq<nat>, k: nat)
    requires k <= |q|
  {
    && |ins'| == |ins|
    && (forall x :: 0 <= x < |ins| && x in q[..k] ==> InUse(ins'[x]))
    && (forall x :: 0 <= x < |ins| && x !in q[..k] ==> ins'[x] == ins[x])
  }

  /** On iteration `j` the loop counter names a descriptor that is selected
      on this very iteration or is in use: below the selected index, every
      descriptor was in use or was selected, and so marked, earlier. */
  lemma CounterInUse(ins: seq<Inode>, ins': seq<Inode>, q: seq<nat>, j: nat)
    requires Ascending(q) && j < |q|
    requires forall k :: 0 <= k < |q| ==> q[k] < |ins|
    requires NoFreeSkipped(ins, q)
    requires SelectedSoFar(ins, ins', q, j)
    ensures j < |ins|
    ensures j != q[j] ==> InUse(ins'[j])
  {
    AscendingBound(q, |ins|);
    if j != q[j] {
      if j in q {
        var m :| 0 <= m < |q| && q[m] == j;
        assert m < j;
        assert q[..j][m] == j;
      } else {
        assert j !in q[..j];
      }
    }
  }

  /** Iteration `j` of the loop as written: read the `j`-th chunk into the
      front of `buff`, mark the selected descriptor in use with the chunk's
      length, write as many bytes of `buff` as the descriptor at index `j`
      records, and link to the next selected index. That descriptor is the
      selected one or one in use, so the count is at most a block. */
  function StepAsWritten(p: CopyLoop, q: seq<nat>, src: seq<byte>, j: nat): (r: CopyLoop)
    requires Valid(p.vfs) && |p.buff| == BLOCK_SIZE && InUseWithinBlock(p.vfs.inodes)
    requires j < |q| == NodesRequired(|src|) && q[j] < p.vfs.numNodes && j < p.vfs.numNodes
    requires j != q[j] ==> InUse(p.vfs.inodes[j])
    ensures Valid(r.vfs) && r.vfs.numNodes == p.vfs.numNodes
    ensures |r.buff| == BLOCK_SIZE && InUseWithinBlock(r.vfs.inodes)
    ensures r.vfs.inodes == p.vfs.inodes[q[j] := Link(p.vfs.inodes[q[j]], q, src, j)]
  {
    var i := q[j];
    var c := Chunk(src, j);
    var buff := Overwrite(p.buff, c);
    var ins1 := p.vfs.inodes[i := p.vfs.inodes[i].(flags := IN_USE, size := |c|)];
    var count := ins1[j].size;
    var blocks := p.vfs.blocks[i := Overwrite(p.vfs.blocks[i], buff[..count])];
    var ins2 := ins1[i := ins1[i].(next := NextIn(q, j))];
    CopyLoop(Vfs(p.vfs.numNodes, ins2, blocks), buff)
  }

  /** The state after the first `k` iterations of the loop as written. */
  function LoopAsWritten(v: Vfs, q: seq<nat>, src: seq<byte>, buff0: seq<byte>, k: nat): (r: CopyLoop)
    requires Selectable(v, q, src) && k <= |q|
    requires |buff0| == BLOCK_SIZE && InUseWithinBlock(v.inodes) && NoFreeSkipped(v.inodes, q)
    ensures Valid(r.vfs) && r.vfs.numNodes == v.numNodes
    ensures |r.buff| == BLOCK_SIZE && InUseWithinBlock(r.vfs.inodes)
    decreases k, 0
  {
    if k == 0 then CopyLoop(v, buff0)
    else
      var p := LoopAsWritten(v, q, src, buff0, k - 1);
      AscendingBound(q, v.numNodes);
      LoopSelected(v, q, src, buff0, k - 1);
      CounterInUse(v.inodes, p.vfs.inodes, q, k - 1);
      StepAsWritten(p, q, src, k - 1)
  }

  /** After `k` iterations of the loop as written the descriptors selected
      so far are in use and every other one is as it was. */
  lemma {:induction false} LoopSelected(v: Vfs, q: seq<nat>, src: seq<byte>, buff0: seq<byte>, k: nat)
    requires Selectable(v, q, src) && k <= |q|
    requires |buff0| == BLOCK_SIZE && InUseWithinBlock(v.inodes) && NoFreeSkipped(v.inodes, q)
    ensures SelectedSoFar(v.inodes, LoopAsWritten(v, q, src, buff0, k).vfs.inodes, q, k)
    decreases k, 2
  {
    if k > 0 {
      LoopSelected(v, q, src, buff0, k - 1);
      LoopStep(v, q, src, buff0, k);
      var p := LoopAsWritten(v, q, src, buff0, k - 1).vfs.inodes;
      var i := q[k - 1];
      SelectedStep(v.inodes, p, LoopAsWritten(v, q, src, buff0, k).vfs.inodes, q, k, Link(p[i], q, src, k - 1));
    }
  }

  /** Marking the `k`-th selected descriptor in use extends the selection
      made so far by one. */
  lemma SelectedStep(ins: seq<Inode>, a: seq<Inode>, b: seq<Inode>, q: seq<nat>, k: nat, l: Inode)
    requires 0 < k <= |q| && q[k - 1] < |ins|
    requires SelectedSoFar(ins, a, q, k - 1)
    requires InUse(l) && b == a[q[k - 1] := l]
    ensures SelectedSoFar(ins, b, q, k)
  {
    assert q[..k] == q[..k - 1] + [q[k - 1]];
  }

  /** Iteration `k` of the loop as written links the `k`-th selected
      descriptor and changes no other descriptor. */
  lemma LoopStep(v: Vfs, q: seq<nat>, src: seq<byte>, buff0: seq<byte>, k: nat)
    requires Selectable(v, q, src) && 0 < k <= |q|
    requires |buff0| == BLOCK_SIZE && InUseWithinBlock(v.inodes) && NoFreeSkipped(v.inodes, q)
    ensures var p := LoopAsWritten(v, q, src, buff0, k - 1).vfs.inodes; var i := q[k - 1];
      LoopAsWritten(v, q, src, buff0, k).vfs.inodes == p[i := Link(p[i], q, src, k - 1)]
    decreases k, 1
  {
  }

  /** The descriptor table the loop as written leaves is the one the
      corrected loop leaves: only the data blocks differ. */
  lemma {:induction false} LoopAsWrittenTable(v: Vfs, q: seq<nat>, src: seq<byte>, buff0: seq<byte>, k: nat)
    requires Selectable(v, q, src) && k <= |q|
    requires |buff0| == BLOCK_SIZE && InUseWithinBlock(v.inodes) && NoFreeSkipped(v.inodes, q)
    ensures LoopAsWritten(v, q, src, buff0, k).vfs.inodes == Build(v, q, src, k).inodes
    decreases k
  {
    if k > 0 {
      LoopAsWrittenTable(v, q, src, buff0, k - 1);
      LoopStep(v, q, src, buff0, k);
      BuildStep(v, q, src, k);
    }
  }

  /** `copyTo` as written: the same checks, the loop above, then the start
      flag and the name on the first selected block. `buff0` is the
      uninitialised `buff` array. The table only needs its in-use sizes
      within a block, which every well-formed table has (`WellFormedSizes`). */
  function CopyToAsWritten(v: Vfs, src: Option<seq<byte>>, dest: string, buff0: seq<byte>): (r: (Status, Vfs))
    requires Valid(v) && InUseWithinBlock(v.inodes)
    requires src.Some? ==> |src.value| > 0
    requires |buff0| == BLOCK_SIZE
    ensures Valid(r.1)
    ensures r.0 == CopyTo(v, src, dest).0
    ensures r.0 != Success ==> r.1 == v
    ensures r.1.inodes == CopyTo(v, src, dest).1.inodes
  {
    var status := Precheck(v, src, dest);
    if status != Success then (status, v)
    else
      var q := Selection(v.inodes, |src.value|);
      ScanCount(v.inodes, NodesRequired(|src.value|));
      AscendingBound(q, v.numNodes);
      LoopAsWrittenTable(v, q, src.value, buff0, |q|);
      var b := LoopAsWritten(v, q, src.value, buff0, |q|).vfs;
      var h := q[0];
      (Success, b.(inodes := b.inodes[h := b.inodes[h].(flags := b.inodes[h].flags | IS_START, name := CName(dest))]))
  }

  /** When the selection is the first blocks of the table in order, the loop
      counter and the selected index coincide, and the loop as written
      stores what the corrected loop stores. */
  lemma {:induction false} LoopAsWrittenAligned(v: Vfs, q: seq<nat>, src: seq<byte>, buff0: seq<byte>, k: nat)
    requires Selectable(v, q, src) && k <= |q|
    requires |buff0| == BLOCK_SIZE && InUseWithinBlock(v.inodes)
    requires forall j :: 0 <= j < |q| ==> q[j] == j
    ensures NoFreeSkipped(v.inodes, q)
    ensures LoopAsWritten(v, q, src, buff0, k).vfs == Build(v, q, src, k)
    decreases k
  {
    assert NoFreeSkipped(v.inodes, q) by {
      forall k', j | 0 <= k' < |q| && 0 <= j < q[k'] ensures j in q {
        assert q[j] == j;
      }
    }
    if k > 0 {
      LoopAsWrittenAligned(v, q, src, buff0, k - 1);
      LoopAsWrittenTable(v, q, src, buff0, k);
      BuildStep(v, q, src, k);
      var p := LoopAsWritten(v, q, src, buff0, k - 1);
      var c := Chunk(src, k - 1);
      var buff := Overwrite(p.buff, c);
      assert buff[..|c|] == c;
    }
  }

  /** A table with one file "a" of ten bytes in block 0 and block 1 free
      and zero. */
  function Witness(): Vfs
  {
    Vfs(2, [Inode(IN_USE | IS_START, "a", 10, -1), Inode(0, "", 0, 0)], [Zeros(BLOCK_SIZE), Zeros(BLOCK_SIZE)])
  }

  /** A source that fills exactly one block with the byte 7. */
  function Sevens(): (r: seq<byte>)
    ensures |r| == BLOCK_SIZE
    ensures forall k :: 0 <= k < |r| ==> r[k] == 7
  {
    seq(BLOCK_SIZE, _ => 7)
  }

  /** The witness table is a reachable one: valid, well formed, free blocks
      zero. */
  lemma WitnessWellFormed()
    ensures Valid(Witness()) && FreeBlocksZero(Witness()) && InUseWithinBlock(Witness().inodes)
    ensures WellFormed(Witness().inodes)
  {
    var ins := Witness().inodes;
    WitnessFlags();
    assert Chain(ins, 0) == [0] by {
      assert Walk(ins, -1, 1) == [];
    }
    assert ProperChain(ins, [0]);
    assert forall h :: 0 <= h < |ins| && IsHead(ins[h]) ==> h == 0;
  }

  /** Block 0 starts a file, block 1 is free. */
  lemma WitnessFlags()
    ensures IsHead(Witness().inodes[0]) && !InUse(Witness().inodes[1])
  {
    FlagBitsIndependent(0);
  }

  /** Storing the witness source as "b" selects block 1 alone. */
  lemma WitnessSelection()
    ensures Valid(Witness()) && InUseWithinBlock(Witness().inodes)
    ensures Selection(Witness().inodes, BLOCK_SIZE) == [1]
    ensures Precheck(Witness(), Some(Sevens()), "b") == Success
  {
    var ins := Witness().inodes;
    FlagBitsIndependent(0);
    assert InUse(ins[0]) && !InUse(ins[1]);
    assert NodesRequired(BLOCK_SIZE) == 1;
    assert Scan(ins, 1, 1) == [1];
    assert !NamesMatch("a", "b") by {
      UpToNulOfNulFree("a");
      UpToNulOfNulFree("b");
    }
    assert FindHead(ins, "b").None?;
  }

  /** Storing the witness source as "b": the new file's only block is block
      1, but the loop counter is 0 on that iteration, so the count comes from
      block 0's descriptor (10 bytes) and only the first ten of the 4096
      bytes reach the image, while the descriptor records 4096. */
  lemma AsWrittenLosesData(buff0: seq<byte>)
    requires |buff0| == BLOCK_SIZE
    ensures Valid(Witness()) && InUseWithinBlock(Witness().inodes)
    ensures var r := CopyToAsWritten(Witness(), Some(Sevens()), "b", buff0);
      && r.0 == Success
      && r.1.inodes[1].size == BLOCK_SIZE
      && r.1.blocks[1][10] == 0
  {
    WitnessSelection();
    var v := Witness();
    var q := [1];
    var c := Chunk(Sevens(), 0);
    var l := LoopAsWritten(v, q, Sevens(), buff0, 1);
    assert LoopAsWritten(v, q, Sevens(), buff0, 0).vfs == v;
    var buff := Overwrite(buff0, c);
    assert l.vfs.blocks[1] == Overwrite(v.blocks[1], buff[..10]);
  }

  /** The corrected `CopyTo` stores the whole witness block. */
  lemma CorrectedKeepsData()
    ensures Valid(Witness())
    ensures var r := CopyTo(Witness(), Some(Sevens()), "b");
      && r.0 == Success
      && r.1.inodes[1].size == BLOCK_SIZE
      && r.1.blocks[1] == Sevens()
  {
    WitnessSelection();
    var v := Witness();
    var q := [1];
    CommitAt(v, q, Sevens(), "b", 0);
    assert Chunk(Sevens(), 0) == Sevens();
  }
}
