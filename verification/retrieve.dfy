/** `copyFrom`: write a stored file's blocks out to a host file. */
module Retrieve {
  import opened Types
  import opened Chains

  /** The blocks of `c`, whole, one after the other. */
  function Concat(v: Vfs, c: seq<nat>): (r: seq<byte>)
    requires Valid(v) && forall k :: 0 <= k < |c| ==> c[k] < v.numNodes
    ensures |r| == BLOCK_SIZE * |c|
  {
    if c == [] then [] else Concat(v, c[..|c| - 1]) + v.blocks[c[|c| - 1]]
  }

  /** The `k`-th BLOCK_SIZE bytes of the output are block `c[k]`. */
  lemma {:induction false} ConcatAt(v: Vfs, c: seq<nat>, k: nat)
    requires Valid(v) && forall j :: 0 <= j < |c| ==> c[j] < v.numNodes
    requires k < |c|
    ensures BLOCK_SIZE * (k + 1) <= |Concat(v, c)|
    ensures Concat(v, c)[BLOCK_SIZE * k .. BLOCK_SIZE * (k + 1)] == v.blocks[c[k]]
    decreases |c|
  {
    var p := c[..|c| - 1];
    assert Concat(v, c) == Concat(v, p) + v.blocks[c[|c| - 1]];
    if k < |c| - 1 {
      ConcatAt(v, p, k);
      assert p[k] == c[k];
    }
  }

  /** `copyFrom(vfs, src_name, dest_name)`. `hostDest` is the host path and
      `destOpens` says whether the host can create it. On success the result
      carries the host file's new content: empty when no file matches
      `name`, otherwise every block of the file's chain in full, including
      the unused tail of its last block. */
  function CopyFrom(v: Vfs, name: string, hostDest: string, destOpens: bool): (r: (Status, Option<seq<byte>>))
    requires Valid(v) && HeadsHaveChains(v.inodes)
    ensures r.0 == WrongName <==> EmptyCString(hostDest)
    ensures r.0 == FileOpening <==> !EmptyCString(hostDest) && !destOpens
    ensures r.0 == Success <==> r.1.Some?
    ensures r.0 == Success <==> !EmptyCString(hostDest) && destOpens
    ensures r.0 == Success && FindHead(v.inodes, name).None? ==> r.1 == Some([])
    ensures r.0 == Success && FindHead(v.inodes, name).Some? ==>
      var c := Chain(v.inodes, FindHead(v.inodes, name).value);
      && |r.1.value| == BLOCK_SIZE * |c|
      && forall k :: 0 <= k < |c| ==> r.1.value[BLOCK_SIZE * k .. BLOCK_SIZE * (k + 1)] == v.blocks[c[k]]
  {
    if EmptyCString(hostDest) then (WrongName, None)
    else if !destOpens then (FileOpening, None)
    else match FindHead(v.inodes, name)
      case None => (Success, Some([]))
      case Some(h) =>
        var c := Chain(v.inodes, h);
        assert ProperChain(v.inodes, c);
        forall k | 0 <= k < |c|
          ensures Concat(v, c)[BLOCK_SIZE * k .. BLOCK_SIZE * (k + 1)] == v.blocks[c[k]]
        {
          ConcatAt(v, c, k);
        }
        (Success, Some(Concat(v, c)))
  }

  /** When the name is found, what is written is the whole chain. */
  lemma CopyFromFound(v: Vfs, name: string, hostDest: string, h: nat)
    requires Valid(v) && HeadsHaveChains(v.inodes)
    requires !EmptyCString(hostDest) && FindHead(v.inodes, name) == Some(h)
    ensures CopyFrom(v, name, hostDest, true) == (Success, Some(Concat(v, Chain(v.inodes, h))))
  {
  }
}
