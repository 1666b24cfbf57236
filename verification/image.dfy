/** `createVFS` and `openVFS`: making a fresh image and checking an image
    before use. The host file itself is not modelled; an image is described
    by its size and its header. */
module Image {
  import opened Types
  import opened Layout
  import opened Chains

  /** A fresh image: the header written at its start, and the handle. */
  datatype Created = Created(header: Superblock, vfs: Vfs)

  /** `createVFS(file_name, size)` for a size of `kb` kilobytes. The image
      is `kb * 1024` zero bytes and the header records that size, cut to an
      `unsigned int`. The block count rounds up. Only the `flags` of the new
      descriptors are set; `uninit` stands for the rest of the
      uninitialised table. */
  function CreateVFS(kb: nat, uninit: int -> Inode): (r: Created)
    requires kb >= 1
    ensures r.header.size == (kb * 1024) % UINT_RANGE
    ensures Valid(r.vfs) && r.vfs.numNodes == NodesAtCreate(kb * 1024)
    ensures forall i :: 0 <= i < r.vfs.numNodes ==> r.vfs.inodes[i].flags == 0
    ensures WellFormed(r.vfs.inodes) && FreeBlocksZero(r.vfs)
    ensures |FreeSet(r.vfs.inodes)| == r.vfs.numNodes
  {
    var n := NodesAtCreate(kb * 1024);
    FreshTable(n, uninit);
    Created(Superblock((kb * 1024) % UINT_RANGE), Vfs(n, seq(n, i => uninit(i).(flags := 0)), seq(n, _ => Zeros(BLOCK_SIZE))))
  }

  /** A table of `n` descriptors whose flags are all clear is well formed
      and entirely free. */
  lemma FreshTable(n: nat, uninit: int -> Inode)
    ensures var ins := seq(n, i => uninit(i).(flags := 0));
      WellFormed(ins) && |FreeSet(ins)| == n
  {
    var ins := seq(n, i => uninit(i).(flags := 0));
    FlagBitsIndependent(0);
    assert forall i :: 0 <= i < n ==> !InUse(ins[i]);
    AllFreeWellFormed(ins);
    AllFreeCount(ins);
  }

  /** When no descriptor is in use, every index is free. */
  lemma AllFreeCount(ins: seq<Inode>)
    requires forall i :: 0 <= i < |ins| ==> !InUse(ins[i])
    ensures |FreeSet(ins)| == |ins|
  {
    var c: seq<nat> := seq(|ins|, i requires 0 <= i => i);
    assert FreeSet(ins) == Elems(c) by {
      forall x: nat | x < |ins| ensures x in Elems(c) {
        assert c[x] == x;
      }
    }
    DistinctCard(c);
  }

  /** `openVFS(file_name)` for an image of `fileSize` bytes whose header
      reads as `header` (None when fewer than 4 bytes can be read). The
      result is the block count of the handle, or None where the source
      returns NULL: no header, a header that does not record the file's
      size (an `unsigned int` never records a size of 4 GiB or more), or a
      table of no descriptors, since reading zero of them counts as a
      failed read. The block count rounds down. */
  function OpenVFS(fileSize: nat, header: Option<Superblock>): (r: Option<nat>)
    ensures r.Some? <==>
      && header.Some? && header.value.size == fileSize
      && SUPERBLOCK_SIZE + NODE_STRIDE <= fileSize
    ensures r.Some? ==> fileSize < UINT_RANGE
    ensures r.Some? ==>
      && r.value >= 1
      && DataOffset(r.value, r.value - 1) + BLOCK_SIZE <= fileSize
      && fileSize < SUPERBLOCK_SIZE + (r.value + 1) * NODE_STRIDE
  {
    if header.None? || fileSize < SUPERBLOCK_SIZE || header.value.size != fileSize then None
    else
      var n := NodesAtOpen(fileSize);
      if n == 0 then None else Some(n)
  }

  /** An image of 524289 descriptor/block pairs, about 2.02 GiB, records
      its size in the header and opens, but the `int` offset of its last
      block overflows. */
  lemma LargeImageOffsetOverflows()
    ensures var size := SUPERBLOCK_SIZE + 524289 * NODE_STRIDE;
      && size < UINT_RANGE
      && OpenVFS(size, Some(Superblock(size))) == Some(524289)
      && IntDataOffset(524289, 524288).None?
  {
  }

  /** With the offset computed in the width of the file size, every block
      of an image `openVFS` accepts lies inside the file, which is under
      4 GiB, so no offset overflows. */
  lemma AcceptedOffsetsInsideImage(fileSize: nat, header: Option<Superblock>, i: nat)
    requires OpenVFS(fileSize, header).Some? && i < OpenVFS(fileSize, header).value
    ensures DataOffset(OpenVFS(fileSize, header).value, i) + BLOCK_SIZE <= fileSize < UINT_RANGE
  {
  }

  /** An image `createVFS` made, opened again: opening succeeds only with
      one block fewer than were created whenever the space after the header
      is not a whole number of descriptor/block pairs, and fails outright
      when that leaves none. */
  lemma CreateThenOpen(kb: nat, uninit: int -> Inode)
    requires 1 <= kb && kb * 1024 < UINT_RANGE
    ensures var c := CreateVFS(kb, uninit);
      var back := OpenVFS(kb * 1024, Some(c.header));
      && ((kb * 1024 - SUPERBLOCK_SIZE) % NODE_STRIDE == 0 ==>
            back == (if c.vfs.numNodes == 0 then None else Some(c.vfs.numNodes)))
      && ((kb * 1024 - SUPERBLOCK_SIZE) % NODE_STRIDE != 0 ==>
            back == (if c.vfs.numNodes == 1 then None else Some(c.vfs.numNodes - 1)))
  {
    CreateCountVersusOpenCount(kb * 1024);
  }

  /** The smallest image: `createVFS` gives it one block, whose data region
      runs 3120 bytes past the end of the 1024-byte file, and `openVFS`
      refuses it. */
  lemma OneKilobyteImageCannotReopen(uninit: int -> Inode)
    ensures CreateVFS(1, uninit).vfs.numNodes == 1
    ensures DataOffset(1, 0) + BLOCK_SIZE == 1024 + 3120
    ensures OpenVFS(1024, Some(CreateVFS(1, uninit).header)).None?
  {
  }

  /** `createVFS` with the block count rounded down, as `openVFS` computes
      it, so that the blocks it announces lie inside the image. */
  function CreateVFSFloor(kb: nat, uninit: int -> Inode): (r: Created)
    requires kb >= 1
    ensures r.header.size == (kb * 1024) % UINT_RANGE
    ensures Valid(r.vfs) && r.vfs.numNodes == NodesAtOpen(kb * 1024)
    ensures WellFormed(r.vfs.inodes) && FreeBlocksZero(r.vfs)
    ensures |FreeSet(r.vfs.inodes)| == r.vfs.numNodes
  {
    var n := NodesAtOpen(kb * 1024);
    FreshTable(n, uninit);
    Created(Superblock((kb * 1024) % UINT_RANGE), Vfs(n, seq(n, i => uninit(i).(flags := 0)), seq(n, _ => Zeros(BLOCK_SIZE))))
  }

  /** With the count rounded down, every block lies inside the image and an
      image with at least one block reopens with the count it was made with. */
  lemma FloorImageReopens(kb: nat, uninit: int -> Inode, i: nat)
    requires 1 <= kb && kb * 1024 < UINT_RANGE
    ensures var c := CreateVFSFloor(kb, uninit);
      && (i < c.vfs.numNodes ==> DataOffset(c.vfs.numNodes, i) + BLOCK_SIZE <= kb * 1024)
      && (c.vfs.numNodes > 0 ==> OpenVFS(kb * 1024, Some(c.header)) == Some(c.vfs.numNodes))
  {
    if i < NodesAtOpen(kb * 1024) {
      OpenLayoutFits(kb * 1024, i);
    }
  }
}
