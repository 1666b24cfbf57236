/** Where things live in the image file: a header, a table of N descriptors,
    then N data blocks, with N derived from the image size. */
module Layout {
  import opened Types

  /** sizeof(Superblock): one unsigned int. */
  const SUPERBLOCK_SIZE: nat := 4
  /** sizeof(Inode): flags (4) + name (MAX_NAME) + size (4) + next_node (4). */
  const INODE_SIZE: nat := 4 + MAX_NAME + 4 + 4
  /** Bytes each descriptor/data-block pair takes. */
  const NODE_STRIDE: nat := INODE_SIZE + BLOCK_SIZE

  /** The block count `openVFS` derives from the image size: the number of
      whole descriptor/block pairs that fit after the header (rounded down). */
  function NodesAtOpen(size: nat): (n: nat)
    requires size >= SUPERBLOCK_SIZE
    ensures SUPERBLOCK_SIZE + n * NODE_STRIDE <= size < SUPERBLOCK_SIZE + (n + 1) * NODE_STRIDE
  {
    (size - SUPERBLOCK_SIZE) / NODE_STRIDE
  }

  /** The block count `createVFS` derives from the same size: rounded up, so a
      partial pair left at the end of the image still counts as one. */
  function NodesAtCreate(size: nat): (n: nat)
    requires size >= SUPERBLOCK_SIZE
    ensures SUPERBLOCK_SIZE + (n - 1) * NODE_STRIDE < size <= SUPERBLOCK_SIZE + n * NODE_STRIDE
  {
    var usable := size - SUPERBLOCK_SIZE;
    if usable % NODE_STRIDE == 0 then usable / NODE_STRIDE else usable / NODE_STRIDE + 1
  }

  /** Byte offset of data block `i` in an image laid out for `n` blocks:
      past the header and the whole table, and, for one of the `n` blocks,
      ending within the `n` descriptor/block pairs after the header. */
  function DataOffset(n: nat, i: nat): (r: nat)
    ensures r >= SUPERBLOCK_SIZE + INODE_SIZE * n
    ensures i < n ==> r + BLOCK_SIZE <= SUPERBLOCK_SIZE + n * NODE_STRIDE
  {
    SUPERBLOCK_SIZE + INODE_SIZE * n + BLOCK_SIZE * i
  }

  /** The largest `int`. */
  const INT_MAX: nat := 0x7fff_ffff

  /** The offset of data block `i` as VirtualFS.c:213, :250 and :286 compute
      it: `BLOCK_SIZE * i` is an `int` product, which overflows (undefined
      behaviour, None here) from block index 2^19 = 524288 on. */
  function IntDataOffset(n: nat, i: nat): (r: Option<nat>)
    ensures r.Some? <==> i < 0x8_0000
    ensures r.Some? ==> r.value == DataOffset(n, i)
  {
    if BLOCK_SIZE * i <= INT_MAX then Some(DataOffset(n, i)) else None
  }

  /** Under the open-time count, the table and every data block lie inside
      the image, each block after the table. */
  lemma OpenLayoutFits(size: nat, i: nat)
    requires size >= SUPERBLOCK_SIZE
    requires i < NodesAtOpen(size)
    ensures SUPERBLOCK_SIZE + INODE_SIZE * NodesAtOpen(size) <= DataOffset(NodesAtOpen(size), i)
    ensures DataOffset(NodesAtOpen(size), i) + BLOCK_SIZE <= size
  {
    var n := NodesAtOpen(size);
    assert BLOCK_SIZE * i + BLOCK_SIZE <= BLOCK_SIZE * n;
  }

  /** Distinct blocks occupy disjoint byte ranges. */
  lemma BlocksDisjoint(n: nat, i: nat, j: nat)
    requires i < j
    ensures DataOffset(n, i) + BLOCK_SIZE <= DataOffset(n, j)
  {
  }

  /** The two rounding rules agree exactly when the space after the header
      is a whole number of pairs; otherwise creation counts one block more. */
  lemma CreateCountVersusOpenCount(size: nat)
    requires size >= SUPERBLOCK_SIZE
    ensures (size - SUPERBLOCK_SIZE) % NODE_STRIDE == 0 ==> NodesAtCreate(size) == NodesAtOpen(size)
    ensures (size - SUPERBLOCK_SIZE) % NODE_STRIDE != 0 ==> NodesAtCreate(size) == NodesAtOpen(size) + 1
  {
  }

  /** When the counts disagree, the last data block of the create-time layout
      runs past the end of the image, and every block of that layout sits
      INODE_SIZE bytes later than the block with the same index at open time. */
  lemma CreateLayoutOverruns(size: nat, i: nat)
    requires size >= SUPERBLOCK_SIZE
    requires (size - SUPERBLOCK_SIZE) % NODE_STRIDE != 0
    ensures NodesAtCreate(size) >= 1
    ensures DataOffset(NodesAtCreate(size), NodesAtCreate(size) - 1) + BLOCK_SIZE > size
    ensures DataOffset(NodesAtCreate(size), i) == DataOffset(NodesAtOpen(size), i) + INODE_SIZE
  {
    CreateCountVersusOpenCount(size);
  }

  /** When the counts disagree, the open-time data region starts exactly at
      the last descriptor record `createVFS` lays out: block 0 as `openVFS`
      sees it begins with that record's bytes. */
  lemma LastCreateRecordIsFirstOpenBlock(size: nat)
    requires size >= SUPERBLOCK_SIZE
    requires (size - SUPERBLOCK_SIZE) % NODE_STRIDE != 0
    ensures NodesAtCreate(size) >= 1
    ensures SUPERBLOCK_SIZE + INODE_SIZE * (NodesAtCreate(size) - 1) == DataOffset(NodesAtOpen(size), 0)
  {
    CreateCountVersusOpenCount(size);
  }
}
