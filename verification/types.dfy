/** The records and constants of the virtual file system image (VirtualFS.h),
    and the C string conventions the operations use on file names. */
module Types {

  type byte = x: int | 0 <= x < 256

  /** Longest file name a descriptor can hold (the `name` array's capacity). */
  const MAX_NAME: nat := 32
  /** Size of every data block in bytes. */
  const BLOCK_SIZE: nat := 4096
  /** Flag bit: the descriptor (and its block) belongs to some file. */
  const IN_USE: bv32 := 1
  /** Flag bit: the descriptor is the first block of a file and carries its name. */
  const IS_START: bv32 := 2

  datatype Option<T> = None | Some(value: T)

  /** The codes the operations return (EXIT_SUCCESS and the four error constants). */
  datatype Status = Success | WrongName | FileOpening | NotEnoughSpace | FileNotFound
  {
    function Code(): (c: int)
      ensures c == 0 <==> this == Success
      ensures -4 <= c <= 0
    {
      match this
      case Success => 0
      case WrongName => -1
      case FileOpening => -2
      case NotEnoughSpace => -3
      case FileNotFound => -4
    }
  }

  /** One past the largest `unsigned int`: arithmetic on it wraps modulo
      this. */
  const UINT_RANGE: nat := 0x1_0000_0000

  /** The values an `unsigned int` holds. */
  type uint32 = x: nat | x < UINT_RANGE

  /** The image header: the total image size in bytes, as an `unsigned int`. */
  datatype Superblock = Superblock(size: uint32)

  /** One block descriptor. `name` is the C string held in the 32-char array,
      each `char` standing for one byte of it (so the MAX_NAME cut counts
      bytes); `next` is the index of the following block of the file, or -1. */
  datatype Inode = Inode(flags: bv32, name: string, size: nat, next: int)

  /** An open image: the descriptor table held by the handle, and the data
      region of the image file seen as `numNodes` blocks. */
  datatype Vfs = Vfs(numNodes: nat, inodes: seq<Inode>, blocks: seq<seq<byte>>)

  /** The handle's table and the data region both have exactly `numNodes`
      entries, and every data block is BLOCK_SIZE bytes long. */
  predicate Valid(v: Vfs)
  {
    && |v.inodes| == v.numNodes
    && |v.blocks| == v.numNodes
    && forall i :: 0 <= i < |v.blocks| ==> |v.blocks[i]| == BLOCK_SIZE
  }

  predicate InUse(n: Inode) { n.flags & IN_USE != 0 }

  predicate IsStart(n: Inode) { n.flags & IS_START != 0 }

  /** The test every lookup by name applies first: both flag bits set. */
  predicate IsHead(n: Inode) { InUse(n) && IsStart(n) }

  function Zeros(n: nat): (r: seq<byte>)
    ensures |r| == n
    ensures forall k :: 0 <= k < n ==> r[k] == 0
  {
    seq(n, _ => 0)
  }

  /** The two flag bits are distinct single bits: clearing one leaves the
      other as it was. */
  lemma FlagBitsIndependent(f: bv32)
    ensures IN_USE & IS_START == 0
    ensures (f & !IS_START) & IN_USE == f & IN_USE
    ensures (f & !IN_USE) & IS_START == f & IS_START
    ensures (f & !IN_USE) & IN_USE == 0
    ensures (f & !IS_START) & IS_START == 0
    ensures (IN_USE | IS_START) & IN_USE != 0 && (IN_USE | IS_START) & IS_START != 0
  {
  }

  /** The C string a char sequence denotes: everything before the first NUL. */
  function UpToNul(s: string): (r: string)
    ensures r <= s
    ensures '\0' !in r
    ensures |r| < |s| ==> s[|r|] == '\0'
  {
    if s == [] || s[0] == '\0' then [] else [s[0]] + UpToNul(s[1..])
  }

  /** The part of a name that `strncmp(_, _, MAX_NAME)` compares and that
      `strncpy(_, _, MAX_NAME)` stores: the C string, cut at MAX_NAME chars. */
  function CName(s: string): (r: string)
    ensures |r| <= MAX_NAME
    ensures r <= s
    ensures '\0' !in r
    ensures |r| < MAX_NAME ==> |r| == |s| || s[|r|] == '\0'
  {
    var t := UpToNul(s);
    if |t| <= MAX_NAME then t else t[..MAX_NAME]
  }

  /** `strncmp(a, b, MAX_NAME) == 0`. */
  predicate NamesMatch(a: string, b: string)
  {
    CName(a) == CName(b)
  }

  /** `strlen(s) == 0`. */
  predicate EmptyCString(s: string)
  {
    UpToNul(s) == []
  }

  lemma {:induction false} UpToNulOfNulFree(s: string)
    requires '\0' !in s
    ensures UpToNul(s) == s
  {
    if s != [] {
      UpToNulOfNulFree(s[1..]);
    }
  }

  /** A name stored by `strncpy(_, dest, MAX_NAME)` matches `dest` under
      `strncmp(_, _, MAX_NAME)`: storing is idempotent on the compared part. */
  lemma StoredNameMatches(dest: string)
    ensures CName(CName(dest)) == CName(dest)
    ensures NamesMatch(CName(dest), dest)
  {
    UpToNulOfNulFree(CName(dest));
  }

  /** A name is empty as a C string exactly when its stored form is empty. */
  lemma EmptyNameIsEmptyCName(s: string)
    ensures EmptyCString(s) <==> CName(s) == []
  {
  }
}
