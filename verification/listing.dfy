/** `listVFS` and the memory map and summary of `dumpVFS`: what the image
    reports about itself. Output is modelled as the lines' content. */
module Listing {
  import opened Types
  import opened Chains
  import opened Store
  import opened Remove
  import opened RemoveInvariants
  import opened StoreInvariants

  /** One line of `listVFS`: the name as `%s` prints it, and the index. */
  datatype Entry = Entry(name: string, index: nat)

  /** The lines `listVFS` prints for descriptors `i` onwards. */
  function ListFrom(ins: seq<Inode>, i: nat): (r: seq<Entry>)
    requires i <= |ins|
    ensures forall k :: 0 <= k < |r| ==>
      i <= r[k].index < |ins| && IsHead(ins[r[k].index]) && r[k].name == UpToNul(ins[r[k].index].name)
    decreases |ins| - i
  {
    if i == |ins| then []
    else if IsHead(ins[i]) then [Entry(UpToNul(ins[i].name), i)] + ListFrom(ins, i + 1)
    else ListFrom(ins, i + 1)
  }

  /** `listVFS(vfs)`: one line per descriptor that starts a file. */
  function ListVFS(v: Vfs): (r: seq<Entry>)
    requires Valid(v)
    ensures forall k :: 0 <= k < |r| ==>
      r[k].index < v.numNodes && IsHead(v.inodes[r[k].index]) && r[k].name == UpToNul(v.inodes[r[k].index].name)
  {
    ListFrom(v.inodes, 0)
  }

  predicate IndexAscending(l: seq<Entry>)
  {
    forall k, m :: 0 <= k < m < |l| ==> l[k].index < l[m].index
  }

  /** Every descriptor from `i` on that starts a file is listed. */
  lemma {:induction false} ListFromComplete(ins: seq<Inode>, i: nat, j: nat)
    requires i <= j < |ins| && IsHead(ins[j])
    ensures Entry(UpToNul(ins[j].name), j) in ListFrom(ins, i)
    decreases |ins| - i
  {
    if i < j {
      ListFromComplete(ins, i + 1, j);
    }
  }

  /** The lines come in increasing index order. */
  lemma {:induction false} ListFromAscending(ins: seq<Inode>, i: nat)
    requires i <= |ins|
    ensures IndexAscending(ListFrom(ins, i))
    decreases |ins| - i
  {
    if i < |ins| {
      ListFromAscending(ins, i + 1);
    }
  }

  /** The listing names exactly the files of the image, each once, in index
      order, by the part of its name before the first NUL. */
  lemma ListVFSExact(v: Vfs, j: nat)
    requires Valid(v)
    ensures IndexAscending(ListVFS(v))
    ensures j < v.numNodes && IsHead(v.inodes[j]) <==> exists k :: 0 <= k < |ListVFS(v)| && ListVFS(v)[k].index == j
    ensures j < v.numNodes && IsHead(v.inodes[j]) ==> Entry(UpToNul(v.inodes[j].name), j) in ListVFS(v)
  {
    ListFromAscending(v.inodes, 0);
    if j < v.numNodes && IsHead(v.inodes[j]) {
      ListFromComplete(v.inodes, 0, j);
    }
  }

  /** `l` without its line for index `h`. */
  function Without(l: seq<Entry>, h: nat): (r: seq<Entry>)
    ensures forall e :: e in r <==> e in l && e.index != h
  {
    if l == [] then []
    else if l[0].index == h then Without(l[1..], h)
    else [l[0]] + Without(l[1..], h)
  }

  /** `l`, in index order, with `e` placed before the first line of larger
      index. */
  function Insert(l: seq<Entry>, e: Entry): (r: seq<Entry>)
    ensures |r| == |l| + 1
    ensures forall x :: x in r <==> x == e || x in l
  {
    if l == [] || e.index < l[0].index then [e] + l
    else [l[0]] + Insert(l[1..], e)
  }

  /** From `i` on, the tables start the same files under the same names. */
  lemma {:induction false} ListFromSame(ins: seq<Inode>, ins': seq<Inode>, i: nat)
    requires |ins'| == |ins| && i <= |ins|
    requires forall x :: i <= x < |ins| ==> (IsHead(ins'[x]) <==> IsHead(ins[x]))
    requires forall x :: i <= x < |ins| && IsHead(ins'[x]) ==> ins'[x].name == ins[x].name
    ensures ListFrom(ins', i) == ListFrom(ins, i)
    decreases |ins| - i
  {
    if i < |ins| {
      ListFromSame(ins, ins', i + 1);
    }
  }

  /** From `i` on, `ins'` starts the files of `ins` but the one at `h`. */
  lemma {:induction false} ListFromRemoved(ins: seq<Inode>, ins': seq<Inode>, h: nat, i: nat)
    requires |ins'| == |ins| && i <= |ins|
    requires forall x :: i <= x < |ins| ==> (IsHead(ins'[x]) <==> x != h && IsHead(ins[x]))
    requires forall x :: i <= x < |ins| && IsHead(ins'[x]) ==> ins'[x].name == ins[x].name
    ensures ListFrom(ins', i) == Without(ListFrom(ins, i), h)
    decreases |ins| - i
  {
    if i < |ins| {
      ListFromRemoved(ins, ins', h, i + 1);
      if IsHead(ins[i]) {
        assert ListFrom(ins, i) == [Entry(UpToNul(ins[i].name), i)] + ListFrom(ins, i + 1);
      }
    }
  }

  /** From `i` on, `ins'` starts the files of `ins` and one more, at `p`. */
  lemma {:induction false} ListFromAdded(ins: seq<Inode>, ins': seq<Inode>, p: nat, i: nat)
    requires |ins'| == |ins| && i <= p < |ins| && !IsHead(ins[p])
    requires forall x :: i <= x < |ins| ==> (IsHead(ins'[x]) <==> x == p || IsHead(ins[x]))
    requires forall x :: i <= x < |ins| && x != p && IsHead(ins'[x]) ==> ins'[x].name == ins[x].name
    ensures ListFrom(ins', i) == Insert(ListFrom(ins, i), Entry(UpToNul(ins'[p].name), p))
    decreases |ins| - i
  {
    var e := Entry(UpToNul(ins'[p].name), p);
    if i == p {
      ListFromSame(ins, ins', i + 1);
      var l := ListFrom(ins, i + 1);
      assert l != [] ==> e.index < l[0].index;
    } else {
      ListFromAdded(ins, ins', p, i + 1);
      if IsHead(ins[i]) {
        assert ListFrom(ins, i) == [Entry(UpToNul(ins[i].name), i)] + ListFrom(ins, i + 1);
      }
    }
  }

  /** After a file is deleted, the listing is the old one without its line. */
  lemma ListAfterDelete(v: Vfs, v': Vfs, h: nat)
    requires Deleted(v, v', h)
    ensures ListVFS(v') == Without(ListVFS(v), h)
  {
    forall x | 0 <= x < v.numNodes
      ensures (IsHead(v'.inodes[x]) <==> x != h && IsHead(v.inodes[x]))
      ensures IsHead(v'.inodes[x]) ==> v'.inodes[x].name == v.inodes[x].name
    {
      HeadsAfterDelete(v, v', h, x);
    }
    ListFromRemoved(v.inodes, v'.inodes, h, 0);
  }

  /** After a file is stored, the listing gains one line, at the new file's
      first block and under its stored name, in index order. */
  lemma ListAfterStore(ins: seq<Inode>, ins': seq<Inode>, q: seq<nat>, dest: string)
    requires NewChain(ins, ins', q, dest)
    ensures ListFrom(ins', 0) == Insert(ListFrom(ins, 0), Entry(CName(dest), q[0]))
  {
    forall x | 0 <= x < |ins|
      ensures (IsHead(ins'[x]) <==> x == q[0] || IsHead(ins[x]))
      ensures x != q[0] && IsHead(ins'[x]) ==> ins'[x].name == ins[x].name
    {
      HeadsAfterStore(ins, ins', q, dest, x);
      if x in q && x != q[0] {
        assert !InUse(ins[x]) by {
          var k :| 0 <= k < |q| && q[k] == x;
        }
      }
    }
    UpToNulOfNulFree(CName(dest));
    ListFromAdded(ins, ins', q[0], 0);
  }

  /** A successful `copyTo` adds exactly the new file's line to the listing. */
  lemma CopyToLists(v: Vfs, src: Option<seq<byte>>, dest: string)
    requires Valid(v)
    requires src.Some? ==> |src.value| > 0
    ensures var r := CopyTo(v, src, dest);
      r.0 == Success ==>
        ListVFS(r.1) == Insert(ListVFS(v), Entry(CName(dest), Selection(v.inodes, |src.value|)[0]))
  {
    var r := CopyTo(v, src, dest);
    if r.0 == Success {
      StoredIsNewChain(v, r.1, src.value, dest);
      ListAfterStore(v.inodes, r.1.inodes, Selection(v.inodes, |src.value|), dest);
    }
  }

  /** The memory-map character of one descriptor: `.` free, `$` first block
      of a file, `#` last block of a file, `>` any other block in use. */
  function MapChar(n: Inode): (c: char)
    ensures c == '.' <==> !InUse(n)
    ensures c == '$' <==> IsHead(n)
    ensures c == '#' <==> InUse(n) && !IsStart(n) && n.next == -1
  {
    if InUse(n) then (if IsStart(n) then '$' else if n.next == -1 then '#' else '>') else '.'
  }

  /** Indices below `i` that are free. */
  function FreeBelow(ins: seq<Inode>, i: nat): set<nat>
  {
    set j: nat | j < i && j < |ins| && !InUse(ins[j])
  }

  /** The memory map and summary of `dumpVFS(vfs)`: one character per
      descriptor, and the number of free descriptors. The descriptor dump
      that precedes them is left out. */
  method DumpVFS(v: Vfs) returns (memoryMap: seq<char>, available: nat)
    requires Valid(v)
    ensures |memoryMap| == v.numNodes
    ensures forall i :: 0 <= i < v.numNodes ==> memoryMap[i] == MapChar(v.inodes[i])
    ensures forall i :: 0 <= i < v.numNodes ==> (memoryMap[i] == '.' <==> i in FreeSet(v.inodes))
    ensures forall i :: 0 <= i < v.numNodes ==> (memoryMap[i] == '$' <==> IsHead(v.inodes[i]))
    ensures available == |FreeSet(v.inodes)|
  {
    memoryMap := [];
    available := 0;
    var i := 0;
    while i < v.numNodes
      invariant 0 <= i <= v.numNodes
      invariant |memoryMap| == i
      invariant forall j :: 0 <= j < i ==> memoryMap[j] == MapChar(v.inodes[j])
      invariant available == |FreeBelow(v.inodes, i)|
    {
      if !InUse(v.inodes[i]) {
        assert FreeBelow(v.inodes, i + 1) == FreeBelow(v.inodes, i) + {i};
        available := available + 1;
      } else {
        assert FreeBelow(v.inodes, i + 1) == FreeBelow(v.inodes, i);
      }
      memoryMap := memoryMap + [MapChar(v.inodes[i])];
      i := i + 1;
    }
    assert FreeBelow(v.inodes, i) == FreeSet(v.inodes);
  }

  /** In a well-formed table the memory map draws every file as `$`, then
      `>` for each middle block, then `#` for the last block when there is
      more than one. */
  lemma MapShowsChain(ins: seq<Inode>, h: nat, k: nat)
    requires WellFormed(ins) && h < |ins| && IsHead(ins[h])
    requires k < |Chain(ins, h)|
    ensures var c := Chain(ins, h);
      MapChar(ins[c[k]]) == (if k == 0 then '$' else if k == |c| - 1 then '#' else '>')
  {
    var c := Chain(ins, h);
    assert ProperChain(ins, c);
    if k > 0 {
      HeadOnlyAtFront(ins, h, k);
      if k < |c| - 1 {
        assert ins[c[k]].next == c[k + 1];
      }
    } else {
      assert c[0] == h;
    }
  }
}
