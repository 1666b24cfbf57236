/** Files as chains of descriptors linked by `next`, the well-formedness
    invariant of the descriptor table, and lookup of a file's first block. */
module Chains {
  import opened Types

  /** The indices visited by following `next` from `i`, for at most `fuel`
      steps, stopping at the first index outside the table (-1 in particular). */
  function Walk(ins: seq<Inode>, i: int, fuel: nat): (r: seq<nat>)
    ensures |r| <= fuel
    ensures forall k :: 0 <= k < |r| ==> r[k] < |ins|
    ensures fuel > 0 && 0 <= i < |ins| <==> r != []
    ensures r != [] ==> r[0] == i
    ensures forall k :: 0 <= k < |r| - 1 ==> ins[r[k]].next == r[k + 1]
    decreases fuel
  {
    if fuel == 0 || i < 0 || i >= |ins| then [] else [i] + Walk(ins, ins[i].next, fuel - 1)
  }

  /** The walk stops early only where the loops in `copyFrom` and
      `deleteFromVFS` stop: a walk shorter than its fuel ends at a block
      whose link leaves the table. */
  lemma {:induction false} WalkStops(ins: seq<Inode>, i: int, fuel: nat)
    ensures var r := Walk(ins, i, fuel);
      r != [] && |r| < fuel ==> !(0 <= ins[r[|r| - 1]].next < |ins|)
    decreases fuel
  {
    if fuel > 0 && 0 <= i < |ins| {
      WalkStops(ins, ins[i].next, fuel - 1);
    }
  }

  /** The walk that `copyFrom` and `deleteFromVFS` perform from a first
      block; a proper chain never needs more steps than there are blocks. */
  function Chain(ins: seq<Inode>, h: int): seq<nat>
  {
    Walk(ins, h, |ins|)
  }

  predicate Distinct(c: seq<nat>)
  {
    forall a, b :: 0 <= a < b < |c| ==> c[a] != c[b]
  }

  predicate Disjoint(c: seq<nat>, d: seq<nat>)
  {
    forall x :: x in c ==> x !in d
  }

  function Elems(c: seq<nat>): set<nat>
  {
    set x | x in c
  }

  /** `c` is a finished chain: in-use blocks holding at most BLOCK_SIZE bytes
      each, linked in order by `next`, the last one's `next` being -1, and
      no block visited twice. */
  predicate ProperChain(ins: seq<Inode>, c: seq<nat>)
  {
    && |c| > 0
    && (forall k :: 0 <= k < |c| ==> c[k] < |ins| && InUse(ins[c[k]]) && ins[c[k]].size <= BLOCK_SIZE)
    && (forall k :: 0 <= k < |c| - 1 ==> ins[c[k]].next == c[k + 1])
    && ins[c[|c| - 1]].next == -1
    && Distinct(c)
  }

  predicate HeadsHaveChains(ins: seq<Inode>)
  {
    forall h :: 0 <= h < |ins| && IsHead(ins[h]) ==> ProperChain(ins, Chain(ins, h))
  }

  predicate ChainsDisjoint(ins: seq<Inode>)
  {
    forall h1, h2 :: 0 <= h1 < |ins| && 0 <= h2 < |ins| && h1 != h2 && IsHead(ins[h1]) && IsHead(ins[h2])
      ==> Disjoint(Chain(ins, h1), Chain(ins, h2))
  }

  predicate OnSomeChain(ins: seq<Inode>, i: nat)
  {
    exists h :: 0 <= h < |ins| && IsHead(ins[h]) && i in Chain(ins, h)
  }

  predicate InUseOwned(ins: seq<Inode>)
  {
    forall i {:trigger OnSomeChain(ins, i)} :: 0 <= i < |ins| && InUse(ins[i]) ==> OnSomeChain(ins, i)
  }

  predicate NamesUnique(ins: seq<Inode>)
  {
    forall h1, h2 :: 0 <= h1 < |ins| && 0 <= h2 < |ins| && h1 != h2 && IsHead(ins[h1]) && IsHead(ins[h2])
      ==> !NamesMatch(ins[h1].name, ins[h2].name)
  }

  /** The invariant the operations keep: every file is a proper chain from
      its first block, files share no block, every block in use belongs to
      some file, and no two files have matching names. Free descriptors'
      other fields are unconstrained. */
  predicate WellFormed(ins: seq<Inode>)
  {
    && HeadsHaveChains(ins)
    && ChainsDisjoint(ins)
    && InUseOwned(ins)
    && NamesUnique(ins)
  }

  /** The blocks of free descriptors hold only zero bytes. */
  predicate FreeBlocksZero(v: Vfs)
    requires Valid(v)
  {
    forall i :: 0 <= i < v.numNodes && !InUse(v.inodes[i]) ==> v.blocks[i] == Zeros(BLOCK_SIZE)
  }

  function FreeSet(ins: seq<Inode>): set<nat>
  {
    set i: nat | i < |ins| && !InUse(ins[i])
  }

  /** The lookup condition of `copyTo`, `deleteFromVFS` and `copyFrom`. */
  predicate HeadNamed(n: Inode, name: string)
  {
    IsHead(n) && NamesMatch(n.name, name)
  }

  /** The first index at or after `from` whose descriptor is the first block
      of a file named `name`. */
  function FindHead(ins: seq<Inode>, name: string, from: nat := 0): (r: Option<nat>)
    requires from <= |ins|
    ensures r.Some? ==> from <= r.value < |ins| && HeadNamed(ins[r.value], name)
    ensures r.Some? ==> forall j :: from <= j < r.value ==> !HeadNamed(ins[j], name)
    ensures r.None? <==> forall j :: from <= j < |ins| ==> !HeadNamed(ins[j], name)
    decreases |ins| - from
  {
    if from == |ins| then None
    else if HeadNamed(ins[from], name) then Some(from)
    else FindHead(ins, name, from + 1)
  }

  /** Two tables agree everywhere except possibly at the indices in `s`. */
  predicate SameOutside(ins: seq<Inode>, ins': seq<Inode>, s: set<nat>)
  {
    |ins'| == |ins| && forall j :: 0 <= j < |ins| && j !in s ==> ins'[j] == ins[j]
  }

  /** A walk only looks at the `next` fields of the blocks it visits. */
  lemma {:induction false} WalkFrame(ins: seq<Inode>, ins': seq<Inode>, i: int, fuel: nat)
    requires |ins'| == |ins|
    requires forall x :: x in Walk(ins, i, fuel) ==> ins'[x].next == ins[x].next
    ensures Walk(ins', i, fuel) == Walk(ins, i, fuel)
    decreases fuel
  {
    if fuel > 0 && 0 <= i < |ins| {
      var w := Walk(ins, i, fuel);
      assert w == [i] + Walk(ins, ins[i].next, fuel - 1);
      assert i in w;
      forall x | x in Walk(ins, ins[i].next, fuel - 1)
        ensures ins'[x].next == ins[x].next
      {
        assert x in w;
      }
      WalkFrame(ins, ins', ins[i].next, fuel - 1);
    }
  }

  /** A chain whose blocks are untouched is walked the same way. */
  lemma ChainFrame(ins: seq<Inode>, ins': seq<Inode>, h: int, s: set<nat>)
    requires SameOutside(ins, ins', s)
    requires forall x :: x in Chain(ins, h) ==> x !in s
    ensures Chain(ins', h) == Chain(ins, h)
  {
    WalkFrame(ins, ins', h, |ins|);
  }

  /** The link the `k`-th block of a chain laid out along `q` carries: the
      next index of `q`, or -1 after the last. */
  function NextIn(q: seq<nat>, k: nat): int
    requires k < |q|
  {
    if k + 1 < |q| then q[k + 1] else -1
  }

  /** In a proper chain each block links to the next one, the last to -1. */
  lemma ChainLinks(ins: seq<Inode>, c: seq<nat>, k: nat)
    requires ProperChain(ins, c) && k < |c|
    ensures ins[c[k]].next == NextIn(c, k)
  {
  }

  /** Following links that are laid out along `q` retraces `q`. */
  lemma {:induction false} WalkAlong(ins: seq<Inode>, q: seq<nat>, k: nat, fuel: nat)
    requires k < |q|
    requires fuel >= |q| - k
    requires forall j :: 0 <= j < |q| ==> q[j] < |ins|
    requires forall j :: k <= j < |q| ==> ins[q[j]].next == NextIn(q, j)
    ensures Walk(ins, q[k], fuel) == q[k..]
    decreases |q| - k
  {
    if k + 1 < |q| {
      WalkAlong(ins, q, k + 1, fuel - 1);
    }
  }

  /** Blocks linked one after the other along `q` form the proper chain `q`. */
  lemma LaidOutChain(ins: seq<Inode>, q: seq<nat>)
    requires 0 < |q| <= |ins|
    requires Distinct(q)
    requires forall k :: 0 <= k < |q| ==> q[k] < |ins| && InUse(ins[q[k]]) && ins[q[k]].size <= BLOCK_SIZE
    requires forall k :: 0 <= k < |q| ==> ins[q[k]].next == NextIn(q, k)
    ensures Chain(ins, q[0]) == q
    ensures ProperChain(ins, q)
  {
    WalkAlong(ins, q, 0, |ins|);
    assert q[0..] == q;
    var last := |q| - 1;
    assert ins[q[last]].next == NextIn(q, last);
  }

  /** A repetition-free sequence has as many elements as it has entries. */
  lemma {:induction false} DistinctCard(c: seq<nat>)
    requires Distinct(c)
    ensures |Elems(c)| == |c|
  {
    if c != [] {
      var t := c[1..];
      assert Distinct(t) by {
        forall a, b | 0 <= a < b < |t| ensures t[a] != t[b] {
          assert t[a] == c[a + 1] && t[b] == c[b + 1];
        }
      }
      DistinctCard(t);
      assert c[0] !in t by {
        forall b | 0 <= b < |t| ensures t[b] != c[0] {
          assert t[b] == c[b + 1];
        }
      }
      assert Elems(c) == {c[0]} + Elems(t) by {
        assert c == [c[0]] + t;
      }
    }
  }

  /** A table whose every descriptor is free is well formed. */
  lemma AllFreeWellFormed(ins: seq<Inode>)
    requires forall i :: 0 <= i < |ins| ==> !InUse(ins[i])
    ensures WellFormed(ins)
  {
  }

  /** Under well-formedness a file's first block starts its own chain, and
      no other block of that chain starts a file. */
  lemma HeadOnlyAtFront(ins: seq<Inode>, h: nat, k: nat)
    requires HeadsHaveChains(ins) && ChainsDisjoint(ins)
    requires h < |ins| && IsHead(ins[h])
    requires 0 < k < |Chain(ins, h)|
    ensures !IsHead(ins[Chain(ins, h)[k]])
  {
    var c := Chain(ins, h);
    var x := c[k];
    assert ProperChain(ins, c);
    assert x != h by {
      assert c[0] == h;
    }
    assert x in c;
    assert x < |ins| && Walk(ins, x, |ins|) != [];
    assert IsHead(ins[x]) ==> Disjoint(c, Chain(ins, x));
    assert x in Chain(ins, x);
  }
}
