/** What kernel/fat.c works on: a table of cluster links, clusters of bytes, and
    files that are chains of clusters (the "FAT Data Structure" section of
    Microsoft's FAT File System Specification). */
module Clusters {
  import opened MachineWords
  import opened Arithmetic
  import opened ByteStrings

  const END: int := 0xFFFF

  type Table = seq<u16>
  type Chain = seq<u16>

  /** Every entry is a real cluster, below the reserved values, and the first two
      entries are in use. */
  ghost predicate ValidTable(fat: Table) {
    2 <= |fat| <= 0xFFF7 && fat[0] != 0 && fat[1] != 0
  }

  ghost predicate ValidData(fat: Table, data: seq<Bytes>, size: nat) {
    |data| == |fat| && forall i :: 0 <= i < |data| ==> |data[i]| == size
  }

  /** c lists the clusters of a file, first to last. */
  ghost predicate IsChain(fat: Table, c: Chain) {
    && |c| > 0
    && (forall i :: 0 <= i < |c| ==> 2 <= c[i] < |fat|)
    && (forall i, j :: 0 <= i < |c| && 0 <= j < |c| && j == i + 1 ==> fat[c[i]] == c[j])
    && fat[c[|c| - 1]] == END
  }

  ghost predicate Apart(c: Chain, d: Chain) {
    forall i, j :: 0 <= i < |c| && 0 <= j < |d| ==> c[i] != d[j]
  }

  /** The chains of a volume: no cluster belongs to two of them. */
  ghost predicate ValidChains(fat: Table, chains: set<Chain>) {
    && (forall c :: c in chains ==> IsChain(fat, c))
    && (forall c, d :: c in chains && d in chains && c != d ==> Apart(c, d))
  }

  /** Equal clusters are followed by equal clusters. */
  lemma {:induction false} SameFrom(fat: Table, c: Chain, i: nat, d: Chain, j: nat, k: nat)
    requires IsChain(fat, c) && IsChain(fat, d) && i + k < |c| && j < |d| && c[i] == d[j] && |fat| < END
    ensures j + k < |d| && c[i + k] == d[j + k]
    decreases k
  {
    if k > 0 {
      SameFrom(fat, c, i, d, j, k - 1);
      assert fat[c[i + k - 1]] == c[i + k];
      assert fat[d[j + k - 1]] == if j + k < |d| then d[j + k] else END;
    }
  }

  /** A chain is acyclic. */
  lemma ChainIsAcyclic(fat: Table, c: Chain, i: nat, j: nat)
    requires IsChain(fat, c) && |fat| < END && i < j < |c|
    ensures c[i] != c[j]
  {
    if c[i] == c[j] {
      SameFrom(fat, c, i, c, j, |c| - 1 - i);
    }
  }

  /** The first cluster determines the chain. */
  lemma ChainIsDetermined(fat: Table, c: Chain, d: Chain)
    requires IsChain(fat, c) && IsChain(fat, d) && |fat| < END && c[0] == d[0]
    ensures c == d
  {
    SameFrom(fat, c, 0, d, 0, |c| - 1);
    SameFrom(fat, d, 0, c, 0, |d| - 1);
    forall k | 0 <= k < |c|
      ensures c[k] == d[k]
    {
      SameFrom(fat, c, 0, d, 0, k);
    }
  }

  // ----------------------------------------------------------- allocation

  /** The least free entry from i on, or 0. */
  function FirstFree(fat: Table, i: nat): (r: nat)
    ensures r == 0 || (i <= r < |fat| && fat[r] == 0)
    ensures r == 0 && i > 0 ==> forall j :: i <= j < |fat| ==> fat[j] != 0
    ensures forall j :: i <= j < r ==> fat[j] != 0
    decreases |fat| - i
  {
    if i >= |fat| then 0 else if fat[i] == 0 then i else FirstFree(fat, i + 1)
  }

  function Allocate(fat: Table, current: u16): (Table, u16)
    requires current < |fat| <= 0xFFF7
  {
    var i := FirstFree(fat, 1);
    if i == 0 then (fat, 0) else (fat[current := i][i := END], i)
  }

  /** The entry taken is the least free one; it ends the chain, `current` leads to it, and no
      other entry changes. */
  lemma AllocatesLeast(fat: Table, current: u16)
    requires current < |fat| <= 0xFFF7
    ensures var (fat', i) := Allocate(fat, current);
      && (forall j :: 1 <= j < |fat| && (i == 0 || j < i) ==> fat[j] != 0)
      && (i == 0 ==> fat' == fat)
      && (i != 0 ==>
            && 1 <= i < |fat| == |fat'| && fat[i] == 0 && fat'[i] == 0xFFFF
            && (current != i ==> fat'[current] == i)
            && forall x :: 0 <= x < |fat| && x != current && x != i ==> fat'[x] == fat[x])
  {
  }

  function FreeCount(fat: Table): nat {
    if fat == [] then 0 else (if fat[0] == 0 then 1 else 0) + FreeCount(fat[1..])
  }

  lemma {:induction false} FreeCountUpdate(fat: Table, i: nat, w: u16)
    requires i < |fat|
    ensures FreeCount(fat[i := w]) == FreeCount(fat) - (if fat[i] == 0 then 1 else 0) + (if w == 0 then 1 else 0)
  {
    if i > 0 {
      FreeCountUpdate(fat[1..], i - 1, w);
      assert fat[i := w][1..] == fat[1..][i - 1 := w];
    }
  }

  lemma {:induction false} NoneFree(fat: Table)
    ensures FreeCount(fat) == 0 <==> forall i :: 0 <= i < |fat| ==> fat[i] != 0
  {
    if fat != [] {
      NoneFree(fat[1..]);
      assert forall i :: 1 <= i < |fat| ==> fat[i] == fat[1..][i - 1];
    }
  }

  /** A chain with a free cluster linked to its end. */
  lemma LinkExtends(fat: Table, c: Chain, i: u16)
    requires ValidTable(fat) && IsChain(fat, c) && 2 <= i < |fat| && fat[i] == 0
    ensures i !in c && IsChain(fat[c[|c| - 1] := i][i := END], c + [i])
  {
    var last := c[|c| - 1];
    InUse(fat, c, i);
    forall k | 0 <= k < |c| - 1
      ensures c[k] != last && c[k] != i && fat[c[k]] == c[k + 1]
    {
      ChainIsAcyclic(fat, c, k, |c| - 1);
    }
    var fat', d := fat[last := i][i := END], c + [i];
    forall k, l | 0 <= k < |d| && 0 <= l < |d| && l == k + 1
      ensures fat'[d[k]] == d[l]
    {
      assert k < |c| - 1 ==> fat[c[k]] == c[k + 1];
    }
  }

  /** What allocation at the end of chain c does to that chain. */
  lemma AllocateExtends(fat: Table, c: Chain)
    requires ValidTable(fat) && IsChain(fat, c)
    ensures var (fat', i) := Allocate(fat, c[|c| - 1]);
      && (i == 0 <==> FreeCount(fat) == 0) && (i == 0 ==> fat' == fat)
      && (i != 0 ==> ValidTable(fat') && |fat'| == |fat| && i !in c && IsChain(fat', c + [i])
                     && i < |fat| && fat[i] == 0 && FreeCount(fat') == FreeCount(fat) - 1)
  {
    NoneFree(fat);
    var last := c[|c| - 1];
    var i := FirstFree(fat, 1);
    hide FirstFree, FreeCount;
    if i != 0 {
      assert i != 1 && fat[last] == END;
      LinkExtends(fat, c, i);
      FreeCountUpdate(fat, last, i);
      FreeCountUpdate(fat[last := i], i, END);
      hide IsChain;
    }
  }

  lemma InUse(fat: Table, c: Chain, i: nat)
    requires IsChain(fat, c) && i < |fat| && fat[i] == 0
    ensures i !in c
  {
    forall k | 0 <= k < |c|
      ensures c[k] != i
    {
      assert k < |c| - 1 ==> fat[c[k]] == c[k + 1];
    }
  }

  /** ... and to any other. */
  lemma AllocateKeepsOther(fat: Table, c: Chain, d: Chain)
    requires ValidTable(fat) && IsChain(fat, c) && IsChain(fat, d) && Apart(c, d)
    ensures var (fat', i) := Allocate(fat, c[|c| - 1]);
      IsChain(fat', d) && i !in d && Apart(c + [i], d)
  {
    var i := FirstFree(fat, 1);
    if i != 0 {
      InUse(fat, d, i);
    }
  }

  /** allocate_cluster on the last cluster of a chain: the table stays a set of disjoint
      chains; that chain gains one cluster that was free, the others gain and lose none. */
  lemma AllocateKeepsChains(fat: Table, chains: set<Chain>, c: Chain)
    requires ValidTable(fat) && ValidChains(fat, chains) && c in chains
    ensures var (fat', i) := Allocate(fat, c[|c| - 1]);
      if i == 0 then fat' == fat && FreeCount(fat) == 0
      else ValidChains(fat', chains - {c} + {c + [i]}) && FreeCount(fat') == FreeCount(fat) - 1
  {
    AllocateExtends(fat, c);
    var (fat', i) := Allocate(fat, c[|c| - 1]);
    forall d | d in chains && d != c
      ensures IsChain(fat', d) && Apart(c + [i], d)
    {
      AllocateKeepsOther(fat, c, d);
    }
  }

  // -------------------------------------------------- the bytes of a file

  /** The clusters of c, one after the other. */
  function Flat(data: seq<Bytes>, c: Chain): Bytes
    requires forall i :: 0 <= i < |c| ==> c[i] < |data|
  {
    if c == [] then [] else data[c[0]] + Flat(data, c[1..])
  }

  lemma {:induction false} FlatAppend(data: seq<Bytes>, c: Chain, d: Chain)
    requires forall i :: 0 <= i < |c| ==> c[i] < |data|
    requires forall i :: 0 <= i < |d| ==> d[i] < |data|
    ensures Flat(data, c + d) == Flat(data, c) + Flat(data, d)
  {
    if c == [] {
      assert c + d == d;
    } else {
      FlatAppend(data, c[1..], d);
      assert (c + d)[1..] == c[1..] + d;
    }
  }

  lemma {:induction false} FlatLength(data: seq<Bytes>, c: Chain, size: nat)
    requires forall i :: 0 <= i < |c| ==> c[i] < |data| && |data[c[i]]| == size
    ensures |Flat(data, c)| == |c| * size
  {
    if c != [] {
      FlatLength(data, c[1..], size);
      MulSucc(|c| - 1, size);
    }
  }

  lemma {:induction false} FlatSame(data: seq<Bytes>, data': seq<Bytes>, c: Chain)
    requires |data| == |data'| && forall i :: 0 <= i < |c| ==> c[i] < |data| && data'[c[i]] == data[c[i]]
    ensures Flat(data', c) == Flat(data, c)
  {
    if c != [] {
      FlatSame(data, data', c[1..]);
    }
  }

  /** The file around its q-th cluster. */
  lemma FlatSplit(data: seq<Bytes>, c: Chain, q: nat, size: nat)
    requires forall i :: 0 <= i < |c| ==> c[i] < |data| && |data[c[i]]| == size
    requires q < |c|
    ensures Flat(data, c) == Flat(data, c[..q]) + data[c[q]] + Flat(data, c[q + 1..])
    ensures |Flat(data, c[..q])| == q * size && |Flat(data, c)| == |c| * size
    ensures q * size + size <= |c| * size
  {
    hide Flat;
    assert c == c[..q] + [c[q]] + c[q + 1..];
    FlatOne(data, c[q]);
    FlatAppend(data, c[..q] + [c[q]], c[q + 1..]);
    FlatAppend(data, c[..q], [c[q]]);
    FlatLength(data, c[..q], size);
    FlatLength(data, c, size);
    FlatLength(data, c[..q + 1], size);
    FlatLength(data, c[q + 1..], size);
    assert c[..q + 1] == c[..q] + [c[q]];
    MulSucc(q, size);
  }

  lemma FlatOne(data: seq<Bytes>, k: u16)
    requires k < |data|
    ensures Flat(data, [k]) == data[k]
  {
    assert [k][1..] == [];
  }

  lemma SliceMiddle(a: Bytes, b: Bytes, d: Bytes, o: nat, r: nat)
    requires o + r <= |b|
    ensures (a + b + d)[|a| + o..|a| + o + r] == b[o..o + r]
  {
  }

  /** Reading inside one cluster is reading the file. */
  lemma FlatSlice(data: seq<Bytes>, c: Chain, q: nat, size: nat, o: nat, r: nat)
    requires forall i :: 0 <= i < |c| ==> c[i] < |data| && |data[c[i]]| == size
    requires q < |c| && o + r <= size
    ensures 0 <= q * size && q * size + o + r <= |Flat(data, c)|
    ensures Flat(data, c)[q * size + o..q * size + o + r] == data[c[q]][o..o + r]
  {
    hide Flat;
    FlatSplit(data, c, q, size);
    var a, b, d := Flat(data, c[..q]), data[c[q]], Flat(data, c[q + 1..]);
    SliceMiddle(a, b, d, o, r);
  }

  /** Writing inside one cluster is writing the file. */
  lemma FlatPatch(data: seq<Bytes>, c: Chain, q: nat, size: nat, o: nat, bytes: Bytes)
    requires q < |c| && o + |bytes| <= size
    requires forall i :: 0 <= i < |c| ==> c[i] < |data| && |data[c[i]]| == size
    requires forall i :: 0 <= i < |c| && i != q ==> c[i] != c[q]
    ensures 0 <= q * size && q * size + o + |bytes| <= |Flat(data, c)|
    ensures Flat(data[c[q] := Overwrite(data[c[q]], o, bytes)], c) == Overwrite(Flat(data, c), q * size + o, bytes)
  {
    hide Flat, Overwrite;
    var data' := data[c[q] := Overwrite(data[c[q]], o, bytes)];
    FlatSplit(data, c, q, size);
    FlatSplit(data', c, q, size);
    FlatSame(data, data', c[..q]);
    FlatSame(data, data', c[q + 1..]);
    var a, b, d := Flat(data, c[..q]), data[c[q]], Flat(data, c[q + 1..]);
    OverwriteMiddle(a, b, d, o, bytes);
  }
}
