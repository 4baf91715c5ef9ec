/** kernel/fat.c, the loop of fwrite as a function, and when it is the write it is meant to be. */
module FileWrites {
  import opened MachineWords
  import opened Arithmetic
  import opened ByteStrings
  import opened Clusters

  datatype Outcome = Outcome(fat: Table, data: seq<Bytes>, written: nat)

  ghost predicate Disk(fat: Table, data: seq<Bytes>, size: nat) {
    ValidTable(fat) && ValidData(fat, data, size)
  }

  /** The loop of fwrite from cluster `cur`, byte o: one turn fills the cluster up; the
      next goes to a new cluster if this one ends its chain, and otherwise to this
      same cluster again. */
  function WriteFrom(fat: Table, data: seq<Bytes>, size: nat, cur: u16, o: nat, bytes: Bytes): Outcome
    requires Disk(fat, data, size) && cur < |fat| && o < size
    decreases |bytes|
  {
    var r := Min(|bytes|, size - o);
    var data' := data[cur := Overwrite(data[cur], o, bytes[..r])];
    if r == |bytes| then Outcome(fat, data', r)
    else if fat[cur] == END then
      var (fat', next) := Allocate(fat, cur);
      if next == 0 then Outcome(fat, data', r)
      else
        var rest := WriteFrom(fat', data', size, next, 0, bytes[r..]);
        rest.(written := r + rest.written)
    else
      var rest := WriteFrom(fat, data', size, cur, 0, bytes[r..]);
      rest.(written := r + rest.written)
  }

  /** One turn of that loop. */
  lemma WriteTurn(fat: Table, data: seq<Bytes>, size: nat, cur: u16, o: nat, bytes: Bytes)
    requires Disk(fat, data, size) && cur < |fat| && o < size
    ensures var r := Min(|bytes|, size - o);
      var data' := data[cur := Overwrite(data[cur], o, bytes[..r])];
      var (fat', next) := if fat[cur] == END then Allocate(fat, cur) else (fat, cur);
      && Disk(fat, data', size) && 0 <= (o + r) % size < size
      && (if r == |bytes| then WriteFrom(fat, data, size, cur, o, bytes) == Outcome(fat, data', r)
          else if fat[cur] == END && next == 0 then
            fat' == fat && WriteFrom(fat, data, size, cur, o, bytes) == Outcome(fat, data', r)
          else
            && Disk(fat', data', size) && next < |fat'|
            && var rest := WriteFrom(fat', data', size, next, (o + r) % size, bytes[r..]);
              WriteFrom(fat, data, size, cur, o, bytes) == rest.(written := r + rest.written))
  {
    var r := Min(|bytes|, size - o);
    if r == size - o {
      DivUnique(o + r, size, 1, 0);
    } else {
      DivUnique(o + r, size, 0, o + r);
    }
  }

  /** No more is counted than was given. */
  lemma {:induction false} WritesNoMore(fat: Table, data: seq<Bytes>, size: nat, cur: u16, o: nat, bytes: Bytes)
    requires Disk(fat, data, size) && cur < |fat| && o < size
    ensures WriteFrom(fat, data, size, cur, o, bytes).written <= |bytes|
    decreases |bytes|
  {
    hide Overwrite, Allocate, ValidTable, WriteFrom;
    SmallTable(fat);
    WriteTurn(fat, data, size, cur, o, bytes);
    var r := Min(|bytes|, size - o);
    var data' := data[cur := Overwrite(data[cur], o, bytes[..r])];
    var (fat', next) := if fat[cur] == END then Allocate(fat, cur) else (fat, cur);
    if r < |bytes| && !(fat[cur] == END && next == 0) {
      WritesNoMore(fat', data', size, next, (o + r) % size, bytes[r..]);
    }
  }

  lemma WriteNothing(fat: Table, data: seq<Bytes>, size: nat, cur: u16, o: nat)
    requires Disk(fat, data, size) && cur < |fat| && o < size
    ensures WriteFrom(fat, data, size, cur, o, []) == Outcome(fat, data, 0)
  {
    var none: Bytes := [];
    assert none[..0] == none && Overwrite(data[cur], o, none) == data[cur];
    assert data[cur := data[cur]] == data;
  }

  /** What a write may touch: the last cluster of a file, and clusters that were free. */
  ghost predicate Touches(fat: Table, data: seq<Bytes>, out: Outcome, last: u16, added: Chain) {
    && |out.fat| == |fat| == |out.data| == |data|
    && (forall x :: 0 <= x < |fat| && x != last && x !in added ==> out.fat[x] == fat[x] && out.data[x] == data[x])
    && (forall x :: x in added ==> x < |fat| && fat[x] == 0)
  }

  /** A write of `bytes` at `at` of a file: its chain may have grown, its bytes are the
      old ones overwritten, and it is short only if the volume is full. */
  ghost predicate FlatWrite(fat: Table, data: seq<Bytes>, c: Chain, at: nat, bytes: Bytes, out: Outcome, added: Chain) {
    && IsChain(out.fat, c + added) && out.written <= |bytes|
    && (forall i :: 0 <= i < |c + added| ==> (c + added)[i] < |data| && (c + added)[i] < |out.data|)
    && at + out.written <= |Flat(data, c + added)|
    && Flat(out.data, c + added) == Overwrite(Flat(data, c + added), at, bytes[..out.written])
    && (out.written == |bytes| || FreeCount(out.fat) == 0)
  }

  /** One turn of the loop, seen in the whole file. */
  lemma TurnPatch(data: seq<Bytes>, fat: Table, d: Chain, q: nat, size: nat, o: nat, bytes: Bytes)
    requires ValidTable(fat) && ValidData(fat, data, size) && IsChain(fat, d) && q < |d| && o + |bytes| <= size
    ensures 0 <= q * size && q * size + o + |bytes| <= |Flat(data, d)|
    ensures Flat(data[d[q] := Overwrite(data[d[q]], o, bytes)], d) == Overwrite(Flat(data, d), q * size + o, bytes)
  {
    forall i | 0 <= i < |d| && i != q
      ensures d[i] != d[q]
    {
      ChainIsAcyclic(fat, d, Min(i, q), Max(i, q));
    }
    FlatPatch(data, d, q, size, o, bytes);
  }

  /** The turns after the first, which start in a new cluster, and the first together. */
  lemma TurnsJoin(fat: Table, fat1: Table, data: seq<Bytes>, size: nat, c: Chain, next: u16, o: nat, bytes: Bytes,
                  more: Chain, rest: Outcome)
    requires Disk(fat, data, size) && IsChain(fat, c) && o < size && size - o <= |bytes|
    requires Disk(rest.fat, rest.data, size) && |rest.fat| == |fat|
    requires var data1 := data[c[|c| - 1] := Overwrite(data[c[|c| - 1]], o, bytes[..size - o])];
      FlatWrite(fat1, data1, c + [next], |c| * size, bytes[size - o..], rest, more)
    ensures 0 <= (|c| - 1) * size + o
    ensures FlatWrite(fat, data, c, (|c| - 1) * size + o, bytes,
                      rest.(written := size - o + rest.written), [next] + more)
  {
    hide Flat, Overwrite, ValidTable;
    var r, q, d := size - o, |c| - 1, c + ([next] + more);
    var data1 := data[c[q] := Overwrite(data[c[q]], o, bytes[..r])];
    assert d == c + [next] + more && d[q] == c[q];
    MulSucc(q, size);
    TurnPatch(data, rest.fat, d, q, size, o, bytes[..r]);
    hide IsChain;
    JoinedTurns(Flat(data, d), Flat(data1, d), Flat(rest.data, d), q * size + o, bytes, r, rest.written);
  }

  lemma JoinedTurns(s: Bytes, s1: Bytes, s2: Bytes, at: nat, bytes: Bytes, r: nat, w: nat)
    requires r + w <= |bytes| && at + r + w <= |s1| && at + r <= |s|
    requires s1 == Overwrite(s, at, bytes[..r]) && s2 == Overwrite(s1, at + r, bytes[r..][..w])
    ensures s2 == Overwrite(s, at, bytes[..r + w])
  {
    assert bytes[..r] + bytes[r..][..w] == bytes[..r + w];
    OverwriteTwice(s, at, bytes[..r], bytes[r..][..w]);
  }

  /** A write that is over after one turn, being done or having found the volume full. */
  lemma OnlyTurn(fat: Table, data: seq<Bytes>, size: nat, c: Chain, q: nat, o: nat, bytes: Bytes, r: nat)
    requires Disk(fat, data, size) && IsChain(fat, c) && q < |c| && r <= |bytes| && o + r <= size
    requires r == |bytes| || FreeCount(fat) == 0
    ensures 0 <= q * size + o
    ensures FlatWrite(fat, data, c, q * size + o, bytes,
                      Outcome(fat, data[c[q] := Overwrite(data[c[q]], o, bytes[..r])], r), [])
  {
    hide Flat, Overwrite, FreeCount;
    assert c + [] == c;
    TurnPatch(data, fat, c, q, size, o, bytes[..r]);
  }

  /** What is promised of a write that starts at byte o of cluster q of the file c. */
  ghost predicate FileWrite(fat: Table, data: seq<Bytes>, size: nat, c: Chain, q: int, o: nat, bytes: Bytes,
                            out: Outcome, added: Chain)
    requires 0 <= q < |c|
  {
    && Disk(out.fat, out.data, size)
    && 0 <= q * size + o
    && FlatWrite(fat, data, c, q * size + o, bytes, out, added)
    && Touches(fat, data, out, c[q], added)
    && FreeCount(out.fat) == FreeCount(fat) - |added|
  }

  lemma WriteOnce(fat: Table, data: seq<Bytes>, size: nat, c: Chain, q: nat, o: nat, bytes: Bytes, r: nat)
    requires Disk(fat, data, size) && IsChain(fat, c) && q < |c| && r <= |bytes| && o + r <= size
    requires r == |bytes| || FreeCount(fat) == 0
    ensures FileWrite(fat, data, size, c, q, o, bytes,
                      Outcome(fat, data[c[q] := Overwrite(data[c[q]], o, bytes[..r])], r), [])
  {
    OnlyTurn(fat, data, size, c, q, o, bytes, r);
    hide FlatWrite, FreeCount, Overwrite;
  }

  lemma WriteMore(fat: Table, data: seq<Bytes>, size: nat, c: Chain, o: nat, bytes: Bytes, rest: Outcome, more: Chain)
    requires Disk(fat, data, size) && IsChain(fat, c) && o < size && size - o <= |bytes|
    requires var (fat', next) := Allocate(fat, c[|c| - 1]);
      && next != 0
      && FileWrite(fat', data[c[|c| - 1] := Overwrite(data[c[|c| - 1]], o, bytes[..size - o])], size,
                   c + [next], |c|, 0,
                  bytes[size - o..], rest, more)
    ensures var next := Allocate(fat, c[|c| - 1]).1;
      FileWrite(fat, data, size, c, |c| - 1, o, bytes, rest.(written := size - o + rest.written), [next] + more)
  {
    hide FlatWrite, FreeCount, Overwrite, Flat;
    var last := c[|c| - 1];
    var (fat', next) := Allocate(fat, last);
    AllocateExtends(fat, c);
    TurnsJoin(fat, fat', data, size, c, next, o, bytes, more, rest);
    InUse(fat, c, next);
  }

  /** A write that starts in the last cluster of a file is the write it is meant to be,
      however many clusters it takes. */
  lemma {:induction false} WriteAtEnd(fat: Table, data: seq<Bytes>, size: nat, c: Chain, o: nat, bytes: Bytes)
    returns (added: Chain)
    requires Disk(fat, data, size) && IsChain(fat, c) && o < size
    ensures FileWrite(fat, data, size, c, |c| - 1, o, bytes, WriteFrom(fat, data, size, c[|c| - 1], o, bytes), added)
    decreases |bytes|
  {
    hide FileWrite, Flat, Overwrite, Allocate, FreeCount, IsChain, ValidTable, FirstFree;
    LastInTable(fat, c);
    SmallTable(fat);
    var last, r := c[|c| - 1], Min(|bytes|, size - o);
    var (fat', next) := Allocate(fat, last);
    AllocateExtends(fat, c);
    if r == |bytes| || next == 0 {
      added := [];
      WriteOnce(fat, data, size, c, |c| - 1, o, bytes, r);
    } else {
      var data' := data[last := Overwrite(data[last], o, bytes[..r])];
      var more := WriteAtEnd(fat', data', size, c + [next], 0, bytes[r..]);
      added := [next] + more;
      WriteMore(fat, data, size, c, o, bytes, WriteFrom(fat', data', size, next, 0, bytes[r..]), more);
    }
  }

  /** ... and every other file keeps its chain and its bytes. */
  lemma OtherFilesKept(fat: Table, data: seq<Bytes>, out: Outcome, size: nat, c: Chain, q: nat, added: Chain, d: Chain)
    requires Disk(fat, data, size) && IsChain(fat, c) && q < |c| && Touches(fat, data, out, c[q], added)
    requires IsChain(fat, d) && Apart(c, d)
    ensures IsChain(out.fat, d) && Apart(c + added, d) && Flat(out.data, d) == Flat(data, d)
  {
    forall x | x in added
      ensures x !in d
    {
      InUse(fat, d, x);
    }
    forall i | 0 <= i < |d|
      ensures out.fat[d[i]] == fat[d[i]] && out.data[d[i]] == data[d[i]]
    {
      assert d[i] in d && c[q] != d[i];
    }
    FlatSame(data, out.data, d);
  }

  lemma SmallTable(fat: Table)
    requires ValidTable(fat)
    ensures |fat| <= 0xFFF7
  {
  }

  lemma LastInTable(fat: Table, c: Chain)
    requires IsChain(fat, c)
    ensures |c| > 0 && 2 <= c[|c| - 1] < |fat| && fat[c[|c| - 1]] == END
  {
  }

  /** n clusters after the first are exactly what `end` bytes take. */
  ghost predicate JustEnough(n: int, size: int, end: int) {
    n >= 0 && (n > 0 ==> n * size < end) && end <= (n + 1) * size
  }

  lemma OneMoreIsNeeded(n: int, size: int, w: int)
    requires w > 0 && JustEnough(n, size, w)
    ensures JustEnough(n + 1, size, size + w)
  {
    MulSucc(n, size);
    MulSucc(n + 1, size);
  }

  lemma FirstIsEnough(size: int, end: int)
    requires end <= size
    ensures JustEnough(0, size, end)
  {
  }

  /** No cluster is taken without being written to. */
  lemma {:induction false} NoneWasted(fat: Table, data: seq<Bytes>, size: nat, c: Chain, o: nat, bytes: Bytes)
    requires Disk(fat, data, size) && IsChain(fat, c) && o < size
    ensures var out := WriteFrom(fat, data, size, c[|c| - 1], o, bytes);
      && JustEnough(FreeCount(fat) - FreeCount(out.fat), size, o + out.written)
      && (bytes != [] ==> out.written > 0)
    decreases |bytes|
  {
    hide Overwrite, Allocate, FreeCount, IsChain, ValidTable, FirstFree, JustEnough;
    LastInTable(fat, c);
    var last, r := c[|c| - 1], Min(|bytes|, size - o);
    var data' := data[last := Overwrite(data[last], o, bytes[..r])];
    SmallTable(fat);
    var (fat', next) := Allocate(fat, last);
    AllocateExtends(fat, c);
    if r == |bytes| || next == 0 {
      FirstIsEnough(size, o + r);
    } else {
      NoneWasted(fat', data', size, c + [next], 0, bytes[r..]);
      var rest := WriteFrom(fat', data', size, next, 0, bytes[r..]);
      OneMoreIsNeeded(FreeCount(fat') - FreeCount(rest.fat), size, rest.written);
    }
  }

  // ------------------------------------------------- where the loop goes wrong

  /** In a cluster that does not end its chain the loop never leaves that cluster. */
  lemma {:induction false} WriteStays(fat: Table, data: seq<Bytes>, size: nat, cur: u16, o: nat, bytes: Bytes)
    requires Disk(fat, data, size) && cur < |fat| && o < size && fat[cur] != END
    ensures var out := WriteFrom(fat, data, size, cur, o, bytes);
      && out.fat == fat && out.written == |bytes| && ValidData(fat, out.data, size)
      && forall x :: 0 <= x < |data| && x != cur ==> out.data[x] == data[x]
    decreases |bytes|
  {
    var r := Min(|bytes|, size - o);
    if r < |bytes| {
      hide Overwrite, ValidTable;
      WriteStays(fat, data[cur := Overwrite(data[cur], o, bytes[..r])], size, cur, 0, bytes[r..]);
    }
  }

  ghost predicate AsMeant(fat: Table, data: seq<Bytes>, c: Chain, at: int, bytes: Bytes, out: Outcome) {
    0 <= at && exists added :: FlatWrite(fat, data, c, at, bytes, out, added)
  }

  /** The loop as a write to the file, for any data of a given length. */
  ghost predicate Faithful(fat: Table, data: seq<Bytes>, size: nat, c: Chain, q: nat, o: nat, len: nat)
    requires Disk(fat, data, size) && IsChain(fat, c) && q < |c| && o < size
  {
    forall bytes: Bytes :: |bytes| == len ==>
      AsMeant(fat, data, c, q * size + o, bytes, WriteFrom(fat, data, size, c[q], o, bytes))
  }

  /** fwrite does to every data of this length what it is meant to do if, and only if, it
      starts in the last cluster of the file or stays inside the cluster it starts in. */
  lemma FaithfulExactly(fat: Table, data: seq<Bytes>, size: nat, c: Chain, q: nat, o: nat, len: nat)
    requires Disk(fat, data, size) && IsChain(fat, c) && q < |c| && o < size
    ensures Faithful(fat, data, size, c, q, o, len) <==> q == |c| - 1 || o + len <= size
  {
    if q == |c| - 1 || o + len <= size {
      forall bytes: Bytes | |bytes| == len
        ensures AsMeant(fat, data, c, q * size + o, bytes, WriteFrom(fat, data, size, c[q], o, bytes))
      {
        var added := FaithfulHere(fat, data, size, c, q, o, bytes);
      }
    } else {
      var bytes := WrongBytes(fat, data, size, c, q, o, len);
    }
  }

  lemma FaithfulHere(fat: Table, data: seq<Bytes>, size: nat, c: Chain, q: nat, o: nat, bytes: Bytes)
    returns (added: Chain)
    requires Disk(fat, data, size) && IsChain(fat, c) && q < |c| && o < size
    requires q == |c| - 1 || o + |bytes| <= size
    ensures FileWrite(fat, data, size, c, q, o, bytes, WriteFrom(fat, data, size, c[q], o, bytes), added)
    ensures AsMeant(fat, data, c, q * size + o, bytes, WriteFrom(fat, data, size, c[q], o, bytes))
  {
    if q == |c| - 1 {
      added := WriteAtEnd(fat, data, size, c, o, bytes);
    } else {
      added := [];
      WriteOnce(fat, data, size, c, q, o, bytes, |bytes|);
    }
  }

  /** Data that a crossing write in the middle of a file loses: its bytes for the next
      cluster never get there. */
  lemma WrongBytes(fat: Table, data: seq<Bytes>, size: nat, c: Chain, q: nat, o: nat, len: nat) returns (bytes: Bytes)
    requires Disk(fat, data, size) && IsChain(fat, c) && q < |c| - 1 && o < size < o + len
    ensures |bytes| == len
    ensures !AsMeant(fat, data, c, q * size + o, bytes, WriteFrom(fat, data, size, c[q], o, bytes))
  {
    var was := data[c[q + 1]][0];
    bytes := seq(len, i => if was == 0 then 1 else 0);
    assert fat[c[q]] == c[q + 1];
    WriteStays(fat, data, size, c[q], o, bytes);
    var out := WriteFrom(fat, data, size, c[q], o, bytes);
    assert out.data[c[q + 1]] == data[c[q + 1]] by {
      ChainIsAcyclic(fat, c, q, q + 1);
    }
    if AsMeant(fat, data, c, q * size + o, bytes, out) {
      var added :| FlatWrite(fat, data, c, q * size + o, bytes, out, added);
      NotFlat(fat, data, size, c, q, o, bytes, out, added);
    }
  }

  lemma NotFlat(fat: Table, data: seq<Bytes>, size: nat, c: Chain, q: nat, o: nat, bytes: Bytes,
                out: Outcome, added: Chain)
    requires Disk(fat, data, size) && IsChain(fat, c) && q < |c| - 1 && o < size < o + |bytes|
    requires out.fat == fat && out.written == |bytes| && |out.data| == |data| && ValidData(fat, out.data, size)
    requires out.data[c[q + 1]] == data[c[q + 1]] && data[c[q + 1]][0] != bytes[size - o]
    ensures !(0 <= q * size + o && FlatWrite(fat, data, c, q * size + o, bytes, out, added))
  {
    hide Flat, Overwrite, FreeCount;
    if IsChain(fat, c + added) {
      ChainIsDetermined(fat, c, c + added);
      assert added == [] && c + added == c && bytes[..out.written] == bytes;
      MulSucc(q, size);
      MulAtLeast(size, q);
      FlatSlice(data, c, q + 1, size, 0, 1);
      FlatSlice(out.data, c, q + 1, size, 0, 1);
      hide IsChain;
      NextByte(Flat(data, c), q * size + o, bytes, (q + 1) * size, Flat(out.data, c), data[c[q + 1]][0]);
    }
  }

  lemma NextByte(s: Bytes, at: nat, bytes: Bytes, p: nat, s': Bytes, b: u8)
    requires at <= p < at + |bytes| && p < |s| && p < |s'| && s[p..p + 1] == [b] == s'[p..p + 1]
    requires bytes[p - at] != b
    ensures !(at + |bytes| <= |s| && s' == Overwrite(s, at, bytes))
  {
    assert s'[p] == s'[p..p + 1][0];
  }
}
