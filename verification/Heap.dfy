/** kernel/malloc.c: the heap whose headers lie between the bytes it hands out. */
module Heap {
  import opened MachineWords
  import opened Blocks
  import opened ByteStrings

  // -------------------------------------------------- words in the bytes

  /** Little-endian, as the i386 stores it. */
  function Word(b0: int, b1: int, b2: int, b3: int): int {
    b0 + 0x100 * b1 + 0x1_0000 * b2 + 0x100_0000 * b3
  }

  function Get32(m: Bytes, i: nat): u32
    requires i + 4 <= |m|
  {
    Word(m[i], m[i + 1], m[i + 2], m[i + 3])
  }

  lemma Bytewise(w: u32)
    ensures Word(w % 0x100, w / 0x100 % 0x100, w / 0x1_0000 % 0x100, w / 0x100_0000) == w
  {
    var q1, q2 := w / 0x100, w / 0x1_0000;
    assert w == 0x100 * q1 + w % 0x100 && q1 == 0x100 * q2 + q1 % 0x100;
    assert q2 == 0x100 * (w / 0x100_0000) + q2 % 0x100;
  }

  /** The bytes outside lo..hi are the same. */
  ghost predicate SameOutside(m: Bytes, m': Bytes, lo: int, hi: int) {
    |m'| == |m| && forall i :: 0 <= i < |m| && !(lo <= i < hi) ==> m'[i] == m[i]
  }

  ghost predicate SameWithin(m: Bytes, m': Bytes, lo: int, hi: int) {
    |m'| == |m| && forall i :: 0 <= i < |m| && lo <= i < hi ==> m'[i] == m[i]
  }

  /** The word w stored at i, and nothing else. */
  ghost predicate Stored(m: Bytes, m': Bytes, i: nat, w: u32) {
    i + 4 <= |m| && SameOutside(m, m', i, i + 4) && Get32(m', i) == w
  }

  /** `n` bytes from `from` on in m are those from `to` on in m'. */
  ghost predicate Copied(m: Bytes, from: nat, m': Bytes, to: nat, n: nat) {
    from + n <= |m| && to + n <= |m'| && m'[to..to + n] == m[from..from + n]
  }

  // ----------------------------------------------------- headers, block lists

  function NextPointer(bs: seq<Block>, k: nat): nat
    requires k < |bs|
  {
    if k + 1 < |bs| then START_ADDR + bs[k + 1].at else 0
  }

  ghost predicate Header(m: Bytes, b: Block, next: nat) {
    && b.Payload() <= |m|
    && Get32(m, b.at) == b.size
    && Get32(m, b.at + 4) == (if b.free then 1 else 0)
    && Get32(m, b.at + 8) == next
  }

  /** The bytes hold this block list. */
  ghost predicate Holds(m: Bytes, bs: seq<Block>) {
    && |m| == SPAN && Tiles(bs, 0, SPAN)
    && forall k {:trigger NextPointer(bs, k)} :: 0 <= k < |bs| ==> Header(m, bs[k], NextPointer(bs, k))
  }

  lemma HeaderKept(m: Bytes, m': Bytes, b: Block, next: nat)
    requires Header(m, b, next) && SameWithin(m, m', b.at, b.Payload())
    ensures Header(m', b, next)
  {
    hide Word;
  }

  /** Where a block of a spliced list comes from, and what its link is. */
  lemma SpliceIndex(bs: seq<Block>, k: nat, hi: nat, mid: seq<Block>, j: nat)
    requires k < hi <= |bs| && |mid| > 0 && mid[0].at == bs[k].at && j < |Splice(bs, k, hi, mid)|
    ensures var bs' := Splice(bs, k, hi, mid);
      if j < k then bs'[j] == bs[j] && NextPointer(bs', j) == NextPointer(bs, j)
      else if j < k + |mid| then bs'[j] == mid[j - k] && NextPointer(bs', j) == LinkOf(bs, hi, mid, j - k)
      else
        var i := j - |mid| + hi - k;
        hi <= i < |bs| && bs'[j] == bs[i] && NextPointer(bs', j) == NextPointer(bs, i)
  {
  }

  /** The link of a block of `mid` when `mid` ends before block hi. */
  function LinkOf(bs: seq<Block>, hi: nat, mid: seq<Block>, j: nat): nat
    requires 0 < hi <= |bs| && j < |mid|
  {
    if j + 1 < |mid| then START_ADDR + mid[j + 1].at else NextPointer(bs, hi - 1)
  }

  /** New blocks in the place of the blocks k..hi are held once their own headers are. */
  lemma SpliceHeld(m: Bytes, m': Bytes, bs: seq<Block>, k: nat, hi: nat, mid: seq<Block>)
    requires Holds(m, bs) && k < hi <= |bs| && Tiles(mid, bs[k].at, bs[hi - 1].End())
    requires SameOutside(m, m', bs[k].at, bs[hi - 1].End())
    requires forall j :: 0 <= j < |mid| ==> Header(m', mid[j], LinkOf(bs, hi, mid, j))
    ensures Holds(m', Splice(bs, k, hi, mid))
  {
    var bs' := Splice(bs, k, hi, mid);
    SpliceTiles(bs, k, hi, mid, 0, SPAN);
    hide Header, NextPointer, Splice, LinkOf;
    forall j | 0 <= j < |bs'|
      ensures Header(m', bs'[j], NextPointer(bs', j))
    {
      SpliceIndex(bs, k, hi, mid, j);
      if j < k {
        HeaderOutside(m, m', bs, j, k, hi);
      } else if j >= k + |mid| {
        HeaderOutside(m, m', bs, j - |mid| + hi - k, k, hi);
      }
    }
  }

  lemma HeaderOutside(m: Bytes, m': Bytes, bs: seq<Block>, i: nat, k: nat, hi: nat)
    requires Holds(m, bs) && k < hi <= |bs| && i < |bs| && (i < k || i >= hi)
    requires SameOutside(m, m', bs[k].at, bs[hi - 1].End())
    ensures Header(m', bs[i], NextPointer(bs, i))
  {
    if i < k {
      InOrder(bs, i, k);
    } else {
      InOrder(bs, hi - 1, i);
    }
    HeaderKept(m, m', bs[i], NextPointer(bs, i));
  }

  /** The bytes of every block's payload, but the one at `except`, are the same. */
  ghost predicate PayloadsKept(m: Bytes, m': Bytes, bs: seq<Block>, except: int) {
    forall k :: 0 <= k < |bs| && k != except ==> SameWithin(m, m', bs[k].Payload(), bs[k].End())
  }

  lemma OthersKept(m: Bytes, bs: seq<Block>, k: nat)
    requires Adjoining(bs) && k < |bs|
    ensures forall m' :: SameOutside(m, m', bs[k].at, bs[k].End()) ==> PayloadsKept(m, m', bs, k)
  {
    forall m', j | SameOutside(m, m', bs[k].at, bs[k].End()) && 0 <= j < |bs| && j != k
      ensures SameWithin(m, m', bs[j].Payload(), bs[j].End())
    {
      Disjoint(bs, j, k);
    }
  }

  /** No call of the run is handed this pointer. */
  predicate Unnamed(ops: seq<Op>, ptr: nat) {
    forall i :: 0 <= i < |ops| ==> ops[i].MallocOp? || ops[i].ptr != ptr
  }

  /** A run of calls that are each legal where they come, on 32-bit words. */
  ghost predicate LegalRun(bs: seq<Block>, ops: seq<Op>)
    decreases |ops|
  {
    ops == [] || (Good(bs) && Legal(bs, ops[0]) && Fits(ops[0]) && LegalRun(Step(bs, ops[0]), ops[1..]))
  }

  predicate Fits(op: Op) {
    match op
    case MallocOp(size) => size < TWO32
    case FreeOp(ptr) => ptr < TWO32
    case ReallocOp(ptr, size) => ptr < TWO32 && size < TWO32
  }

  /** The blocks that are live and that no call of the run names are still there, byte for byte. */
  ghost predicate LiveKept(m: Bytes, bs: seq<Block>, m': Bytes, bs': seq<Block>, ops: seq<Op>) {
    forall b :: b in Live(bs) && Unnamed(ops, b.Pointer()) ==> b in Live(bs') && SameWithin(m, m', b.Payload(), b.End())
  }

  lemma LiveKeptOnce(m: Bytes, bs: seq<Block>, m': Bytes, op: Op, except: int)
    requires Good(bs) && Legal(bs, op) && PayloadsKept(m, m', bs, except)
    requires 0 <= except < |bs| ==> bs[except].free
    ensures LiveKept(m, bs, m', Step(bs, op), [op])
  {
    StepMeaning(bs, op);
    hide Step, Good, SameWithin;
    forall b | b in Live(bs) && Unnamed([op], b.Pointer())
      ensures b in Live(Step(bs, op)) && SameWithin(m, m', b.Payload(), b.End())
    {
      assert [op][0] == op;
      var k :| 0 <= k < |bs| && bs[k] == b;
    }
  }

  lemma LiveKeptTwice(m: Bytes, bs: seq<Block>, m1: Bytes, bs1: seq<Block>, m2: Bytes, bs2: seq<Block>, ops: seq<Op>)
    requires ops != [] && LiveKept(m, bs, m1, bs1, ops[..1]) && LiveKept(m1, bs1, m2, bs2, ops[1..])
    ensures LiveKept(m, bs, m2, bs2, ops)
  {
    forall b | b in Live(bs) && Unnamed(ops, b.Pointer())
      ensures b in Live(bs2) && SameWithin(m, m2, b.Payload(), b.End())
    {
      assert Unnamed(ops[..1], b.Pointer()) && Unnamed(ops[1..], b.Pointer());
    }
  }

  lemma NothingKept(m: Bytes, bs: seq<Block>, k: int)
    ensures PayloadsKept(m, m, bs, k)
  {
  }

  lemma Begins(m: Bytes, bs: seq<Block>)
    requires Holds(m, bs)
    ensures |bs| > 0 && bs[0].at == 0 && Adjoining(bs)
  {
  }

  /** Writing to one payload leaves the headers alone. */
  lemma PayloadWriteHeld(m: Bytes, m': Bytes, bs: seq<Block>, i: nat)
    requires Holds(m, bs) && i < |bs| && SameOutside(m, m', bs[i].Payload(), bs[i].End())
    ensures Holds(m', bs)
  {
    forall k | 0 <= k < |bs|
      ensures Header(m', bs[k], NextPointer(bs, k))
    {
      InSpan(bs, k);
      if k != i {
        Disjoint(bs, k, i);
      }
      HeaderKept(m, m', bs[k], NextPointer(bs, k));
    }
  }

  /** The blocks that malloc did not take, and the one it made. */
  lemma CarvedBlocks(bs: seq<Block>, k: nat, size: nat)
    requires k < |bs| && bs[k].size >= size
    ensures forall j :: 0 <= j < |bs| && j != k ==> bs[j] in Carve(bs, k, size)
    ensures k < |Carve(bs, k, size)| && Carve(bs, k, size)[k].at == bs[k].at
    ensures size <= Carve(bs, k, size)[k].size <= bs[k].size
  {
    var bs' := Carve(bs, k, size);
    forall j | 0 <= j < |bs| && j != k
      ensures bs[j] in bs'
    {
      assert bs'[if j < k then j else j - 1 + |Parts(bs[k], size)|] == bs[j];
    }
  }

  /** What malloc, a copy into the new block, and free together keep. */
  lemma ReallocKeeps(m0: Bytes, m1: Bytes, m2: Bytes, m3: Bytes, bs0: seq<Block>, k: nat, n: nat, size: nat, i: nat)
    requires Adjoining(bs0) && k < |bs0| && bs0[k].size >= size >= n && i < |bs0| && i != k
    requires PayloadsKept(m0, m1, bs0, k) && PayloadsKept(m2, m3, Carve(bs0, k, size), -1)
    requires SameOutside(m1, m2, bs0[k].Payload(), bs0[k].Payload() + n)
    requires |m0| == |m1| == |m2| == |m3|
    ensures PayloadsKept(m0, m3, bs0, k)
    ensures SameWithin(m2, m3, bs0[k].Payload(), bs0[k].Payload() + n)
    ensures n <= bs0[i].size ==> SameWithin(m0, m1, bs0[i].Payload(), bs0[i].Payload() + n)
  {
    CarvedBlocks(bs0, k, size);
    var bs1 := Carve(bs0, k, size);
    hide Carve;
    forall j | 0 <= j < |bs0| && j != k
      ensures SameWithin(m0, m3, bs0[j].Payload(), bs0[j].End())
    {
      Disjoint(bs0, j, k);
      var i :| 0 <= i < |bs1| && bs1[i] == bs0[j];
      assert SameWithin(m2, m3, bs1[i].Payload(), bs1[i].End());
    }
    assert SameWithin(m2, m3, bs1[k].Payload(), bs1[k].End());
  }

  /** Where realloc finds its two blocks after malloc. */
  lemma ReallocBlocks(bs0: seq<Block>, ptr: nat, size: nat)
    requires Good(bs0) && LivePointer(bs0, ptr) && Blocks.Malloc(bs0, size).1 != 0
    ensures var k, i, bs1 := FirstFit(bs0, size), Find(bs0, ptr), Blocks.Malloc(bs0, size).0;
      var j := Find(bs1, ptr);
      && k < |bs0| && k < |bs1| && i != k && j < |bs1| && j != k
      && bs1 == Carve(bs0, k, size) && !bs1[k].free && !bs1[j].free
      && bs1[k].Pointer() == bs0[k].Pointer() == Blocks.Malloc(bs0, size).1 && size <= bs1[k].size <= bs0[k].size
      && bs1[j] == bs0[i] && bs1[j].Pointer() == ptr && LivePointer(bs1, ptr)
  {
    var k, i := FirstFit(bs0, size), Find(bs0, ptr);
    MallocKeepsPointer(bs0, size, ptr);
    CarvedBlocks(bs0, k, size);
    SameHeadNot(bs0, i, k);
  }

  lemma SameHeadNot(bs: seq<Block>, i: nat, k: nat)
    requires Adjoining(bs) && i < |bs| && k < |bs| && bs[i].free != bs[k].free
    ensures bs[i].at != bs[k].at
  {
    Disjoint(bs, i, k);
  }

  lemma PayloadsApart(bs: seq<Block>, i: nat, j: nat)
    requires Good(bs) && i < |bs| && j < |bs| && i != j
    ensures bs[i].End() <= SPAN && bs[j].End() <= SPAN
    ensures bs[i].End() <= bs[j].Payload() || bs[j].End() <= bs[i].Payload()
  {
    InSpan(bs, i);
    InSpan(bs, j);
    Disjoint(bs, i, j);
  }

  /** One more byte copied, from outside the bytes already written. */
  lemma OneMoreCopied(m: Bytes, from: nat, m1: Bytes, m': Bytes, to: nat, n: nat)
    requires Copied(m, from, m1, to, n) && SameOutside(m, m1, to, to + n)
    requires from + n < |m| && to + n < |m1| && !(to <= from + n < to + n)
    requires m' == m1[to + n := m1[from + n]]
    ensures Copied(m, from, m', to, n + 1) && SameOutside(m, m', to, to + n + 1)
  {
    assert m'[to..to + (n + 1)] == m1[to..to + n] + [m[from + n]];
    assert m[from..from + (n + 1)] == m[from..from + n] + [m[from + n]];
  }

  lemma NoneCopied(m: Bytes, from: nat, to: nat)
    requires from <= |m| && to <= |m|
    ensures Copied(m, from, m, to, 0) && SameOutside(m, m, to, to)
  {
  }

  lemma OutsideMore(m: Bytes, m': Bytes, lo: int, hi: int, hi': int)
    requires SameOutside(m, m', lo, hi) && hi <= hi'
    ensures SameOutside(m, m', lo, hi')
  {
  }

  lemma CopiedKept(m0: Bytes, m1: Bytes, from: nat, m2: Bytes, m3: Bytes, to: nat, n: nat)
    requires Copied(m1, from, m2, to, n) && SameWithin(m0, m1, from, from + n) && SameWithin(m2, m3, to, to + n)
    ensures Copied(m0, from, m3, to, n)
  {
    assert m1[from..from + n] == m0[from..from + n];
    assert m3[to..to + n] == m2[to..to + n];
  }

  /** Three stores make a header, in whatever order; here in the two orders of `malloc`. */
  lemma HeaderStored(m: Bytes, m1: Bytes, m2: Bytes, m': Bytes, b: Block, next: u32)
    requires b.size < TWO32 && b.Payload() <= |m|
    requires var free := if b.free then 1 else 0;
      || (Stored(m, m1, b.at, b.size) && Stored(m1, m2, b.at + 4, free) && Stored(m2, m', b.at + 8, next))
      || (Stored(m, m1, b.at + 8, next) && Stored(m1, m2, b.at, b.size) && Stored(m2, m', b.at + 4, free))
    ensures Header(m', b, next) && SameOutside(m, m', b.at, b.Payload())
  {
    hide Word;
  }

  /** What the loop of `malloc` and `free` reads at block k. */
  lemma HeaderAt(m: Bytes, bs: seq<Block>, k: nat)
    requires Holds(m, bs) && k < |bs|
    ensures bs[k].End() <= SPAN
    ensures Get32(m, bs[k].at) == bs[k].size && Get32(m, bs[k].at + 4) == (if bs[k].free then 1 else 0)
    ensures Get32(m, bs[k].at + 8) == if k + 1 < |bs| then START_ADDR + bs[k + 1].at else 0
  {
    InSpan(bs, k);
    if k + 1 < |bs| {
      InSpan(bs, k + 1);
    }
    assert Header(m, bs[k], NextPointer(bs, k));
  }

  lemma OneBlockHeld(m: Bytes)
    requires |m| == SPAN && Get32(m, 0) == INITIAL_SIZE && Get32(m, 4) == 1 && Get32(m, 8) == 0
    ensures Holds(m, INITIAL) && Good(INITIAL) && Inside(INITIAL)
  {
    hide Get32;
  }

  /** A header says all about its block. */
  lemma SameHeader(m: Bytes, b: Block, next: nat, c: Block, next': nat)
    requires b.at == c.at && Header(m, b, next) && Header(m, c, next')
    ensures b == c && next == next'
  {
    hide Get32;
  }

  lemma {:induction false} SamePrefix(m: Bytes, a: seq<Block>, b: seq<Block>, k: nat)
    requires Holds(m, a) && Holds(m, b) && k < |a|
    ensures k < |b| && a[k] == b[k]
    decreases k
  {
    hide Header;
    if k == 0 {
      SameHeader(m, a[0], NextPointer(a, 0), b[0], NextPointer(b, 0));
    } else {
      SamePrefix(m, a, b, k - 1);
      SameHeader(m, a[k - 1], NextPointer(a, k - 1), b[k - 1], NextPointer(b, k - 1));
      SameHeader(m, a[k], NextPointer(a, k), b[k], NextPointer(b, k));
    }
  }

  /** The bytes determine the block list. */
  lemma BytesDetermineBlocks(m: Bytes, a: seq<Block>, b: seq<Block>)
    requires Holds(m, a) && Holds(m, b)
    ensures a == b
  {
    SamePrefix(m, a, b, |a| - 1);
    SamePrefix(m, b, a, |b| - 1);
    forall k | 0 <= k < |a|
      ensures a[k] == b[k]
    {
      SamePrefix(m, a, b, k);
    }
  }

  /** A block cut in two: the header of the second part written, then that of the first. */
  lemma CutHeld(m: Bytes, m1: Bytes, m': Bytes, bs: seq<Block>, k: nat, size: u32)
    requires Holds(m, bs) && Good(bs) && k < |bs| && bs[k].free && bs[k].size >= size + HEADER + 4
    requires var mid := Parts(bs[k], size);
      && SameOutside(m, m1, mid[1].at, mid[1].Payload()) && Header(m1, mid[1], NextPointer(bs, k))
      && SameOutside(m1, m', mid[0].at, mid[0].Payload()) && Header(m', mid[0], START_ADDR + mid[1].at)
    ensures Holds(m', Carve(bs, k, size)) && Good(Carve(bs, k, size))
    ensures SameOutside(m, m', bs[k].at, bs[k].End())
  {
    hide Header, Splice, Good;
    var mid := Parts(bs[k], size);
    HeaderKept(m1, m', mid[1], NextPointer(bs, k));
    CarveKeepsGood(bs, k, size);
    SpliceHeld(m, m', bs, k, k + 1, mid);
  }

  /** Storing a `free` field changes nothing but the block's state. */
  lemma FreeFieldStored(m: Bytes, m': Bytes, bs: seq<Block>, k: nat, free: u32)
    requires Holds(m, bs) && k < |bs| && free < 2 && Stored(m, m', bs[k].at + 4, free)
    ensures Holds(m', bs[k := bs[k].(free := free == 1)])
    ensures SameOutside(m, m', bs[k].at, bs[k].Payload())
  {
    var b, next := bs[k], NextPointer(bs, k);
    InSpan(bs, k);
    FreeFieldInHeader(m, m', b, next, free);
    SpliceOne(bs, k, b.(free := free == 1));
    hide Header, Splice, Get32;
    SpliceHeld(m, m', bs, k, k + 1, [b.(free := free == 1)]);
  }

  lemma FreeFieldInHeader(m: Bytes, m': Bytes, b: Block, next: nat, free: u32)
    requires Header(m, b, next) && free < 2 && Stored(m, m', b.at + 4, free)
    ensures Header(m', b.(free := free == 1), next) && SameOutside(m, m', b.at, b.Payload())
  {
    hide Word;
  }

  lemma SpliceOne(bs: seq<Block>, k: nat, b: Block)
    requires k < |bs|
    ensures Splice(bs, k, k + 1, [b]) == bs[k := b]
  {
  }

  /** A block taken whole. */
  lemma TakenHeld(m: Bytes, m': Bytes, bs: seq<Block>, k: nat, size: u32)
    requires Holds(m, bs) && Good(bs) && k < |bs| && bs[k].free && size <= bs[k].size < size + HEADER + 4
    requires Stored(m, m', bs[k].at + 4, 0)
    ensures Holds(m', Carve(bs, k, size)) && Good(Carve(bs, k, size))
    ensures SameOutside(m, m', bs[k].at, bs[k].End())
  {
    SpliceOne(bs, k, bs[k].(free := false));
    FreeFieldStored(m, m', bs, k, 0);
    CarveKeepsGood(bs, k, size);
    hide Splice, Holds, Good, Get32;
  }

  /** Joining block k with its successor: two fields of its header change. */
  lemma JoinHeld(m: Bytes, m': Bytes, bs: seq<Block>, k: nat)
    requires Holds(m, bs) && k + 1 < |bs| && bs[k].free && bs[k + 1].free
    requires SameOutside(m, m', bs[k].at, bs[k].Payload())
    requires Header(m', Join(bs[k], bs[k + 1]), NextPointer(bs, k + 1))
    ensures Holds(m', Splice(bs, k, k + 2, [Join(bs[k], bs[k + 1])]))
  {
    var mid := [Join(bs[k], bs[k + 1])];
    assert bs[k + 1].at == bs[k].End();
    assert Tiles(mid, bs[k].at, bs[k + 1].End());
    hide Header, Splice;
    SpliceHeld(m, m', bs, k, k + 2, mid);
  }

  lemma JoinStored(m: Bytes, m1: Bytes, m': Bytes, b: Block, next: nat, size: u32, next': u32)
    requires Header(m, b, next) && Stored(m, m1, b.at, size) && Stored(m1, m', b.at + 8, next')
    ensures Header(m', b.(size := size), next') && SameOutside(m, m', b.at, b.Payload())
  {
    hide Get32;
    GetKept(m, m1, b.at, b.at + 4, b.at + 4);
    GetKept(m1, m', b.at + 8, b.at + 12, b.at);
    GetKept(m1, m', b.at + 8, b.at + 12, b.at + 4);
  }

  lemma GetKept(m: Bytes, m': Bytes, lo: int, hi: int, i: nat)
    requires SameOutside(m, m', lo, hi) && i + 4 <= |m| && (i + 4 <= lo || hi <= i)
    ensures Get32(m', i) == Get32(m, i)
  {
  }

  /** How far the pass of `free` has come: before block k all is done. */
  ghost predicate Passed(bs0: seq<Block>, bs: seq<Block>, k: nat) {
    k < |bs| && Merge(bs0) == bs[..k] + Merge(bs[k..])
  }

  lemma PassOn(bs0: seq<Block>, bs: seq<Block>, k: nat)
    requires Passed(bs0, bs, k)
    ensures k + 1 == |bs| ==> Merge(bs0) == bs
    ensures k + 1 < |bs| && !(bs[k].free && bs[k + 1].free) ==> Passed(bs0, bs, k + 1)
    ensures k + 1 < |bs| && bs[k].free && bs[k + 1].free ==>
      Passed(bs0, Splice(bs, k, k + 2, [Join(bs[k], bs[k + 1])]), k)
  {
    if k + 1 < |bs| {
      assert bs[k..][1..] == bs[k + 1..] && bs[k..][2..] == bs[k + 2..];
      assert bs[..k] + [bs[k]] == bs[..k + 1];
      var bs' := Splice(bs, k, k + 2, [Join(bs[k], bs[k + 1])]);
      assert bs'[..k] == bs[..k] && bs'[k..] == [Join(bs[k], bs[k + 1])] + bs[k + 2..];
    } else {
      assert bs[..k] + bs[k..] == bs;
    }
  }

  ghost function Heads(bs: seq<Block>): set<nat> {
    set b | b in bs :: b.at
  }

  lemma HeadIn(bs: seq<Block>, k: nat)
    requires k < |bs|
    ensures bs[k].at in Heads(bs)
  {
  }

  lemma FirstPassed(m: Bytes, bs: seq<Block>)
    requires Holds(m, bs)
    ensures bs != [] && bs[0].at == 0 && Passed(bs, bs, 0)
  {
    hide Merge, Header;
    assert bs[..0] + Merge(bs[0..]) == Merge(bs) by {
      assert bs[0..] == bs;
    }
  }

  lemma JoinKeepsHeads(bs: seq<Block>, k: nat)
    requires k + 1 < |bs|
    ensures var bs' := Splice(bs, k, k + 2, [Join(bs[k], bs[k + 1])]);
      |bs'| == |bs| - 1 && bs'[k].at == bs[k].at && Heads(bs') <= Heads(bs)
  {
    var bs' := Splice(bs, k, k + 2, [Join(bs[k], bs[k + 1])]);
    forall b | b in bs'
      ensures b.at in Heads(bs)
    {
      var j :| 0 <= j < |bs'| && bs'[j] == b;
      assert b.at == bs[if j <= k then j else j + 1].at;
    }
  }

  lemma MarkKeepsHeads(m: Bytes, bs: seq<Block>, k: nat)
    requires k < |bs|
    ensures Heads(bs[k := bs[k].(free := true)]) <= Heads(bs) && bs[k].at in Heads(bs)
    ensures PayloadsKept(m, m, bs, -1)
  {
    assert bs[k] in bs;
  }

  /** Rewriting a header leaves every payload alone. */
  lemma HeaderWriteKeepsPayloads(m: Bytes, m1: Bytes, m': Bytes, bs: seq<Block>, at: nat)
    requires Adjoining(bs) && at in Heads(bs) && PayloadsKept(m, m1, bs, -1) && |m| == |m1|
    requires SameOutside(m1, m', at, at + HEADER)
    ensures PayloadsKept(m, m', bs, -1) && |m| == |m'|
  {
    var b :| b in bs && b.at == at;
    var i :| 0 <= i < |bs| && bs[i] == b;
    forall k | 0 <= k < |bs|
      ensures SameWithin(m, m', bs[k].Payload(), bs[k].End())
    {
      if k != i {
        Disjoint(bs, k, i);
      }
    }
  }

  /** Below which all headers end. */
  ghost function Edge(bs: seq<Block>): nat {
    if Inside(bs) then INITIAL_SIZE else SPAN
  }

  lemma HeadsBelowEdge(bs: seq<Block>)
    requires Adjoining(bs) && Tiles(bs, 0, SPAN)
    ensures forall k :: 0 <= k < |bs| ==> bs[k].Payload() <= Edge(bs)
    ensures forall h :: h in Heads(bs) ==> h + HEADER <= Edge(bs)
  {
    forall k | 0 <= k < |bs|
      ensures bs[k].Payload() <= Edge(bs)
    {
      InSpan(bs, k);
      assert bs[k] in bs;
    }
  }

  /** A request met from the last block, whose header for the rest is stored behind the mapped bytes. */
  predicate Spills(bs: seq<Block>, size: nat)
    requires bs != []
  {
    FirstFit(bs, size) == |bs| - 1 && size + HEADER + 4 <= Last(bs).size < size + 2 * HEADER
  }

  /** Where the header of a cut block's rest ends. */
  lemma RestEnds(bs: seq<Block>, size: nat)
    requires Good(bs) && Inside(bs)
    requires FirstFit(bs, size) < |bs| && bs[FirstFit(bs, size)].size >= size + HEADER + 4
    ensures Parts(bs[FirstFit(bs, size)], size)[1].Payload() <= INITIAL_SIZE <==> !Spills(bs, size)
  {
    var k := FirstFit(bs, size);
    hide FirstFit;
    if k < |bs| - 1 {
      InOrder(bs, k, |bs| - 1);
      assert Last(bs) in bs;
    }
  }

  lemma FreeReaches(bs: seq<Block>, k: nat)
    requires Good(bs) && k < |bs|
    ensures Inside(bs) ==> Inside(Blocks.Free(bs, k)) && Edge(bs) == INITIAL_SIZE
  {
    hide Inside;
    if Inside(bs) {
      FreeStaysInside(bs, k);
    }
  }

  lemma InsideBlocks(bs: seq<Block>, i: nat, j: nat)
    requires i < |bs| && j < |bs| && !bs[i].free && !bs[j].free
    ensures Inside(bs) ==> bs[i].End() <= INITIAL_SIZE && bs[j].End() <= INITIAL_SIZE
  {
    assert bs[i] in bs && bs[j] in bs;
  }

  lemma MallocReaches(bs: seq<Block>, size: nat)
    requires Good(bs)
    ensures bs != [] && forall k :: 0 <= k < |bs| ==> bs[k].Payload() <= Edge(bs)
    ensures var k := FirstFit(bs, size);
      Inside(bs) ==>
        && (Inside(Blocks.Malloc(bs, size).0) <==> Roomy(bs, size))
        && (k < |bs| && bs[k].size >= size + HEADER + 4 ==>
              (Parts(bs[k], size)[1].Payload() <= INITIAL_SIZE <==> !Spills(bs, size)))
        && (k == |bs| || bs[k].size < size + HEADER + 4 ==> !Spills(bs, size))
        && (Roomy(bs, size) ==> !Spills(bs, size))
  {
    hide Inside, FirstFit, Blocks.Malloc, Parts;
    HeadsBelowEdge(bs);
    if Inside(bs) {
      MallocStaysInside(bs, size);
      var k := FirstFit(bs, size);
      if k < |bs| && bs[k].size >= size + HEADER + 4 {
        RestEnds(bs, size);
      }
    }
  }

  /** The sums of `malloc` never wrap: a request that some block can meet is small. */
  lemma NoWrap(size: u32)
    ensures size <= SPAN ==> Add32(size, HEADER + 4) == size + HEADER + 4
  {
  }

  class KernelHeap {
    /** The memory from START_ADDR on. */
    const memory: array<u8>
    ghost var blocks: seq<Block>
    /** How far above START_ADDR the furthest byte lies that has been read or written. */
    ghost var reach: nat

    ghost predicate Valid()
      reads `blocks, memory
    {
      memory.Length == SPAN && Holds(memory[..], blocks) && Good(blocks)
    }

    predicate InMemory(address: int) {
      START_ADDR <= address && address + 4 <= START_ADDR + Min(memory.Length, SPAN)
    }

    /** Everything so far has kept to the bytes that are mapped. */
    ghost predicate Within()
      reads `blocks, `reach
    {
      Inside(blocks) && reach <= INITIAL_SIZE
    }

    method Load(address: u32) returns (w: u32)
      requires InMemory(address)
      modifies `reach
      ensures reach == Max(old(reach), address - START_ADDR + 4)
      ensures w == Get32(memory[..], address - START_ADDR)
    {
      var i := address - START_ADDR;
      reach := Max(reach, i + 4);
      w := Word(memory[i], memory[i + 1], memory[i + 2], memory[i + 3]);
    }

    method Store(address: u32, w: u32)
      requires InMemory(address)
      modifies memory, `reach
      ensures reach == Max(old(reach), address - START_ADDR + 4)
      ensures Stored(old(memory[..]), memory[..], address - START_ADDR, w)
    {
      var i := address - START_ADDR;
      reach := Max(reach, i + 4);
      Bytewise(w);
      memory[i], memory[i + 1] := w % 0x100, w / 0x100 % 0x100;
      memory[i + 2], memory[i + 3] := w / 0x1_0000 % 0x100, w / 0x100_0000;
    }

    /** The three stores that make the second part of a block that is cut. */
    method StoreRest(newBlock: u32, size: u32, next: u32, ghost b: Block)
      requires InMemory(newBlock) && InMemory(newBlock + 8) && b == Block(newBlock - START_ADDR, size, true)
      modifies memory, `reach
      ensures reach == Max(old(reach), b.Payload())
      ensures Header(memory[..], b, next) && SameOutside(old(memory[..]), memory[..], b.at, b.Payload())
    {
      ghost var m := memory[..];
      Store(newBlock, size);
      ghost var m1 := memory[..];
      Store(newBlock + 4, 1);
      ghost var m2 := memory[..];
      Store(newBlock + 8, next);
      HeaderStored(m, m1, m2, memory[..], b, next);
    }

    /** The three stores that make the first part. */
    method StoreTaken(current: u32, size: u32, newBlock: u32, ghost b: Block)
      requires InMemory(current) && InMemory(current + 8) && b == Block(current - START_ADDR, size, false)
      modifies memory, `reach
      ensures reach == Max(old(reach), b.Payload())
      ensures Header(memory[..], b, newBlock) && SameOutside(old(memory[..]), memory[..], b.at, b.Payload())
    {
      ghost var m := memory[..];
      Store(current + 8, newBlock);
      ghost var m1 := memory[..];
      Store(current, size);
      ghost var m2 := memory[..];
      Store(current + 4, 0);
      HeaderStored(m, m1, m2, memory[..], b, newBlock);
    }

    /** The branch of `malloc` that cuts block k; both end by clearing its `free` field. */
    method CutBlock(current: u32, size: u32, room: u32, ghost k: nat)
      requires Valid() && k < |blocks| && current == START_ADDR + blocks[k].at && room == blocks[k].size
      requires blocks[k].free && room >= size + HEADER + 4
      modifies this, memory
      ensures reach == Max(old(reach), Parts(old(blocks[k]), size)[1].Payload())
      ensures Valid() && blocks == Carve(old(blocks), k, size)
      ensures SameOutside(old(memory[..]), memory[..], old(blocks[k].at), old(blocks[k].End()))
    {
      hide Get32, SameOutside;
      ghost var m, bs, mid := memory[..], blocks, Parts(blocks[k], size);
      HeaderAt(m, bs, k);
      hide Holds, Good, Carve, Header;
      var newBlock := current + HEADER + size;
      var next := Load(current + 8);
      StoreRest(newBlock, room - size - HEADER, next, mid[1]);
      ghost var m1 := memory[..];
      StoreTaken(current, size, newBlock, mid[0]);
      CutHeld(m, m1, memory[..], bs, k, size);
      blocks := Carve(bs, k, size);
    }

    method TakeWhole(current: u32, size: u32, ghost k: nat)
      requires Valid() && k < |blocks| && current == START_ADDR + blocks[k].at
      requires blocks[k].free && size <= blocks[k].size < size + HEADER + 4
      modifies this, memory
      ensures reach <= Max(old(reach), old(blocks[k].Payload()))
      ensures Valid() && blocks == Carve(old(blocks), k, size)
      ensures SameOutside(old(memory[..]), memory[..], old(blocks[k].at), old(blocks[k].End()))
    {
      hide Get32, SameOutside;
      ghost var m, bs := memory[..], blocks;
      HeaderAt(m, bs, k);
      hide Holds, Good, Carve, Header;
      Store(current + 4, 0);
      TakenHeld(m, memory[..], bs, k, size);
      blocks := Carve(bs, k, size);
    }

    /** `malloc`: the first free block that is large enough. */
    method Malloc(size: u32) returns (ptr: u32)
      requires Valid()
      modifies this, memory
      ensures Valid() && (blocks, ptr) == Blocks.Malloc(old(blocks), size)
      ensures PayloadsKept(old(memory[..]), memory[..], old(blocks), FirstFit(old(blocks), size))
      ensures ptr == 0 ==> memory[..] == old(memory[..])
      ensures old(blocks) != [] && (old(Within()) ==> (reach <= INITIAL_SIZE <==> !Spills(old(blocks), size)))
      ensures old(Within()) ==> (Within() <==> Roomy(old(blocks), size))
    {
      hide Get32, Holds, Good, Carve, FirstFit, PayloadsKept, Add32, SameOutside, Inside;
      ghost var m, bs, k := memory[..], blocks, 0;
      Begins(m, bs);
      NeverEmpty(bs);
      MallocReaches(bs, size);
      NoWrap(size);
      var current: u32 := START_ADDR;
      while current != 0
        invariant memory[..] == m && blocks == bs && k <= |bs|
        invariant current == if k < |bs| then START_ADDR + bs[k].at else 0
        invariant reach <= Max(old(reach), Edge(bs))
        invariant forall j :: 0 <= j < k ==> !(bs[j].free && bs[j].size >= size)
        decreases |bs| - k
      {
        HeaderAt(m, bs, k);
        var free := Load(current + 4);
        var room := Load(current);
        if free != 0 && room >= size {
          assert k == FirstFit(bs, size);
          OthersKept(m, bs, k);
          if room >= Add32(size, HEADER + 4) {
            CutBlock(current, size, room, k);
          } else {
            TakeWhole(current, size, k);
          }
          return current + HEADER;
        }
        current := Load(current + 8);
        k := k + 1;
      }
      NothingKept(m, bs, k);
      return 0;
    }

    /** The memory holds the block list, which may yet have free neighbours. */
    ghost predicate Held()
      reads `blocks, memory
    {
      memory.Length == SPAN && Holds(memory[..], blocks)
    }

    /** The join of block k and the next one in the pass of `free`. */
    method JoinNext(current: u32, next: u32, ghost k: nat)
      requires Held() && k + 1 < |blocks| && blocks[k].free && blocks[k + 1].free
      requires current == START_ADDR + blocks[k].at && next == START_ADDR + blocks[k + 1].at
      modifies this, memory
      ensures reach <= Max(old(reach), old(blocks[k + 1].Payload()))
      ensures Held() && blocks == old(Splice(blocks, k, k + 2, [Join(blocks[k], blocks[k + 1])]))
      ensures SameOutside(old(memory[..]), memory[..], old(blocks[k].at), old(blocks[k].Payload()))
    {
      hide Get32, SameOutside;
      ghost var m, bs := memory[..], blocks;
      HeaderAt(m, bs, k);
      HeaderAt(m, bs, k + 1);
      assert Header(m, bs[k], NextPointer(bs, k)) && NextPointer(bs, k + 1) < TWO32;
      assert Tiles(bs, 0, SPAN) && bs[k + 1].at == bs[k].End();
      Add32Exact(bs[k].size, HEADER + bs[k + 1].size);
      ghost var joined := Join(bs[k], bs[k + 1]);
      hide Holds, Header, Splice, Tiles, Add32;
      var size := Load(current);
      var nextSize := Load(next);
      var nextNext := Load(next + 8);
      Store(current, Add32(size, HEADER + nextSize));
      ghost var m1 := memory[..];
      Store(current + 8, nextNext);
      JoinStored(m, m1, memory[..], bs[k], NextPointer(bs, k), joined.size, nextNext);
      JoinHeld(m, memory[..], bs, k);
      blocks := Splice(bs, k, k + 2, [joined]);
    }

    /** `free`: the block is marked, and one pass joins all free neighbours. */
    method Free(ptr: u32) returns (r: int)
      requires Valid() && (ptr == 0 || Find(blocks, ptr) < |blocks|)
      modifies this, memory
      ensures Valid() && r == 0
      ensures ptr == 0 ==> blocks == old(blocks) && memory[..] == old(memory[..])
      ensures ptr != 0 ==> blocks == old(Blocks.Free(blocks, Find(blocks, ptr)))
      ensures PayloadsKept(old(memory[..]), memory[..], old(blocks), -1)
      ensures old(Within()) ==> Within()
    {
      hide Get32, SameOutside, SameWithin, Inside, Merge, Edge;
      NothingKept(memory[..], blocks, -1);
      if ptr == 0 {
        return 0;
      }
      ghost var m0, bs0, k := memory[..], blocks, Find(blocks, ptr);
      HeaderAt(m0, bs0, k);
      MarkKeepsHeads(m0, bs0, k);
      HeadsBelowEdge(bs0);
      FreeReaches(bs0, k);
      FreeMeaning(bs0, k);
      MarkFree(ptr - HEADER, k);
      HeaderWriteKeepsPayloads(m0, m0, memory[..], bs0, bs0[k].at);
      MergeAll(m0, bs0, Edge(bs0));
      return 0;
    }

    /** The pass of `free` over the whole list. */
    method MergeAll(ghost m0: Bytes, ghost bs0: seq<Block>, ghost edge: nat)
      requires Held() && Adjoining(bs0) && Heads(blocks) <= Heads(bs0) && PayloadsKept(m0, memory[..], bs0, -1)
      requires |m0| == SPAN && forall h :: h in Heads(bs0) ==> h + HEADER <= edge
      modifies this, memory
      ensures reach <= Max(old(reach), edge)
      ensures Held() && blocks == Merge(old(blocks)) && PayloadsKept(m0, memory[..], bs0, -1)
    {
      hide Get32, SameOutside, PayloadsKept, Adjoining, Merge, Holds, Heads, Passed, Splice, Tiles;
      ghost var bs1, k := blocks, 0;
      FirstPassed(memory[..], blocks);
      HeaderAt(memory[..], blocks, 0);
      HeadIn(blocks, 0);
      var current: u32 := START_ADDR;
      var next := Load(current + 8);
      while next != 0
        invariant Held() && k < |blocks| && current == START_ADDR + blocks[k].at && next == NextPointer(blocks, k)
        invariant Passed(bs1, blocks, k) && reach <= Max(old(reach), edge)
        invariant Heads(blocks) <= Heads(bs0) && PayloadsKept(m0, memory[..], bs0, -1)
        decreases |blocks| - k
      {
        ghost var m, bs := memory[..], blocks;
        HeaderAt(m, bs, k);
        HeaderAt(m, bs, k + 1);
        PassOn(bs1, bs, k);
        HeadIn(bs, k);
        HeadIn(bs, k + 1);
        var free := Load(current + 4);
        var nextFree := Load(next + 4);
        if free != 0 && nextFree != 0 {
          JoinKeepsHeads(bs, k);
          JoinNext(current, next, k);
          HeaderWriteKeepsPayloads(m0, m, memory[..], bs0, bs[k].at);
        } else {
          current, k := next, k + 1;
        }
        HeaderAt(memory[..], blocks, k);
        HeadIn(blocks, k);
        next := Load(current + 8);
      }
      PassOn(bs1, blocks, k);
    }

    method MarkFree(block: u32, ghost k: nat)
      requires Held() && k < |blocks| && block == START_ADDR + blocks[k].at
      modifies this, memory
      ensures reach <= Max(old(reach), old(blocks[k].Payload()))
      ensures Held() && blocks == old(blocks[k := blocks[k].(free := true)])
      ensures SameOutside(old(memory[..]), memory[..], old(blocks[k].at), old(blocks[k].Payload()))
    {
      hide Get32, SameOutside;
      ghost var m, bs := memory[..], blocks;
      HeaderAt(m, bs, k);
      hide Holds;
      Store(block + 4, 1);
      FreeFieldStored(m, memory[..], bs, k, 1);
      blocks := bs[k := bs[k].(free := true)];
    }

    /** `init_malloc`: one free block. */
    constructor (m: array<u8>)
      requires m.Length == SPAN
      modifies m
      ensures memory == m && Valid() && blocks == INITIAL && Within()
    {
      memory := m;
      reach := 0;
      blocks := INITIAL;
      new;
      hide Get32, Holds, Good, Inside;
      ghost var m0 := memory[..];
      Store(START_ADDR + 4, 1);
      ghost var m1 := memory[..];
      Store(START_ADDR, INITIAL_SIZE);
      ghost var m2 := memory[..];
      Store(START_ADDR + 8, 0);
      GetKept(m1, m2, 0, 4, 4);
      GetKept(m2, memory[..], 8, 12, 0);
      GetKept(m2, memory[..], 8, 12, 4);
      OneBlockHeld(memory[..]);
    }

    /** The loop of `realloc`: `size` bytes from one block to another. */
    method Copy(from: u32, to: u32, size: u32, ghost i: nat, ghost j: nat)
      requires Valid() && i < |blocks| && j < |blocks| && i != j
      requires from == blocks[i].Pointer() && to == blocks[j].Pointer()
      requires size <= blocks[i].size && size <= blocks[j].size
      modifies memory, `reach
      ensures reach <= Max(old(reach), Max(blocks[i].End(), blocks[j].End()))
      ensures Valid() && SameOutside(old(memory[..]), memory[..], to - START_ADDR, to - START_ADDR + size)
      ensures Copied(old(memory[..]), from - START_ADDR, memory[..], to - START_ADDR, size)
    {
      hide Get32, Holds, Good, Copied, SameOutside;
      ghost var m := memory[..];
      PayloadsApart(blocks, i, j);
      var a, b := from - START_ADDR, to - START_ADDR;
      NoneCopied(m, a, b);
      for n := 0 to size
        invariant memory.Length == |m|
        invariant reach <= Max(old(reach), Max(blocks[i].End(), blocks[j].End()))
        invariant SameOutside(m, memory[..], b, b + n) && Copied(m, a, memory[..], b, n)
      {
        ghost var m1 := memory[..];
        memory[b + n] := memory[a + n];
        reach := Max(reach, Max(a, b) + n + 1);
        OneMoreCopied(m, a, m1, memory[..], b, n);
      }
      OutsideMore(m, memory[..], b, b + size, blocks[j].End());
      PayloadWriteHeld(m, memory[..], blocks, j);
    }

    /** `realloc`: the bytes that fit move to the new block; if there is none, nothing happens. */
    method Realloc(ptr: u32, newSize: u32) returns (newPtr: u32)
      requires Valid() && LivePointer(blocks, ptr)
      modifies this, memory
      ensures Valid() && (blocks, newPtr) == old(Blocks.Realloc(blocks, ptr, newSize))
      ensures newPtr == 0 ==> memory[..] == old(memory[..])
      ensures newPtr != 0 ==> Copied(old(memory[..]), ptr - START_ADDR, memory[..], newPtr - START_ADDR,
                                     Min(old(blocks[Find(blocks, ptr)].size), newSize))
      ensures PayloadsKept(old(memory[..]), memory[..], old(blocks), FirstFit(old(blocks), newSize))
      ensures old(blocks) != [] && (old(Within()) && Roomy(old(blocks), newSize) ==> Within())
    {
      hide Get32, SameOutside, SameWithin, PayloadsKept, Holds, Copied, Good, Carve, Merge, FirstFit, Find;
      hide Blocks.Malloc, Blocks.Free, Inside, Roomy, Live, Adjoining;
      ghost var m0, bs0, i, k := memory[..], blocks, Find(blocks, ptr), FirstFit(blocks, newSize);
      Begins(m0, bs0);
      MallocMeaning(bs0, newSize);
      newPtr := Malloc(newSize);
      if newPtr == 0 {
        return 0;
      }
      ReallocBlocks(bs0, ptr, newSize);
      ghost var m1, bs1, j := memory[..], blocks, Find(blocks, ptr);
      HeaderAt(m1, bs1, j);
      InsideBlocks(bs1, j, k);
      var oldSize := Load(ptr - HEADER);
      var size := if oldSize < newSize then oldSize else newSize;
      Copy(ptr, newPtr, size, j, k);
      ghost var m2 := memory[..];
      assert blocks == bs1 && SameOutside(m1, m2, bs0[k].Payload(), bs0[k].Payload() + size);
      var r := Free(ptr);
      assert PayloadsKept(m2, memory[..], bs1, -1);
      ReallocKeeps(m0, m1, m2, memory[..], bs0, k, size, newSize, i);
      CopiedKept(m0, m1, ptr - START_ADDR, m2, memory[..], newPtr - START_ADDR, size);
    }

    /** Any run of calls: the headers in the bytes go on holding the block list that the
        calls lead to, and live blocks that no call names keep their place and their bytes.
        If every request leaves room in the last block, then no call touches a byte that is
        not mapped. */
    method Run(ops: seq<Op>)
      requires Valid() && LegalRun(blocks, ops)
      modifies this, memory
      ensures Valid() && Reaches(old(blocks), ops, blocks)
      ensures LiveKept(old(memory[..]), old(blocks), memory[..], blocks, ops)
      ensures old(Within()) && Guarded(old(blocks), ops) ==> Within()
      decreases |ops|
    {
      if ops == [] {
        return;
      }
      hide Holds, Step, Legal, PayloadsKept, LiveKept;
      ghost var m, bs := memory[..], blocks;
      Apply(ops[0]);
      ghost var m1, bs1 := memory[..], blocks;
      Run(ops[1..]);
      assert ops[..1] == [ops[0]];
      LiveKeptTwice(m, bs, m1, bs1, memory[..], blocks, ops);
    }

    method Apply(op: Op)
      requires Valid() && Legal(blocks, op) && Fits(op)
      modifies this, memory
      ensures Valid() && blocks == old(Step(blocks, op))
      ensures LiveKept(old(memory[..]), old(blocks), memory[..], blocks, [op])
      ensures old(blocks) != [] && (old(Within()) && (Allocates(op) ==> Roomy(old(blocks), op.size)) ==> Within())
    {
      hide Holds, Good, PayloadsKept, LiveKept, Roomy, Inside, Live;
      ghost var m, bs := memory[..], blocks;
      match op {
        case MallocOp(size) =>
          var ptr := Malloc(size);
          LiveKeptOnce(m, bs, memory[..], op, FirstFit(bs, size));
        case FreeOp(ptr) =>
          var r := Free(ptr);
          LiveKeptOnce(m, bs, memory[..], op, -1);
        case ReallocOp(ptr, size) =>
          var newPtr := Realloc(ptr, size);
          LiveKeptOnce(m, bs, memory[..], op, FirstFit(bs, size));
      }
    }
  }
}
