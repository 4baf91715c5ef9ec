/** What the heap of kernel/malloc.c means: a list of blocks that tiles the heap's
    span, and what malloc, free and realloc do to that list. */
module Blocks {
  import opened MachineWords

  const HEADER: int := 12
  const INITIAL_SIZE: int := 0x1000_0000
  const START_ADDR: int := 0xE000_0000
  /** The first header is not taken out of the first block's size, so the blocks
      span twelve bytes more than INITIAL_SIZE. */
  const SPAN: int := HEADER + INITIAL_SIZE

  /** A block whose header stands `at` bytes above START_ADDR. */
  datatype Block = Block(at: nat, size: nat, free: bool) {
    function Payload(): nat { at + HEADER }

    function End(): nat { at + HEADER + size }

    function Pointer(): nat { START_ADDR + at + HEADER }
  }

  ghost predicate Adjoining(bs: seq<Block>) {
    forall i, j :: 0 <= i < j < |bs| && j == i + 1 ==> bs[j].at == bs[i].End()
  }

  /** The blocks follow each other without gap or overlap, from `start` to `end`. */
  ghost predicate Tiles(bs: seq<Block>, start: int, end: int) {
    |bs| > 0 && bs[0].at == start && bs[|bs| - 1].End() == end && Adjoining(bs)
  }

  ghost predicate NoFreeNeighbours(bs: seq<Block>) {
    forall i, j :: 0 <= i < j < |bs| && j == i + 1 ==> !(bs[i].free && bs[j].free)
  }

  ghost predicate Good(bs: seq<Block>) {
    Tiles(bs, 0, SPAN) && NoFreeNeighbours(bs)
  }

  const INITIAL: seq<Block> := [Block(0, INITIAL_SIZE, true)]

  ghost function Live(bs: seq<Block>): set<Block> {
    set b | b in bs && !b.free
  }

  lemma {:induction false} InOrder(bs: seq<Block>, i: int, j: int)
    requires Adjoining(bs) && 0 <= i < j < |bs|
    ensures bs[i].End() <= bs[j].at
    decreases j
  {
    if i < j - 1 {
      InOrder(bs, i, j - 1);
    }
    assert bs[(j - 1) + 1].at == bs[j - 1].End();
  }

  /** Every block ends within the span. */
  lemma InSpan(bs: seq<Block>, k: nat)
    requires Tiles(bs, 0, SPAN) && k < |bs|
    ensures bs[k].End() <= SPAN
  {
    if k < |bs| - 1 {
      InOrder(bs, k, |bs| - 1);
    }
  }

  /** Payloads of different blocks are disjoint, and no payload meets a header. */
  lemma Disjoint(bs: seq<Block>, i: int, j: int)
    requires Adjoining(bs) && 0 <= i < |bs| && 0 <= j < |bs| && i != j
    ensures bs[i].End() <= bs[j].at || bs[j].End() <= bs[i].at
  {
    if i < j {
      InOrder(bs, i, j);
    } else {
      InOrder(bs, j, i);
    }
  }

  // ------------------------------------------------------------- malloc

  /** The first free block that is large enough, or |bs|. */
  function FirstFit(bs: seq<Block>, size: nat): (k: nat)
    ensures k <= |bs|
    ensures k < |bs| ==> bs[k].free && bs[k].size >= size
    ensures forall j :: 0 <= j < k ==> !(bs[j].free && bs[j].size >= size)
  {
    if bs == [] then 0
    else if bs[0].free && bs[0].size >= size then 0
    else 1 + FirstFit(bs[1..], size)
  }

  /** The block b cut for a request, the rest being a block of its own if it can be. */
  function Parts(b: Block, size: nat): seq<Block>
    requires b.size >= size
  {
    if b.size >= size + HEADER + 4 then
      [Block(b.at, size, false), Block(b.at + HEADER + size, b.size - size - HEADER, true)]
    else
      [b.(free := false)]
  }

  /** `mid` in the place of the blocks k..hi. */
  function Splice(bs: seq<Block>, k: nat, hi: nat, mid: seq<Block>): seq<Block>
    requires k <= hi <= |bs|
  {
    bs[..k] + mid + bs[hi..]
  }

  function Carve(bs: seq<Block>, k: nat, size: nat): seq<Block>
    requires k < |bs| && bs[k].size >= size
  {
    Splice(bs, k, k + 1, Parts(bs[k], size))
  }

  lemma SpliceTiles(bs: seq<Block>, k: nat, hi: nat, mid: seq<Block>, start: int, end: int)
    requires Tiles(bs, start, end) && k < hi <= |bs| && Tiles(mid, bs[k].at, bs[hi - 1].End())
    ensures Tiles(Splice(bs, k, hi, mid), start, end)
  {
    var bs' := Splice(bs, k, hi, mid);
    forall j | 0 <= j < |bs'| - 1
      ensures bs'[j + 1].at == bs'[j].End()
    {
      var i := j - |mid| + hi - k;
      if j == k - 1 {
        assert bs[j + 1].at == bs[j].End();
      } else if j >= k + |mid| - 1 {
        assert bs[i + 1].at == bs[i].End();
      } else if j >= k {
        assert mid[(j - k) + 1].at == mid[j - k].End();
      } else {
        assert bs[j + 1].at == bs[j].End();
      }
    }
  }

  function Malloc(bs: seq<Block>, size: nat): (seq<Block>, nat) {
    var k := FirstFit(bs, size);
    if k == |bs| then (bs, 0) else (Carve(bs, k, size), bs[k].Pointer())
  }

  /** malloc returns a block of at least the size asked for, and at most fifteen
      bytes more; what was live stays live, in place. */
  lemma MallocMeaning(bs: seq<Block>, size: nat)
    requires Good(bs)
    ensures Good(Malloc(bs, size).0)
    ensures Malloc(bs, size).1 == 0 <==> forall b :: b in bs && b.free ==> b.size < size
    ensures Malloc(bs, size).1 == 0 ==> Malloc(bs, size).0 == bs
    ensures Malloc(bs, size).1 != 0 ==>
      exists b :: b !in Live(bs) && Live(Malloc(bs, size).0) == Live(bs) + {b}
        && b.Pointer() == Malloc(bs, size).1 && size <= b.size <= size + 15
  {
    var k := FirstFit(bs, size);
    if k < |bs| {
      var bs' := Carve(bs, k, size);
      var b := bs'[k];
      CarveKeepsGood(bs, k, size);
      CarveLive(bs, k, size);
    }
  }

  lemma CarveKeepsGood(bs: seq<Block>, k: nat, size: nat)
    requires Good(bs) && k < |bs| && bs[k].free && bs[k].size >= size
    ensures Good(Carve(bs, k, size))
  {
    SpliceTiles(bs, k, k + 1, Parts(bs[k], size), 0, SPAN);
  }

  /** The head of a block is the head of no other. */
  lemma SameHead(bs: seq<Block>, b: Block, c: Block)
    requires Adjoining(bs) && b in bs && c in bs && b.at == c.at
    ensures b == c
  {
    var i :| 0 <= i < |bs| && bs[i] == b;
    var j :| 0 <= j < |bs| && bs[j] == c;
    if i != j {
      Disjoint(bs, i, j);
    }
  }

  lemma CarveLive(bs: seq<Block>, k: nat, size: nat)
    requires Good(bs) && k < |bs| && bs[k].free && bs[k].size >= size
    ensures var b := Carve(bs, k, size)[k];
      Live(Carve(bs, k, size)) == Live(bs) + {b} && b !in Live(bs)
  {
    var bs', b := Carve(bs, k, size), Carve(bs, k, size)[k];
    forall c
      ensures c in Live(bs') <==> c in Live(bs) || c == b
    {
      if c in Live(bs) {
        var j :| 0 <= j < |bs| && bs[j] == c;
        assert c in bs' by {
          assert j < k ==> bs'[j] == c;
          assert j > k && |bs'| == |bs| ==> bs'[j] == c;
          assert j > k && |bs'| > |bs| ==> bs'[j + 1] == c;
        }
      }
    }
    if b in bs {
      SameHead(bs, b, bs[k]);
    }
  }

  // --------------------------------------------------------------- free

  function Join(b: Block, c: Block): Block {
    b.(size := b.size + HEADER + c.size)
  }

  /** The pass that joins each free block to the free blocks after it. */
  function Merge(bs: seq<Block>): seq<Block>
    decreases |bs|
  {
    if |bs| <= 1 then bs
    else if bs[0].free && bs[1].free then Merge([Join(bs[0], bs[1])] + bs[2..])
    else [bs[0]] + Merge(bs[1..])
  }

  function Free(bs: seq<Block>, k: nat): seq<Block>
    requires k < |bs|
  {
    Merge(bs[k := bs[k].(free := true)])
  }

  lemma JoinMeaning(bs: seq<Block>, start: int, end: int)
    requires Tiles(bs, start, end) && |bs| >= 2 && bs[0].free && bs[1].free
    ensures Tiles([Join(bs[0], bs[1])] + bs[2..], start, end)
    ensures Live([Join(bs[0], bs[1])] + bs[2..]) == Live(bs)
  {
    var bs' := [Join(bs[0], bs[1])] + bs[2..];
    assert forall k :: 1 <= k < |bs'| ==> bs'[k] == bs[k + 1];
    assert bs == [bs[0], bs[1]] + bs[2..];
  }

  lemma ConsMeaning(b: Block, bs: seq<Block>, end: int)
    ensures Live([b] + bs) == Live(bs) + (if b.free then {} else {b})
    ensures Tiles(bs, b.End(), end) ==> Tiles([b] + bs, b.at, end)
    ensures NoFreeNeighbours(bs) && (bs == [] || !(b.free && bs[0].free)) ==> NoFreeNeighbours([b] + bs)
  {
    assert forall k :: 0 <= k < |bs| ==> ([b] + bs)[k + 1] == bs[k];
  }

  lemma {:induction false} MergeMeaning(bs: seq<Block>, start: int, end: int)
    requires Tiles(bs, start, end)
    ensures Tiles(Merge(bs), start, end) && NoFreeNeighbours(Merge(bs)) && Live(Merge(bs)) == Live(bs)
    ensures Merge(bs)[0].free == bs[0].free
    decreases |bs|
  {
    if |bs| > 1 && bs[0].free && bs[1].free {
      JoinMeaning(bs, start, end);
      MergeMeaning([Join(bs[0], bs[1])] + bs[2..], start, end);
    } else if |bs| > 1 {
      assert Tiles(bs[1..], bs[0].End(), end) by {
        assert bs[0 + 1].at == bs[0].End();
      }
      MergeMeaning(bs[1..], bs[0].End(), end);
      ConsMeaning(bs[0], bs[1..], end);
      ConsMeaning(bs[0], Merge(bs[1..]), end);
      assert bs == [bs[0]] + bs[1..];
    }
  }

  /** free makes one block dead and touches no other live block; whatever lay around
      it, no two free blocks are left side by side. */
  lemma FreeMeaning(bs: seq<Block>, k: nat)
    requires Good(bs) && k < |bs|
    ensures Good(Free(bs, k))
    ensures Live(Free(bs, k)) == Live(bs) - {bs[k]}
  {
    var bs' := bs[k := bs[k].(free := true)];
    MergeMeaning(bs', 0, SPAN);
    forall c
      ensures c in Live(bs') <==> c in Live(bs) && c != bs[k]
    {
      if c in Live(bs) && c != bs[k] {
        var j :| 0 <= j < |bs| && bs[j] == c;
        assert bs'[j] == c;
      }
      if c in Live(bs') {
        var j :| 0 <= j < |bs'| && bs'[j] == c;
        if c == bs[k] {
          Disjoint(bs, j, k);
        }
      }
    }
  }

  // ---------------------------------------------------------- whole runs

  datatype Op = MallocOp(size: nat) | FreeOp(ptr: nat) | ReallocOp(ptr: nat, size: nat)

  /** A block is found by the pointer that malloc returned for it. */
  function Find(bs: seq<Block>, ptr: nat): (k: nat)
    ensures k <= |bs| && (k < |bs| ==> bs[k].Pointer() == ptr)
    ensures forall j :: 0 <= j < k ==> bs[j].Pointer() != ptr
  {
    if bs == [] || bs[0].Pointer() == ptr then 0 else 1 + Find(bs[1..], ptr)
  }

  predicate LivePointer(bs: seq<Block>, ptr: nat) {
    Find(bs, ptr) < |bs| && !bs[Find(bs, ptr)].free
  }

  /** Pointers handed to free and realloc are live. */
  predicate Legal(bs: seq<Block>, op: Op) {
    op.MallocOp? || LivePointer(bs, op.ptr)
  }

  /** malloc, copy, free; nothing at all if malloc fails. */
  function Realloc(bs: seq<Block>, ptr: nat, size: nat): (seq<Block>, nat)
    requires Good(bs) && LivePointer(bs, ptr)
  {
    var (bs', ptr') := Malloc(bs, size);
    MallocKeepsPointer(bs, size, ptr);
    if ptr' == 0 then (bs, 0) else (Free(bs', Find(bs', ptr)), ptr')
  }

  lemma FindsLive(bs: seq<Block>, b: Block)
    requires Adjoining(bs) && b in Live(bs)
    ensures LivePointer(bs, b.Pointer()) && bs[Find(bs, b.Pointer())] == b
  {
    SameHead(bs, b, bs[Find(bs, b.Pointer())]);
  }

  lemma MallocKeepsPointer(bs: seq<Block>, size: nat, ptr: nat)
    requires Good(bs) && LivePointer(bs, ptr)
    ensures LivePointer(Malloc(bs, size).0, ptr)
    ensures Malloc(bs, size).0[Find(Malloc(bs, size).0, ptr)] == bs[Find(bs, ptr)]
  {
    MallocMeaning(bs, size);
    assert bs[Find(bs, ptr)] in Live(bs);
    FindsLive(Malloc(bs, size).0, bs[Find(bs, ptr)]);
  }

  lemma ReallocMeaning(bs: seq<Block>, ptr: nat, size: nat)
    requires Good(bs) && LivePointer(bs, ptr)
    ensures Good(Realloc(bs, ptr, size).0)
    ensures Realloc(bs, ptr, size).1 == 0 ==> Realloc(bs, ptr, size).0 == bs
    ensures Realloc(bs, ptr, size).1 != 0 ==>
      exists b :: b !in Live(bs) && Live(Realloc(bs, ptr, size).0) == Live(bs) - {bs[Find(bs, ptr)]} + {b}
        && b.Pointer() == Realloc(bs, ptr, size).1 && size <= b.size <= size + 15
  {
    MallocMeaning(bs, size);
    MallocKeepsPointer(bs, size, ptr);
    var (bs', ptr') := Malloc(bs, size);
    if ptr' != 0 {
      var b :| b !in Live(bs) && Live(bs') == Live(bs) + {b} && b.Pointer() == ptr' && size <= b.size <= size + 15;
      FreeMeaning(bs', Find(bs', ptr));
      assert bs[Find(bs, ptr)] in Live(bs);
    }
  }

  function Step(bs: seq<Block>, op: Op): seq<Block>
    requires Good(bs) && Legal(bs, op)
  {
    match op
    case MallocOp(size) => Malloc(bs, size).0
    case FreeOp(ptr) => Free(bs, Find(bs, ptr))
    case ReallocOp(ptr, size) => Realloc(bs, ptr, size).0
  }

  lemma StepMeaning(bs: seq<Block>, op: Op)
    requires Good(bs) && Legal(bs, op)
    ensures Good(Step(bs, op))
    ensures forall b :: b in Live(bs) && (op.MallocOp? || op.ptr != b.Pointer()) ==> b in Live(Step(bs, op))
  {
    match op
    case MallocOp(size) => MallocMeaning(bs, size);
    case FreeOp(ptr) => FreeMeaning(bs, Find(bs, ptr));
    case ReallocOp(ptr, size) => ReallocMeaning(bs, ptr, size);
  }

  /** The heaps that some run of calls on live pointers leads to. */
  ghost predicate Reaches(bs: seq<Block>, ops: seq<Op>, bs': seq<Block>)
    decreases |ops|
  {
    if ops == [] then bs' == bs
    else Good(bs) && Legal(bs, ops[0]) && Reaches(Step(bs, ops[0]), ops[1..], bs')
  }

  /** Over every run the blocks tile the span and no two free blocks are neighbours;
      a block that no call of the run names stays live where it is. */
  lemma {:induction false} RunKeeps(bs: seq<Block>, ops: seq<Op>, bs': seq<Block>)
    requires Good(bs) && Reaches(bs, ops, bs')
    ensures Good(bs')
    ensures forall b :: b in Live(bs) && (forall i :: 0 <= i < |ops| ==> ops[i].MallocOp? || ops[i].ptr != b.Pointer())
                        ==> b in Live(bs')
    decreases |ops|
  {
    if ops != [] {
      StepMeaning(bs, ops[0]);
      RunKeeps(Step(bs, ops[0]), ops[1..], bs');
    }
  }

  lemma NeighbourIsLive(bs: seq<Block>)
    requires NoFreeNeighbours(bs) && |bs| > 1
    ensures Live(bs) != {}
  {
    assert !(bs[0].free && bs[0 + 1].free);
    assert bs[if bs[0].free then 1 else 0] in Live(bs);
  }

  /** When everything has been freed, in whatever order, the heap is as it began. */
  lemma Drained(ops: seq<Op>, bs: seq<Block>)
    requires Reaches(INITIAL, ops, bs)
    ensures Live(bs) == {} <==> bs == INITIAL
  {
    RunKeeps(INITIAL, ops, bs);
    if |bs| > 1 {
      NeighbourIsLive(bs);
    } else if !bs[0].free {
      assert bs[0] in Live(bs);
    }
  }

  // ---------------------------------------------- conservation, fragmentation

  function Span(bs: seq<Block>): nat {
    if bs == [] then 0 else HEADER + bs[0].size + Span(bs[1..])
  }

  function FreeSpace(bs: seq<Block>): nat {
    if bs == [] then 0 else (if bs[0].free then bs[0].size else 0) + FreeSpace(bs[1..])
  }

  function LiveCount(bs: seq<Block>): nat {
    if bs == [] then 0 else (if bs[0].free then 0 else 1) + LiveCount(bs[1..])
  }

  /** Each free block counts with its size, wherever it stands, and no other block counts. */
  lemma {:induction false} FreeSpaceSplit(bs: seq<Block>, k: nat)
    requires k < |bs|
    ensures FreeSpace(bs) == FreeSpace(bs[..k]) + (if bs[k].free then bs[k].size else 0) + FreeSpace(bs[k + 1..])
    ensures FreeSpace([]) == 0
  {
    if k > 0 {
      FreeSpaceSplit(bs[1..], k - 1);
      assert bs[..k][1..] == bs[1..][..k - 1] && bs[1..][k..] == bs[k + 1..];
    }
  }

  /** No byte of the span is ever lost or gained. */
  lemma {:induction false} Conserved(bs: seq<Block>, start: int, end: int)
    requires Tiles(bs, start, end)
    ensures Span(bs) == end - start
  {
    if |bs| > 1 {
      Conserved(bs[1..], bs[1].at, end);
    } else {
      assert bs[1..] == [];
    }
  }

  lemma {:induction false} LiveCounted(bs: seq<Block>)
    requires Adjoining(bs)
    ensures LiveCount(bs) == |Live(bs)|
  {
    if bs != [] {
      LiveCounted(bs[1..]);
      var rest := Live(bs[1..]);
      if !bs[0].free {
        if bs[0] in bs[1..] {
          var j :| 0 <= j < |bs[1..]| && bs[1..][j] == bs[0];
          InOrder(bs, 0, j + 1);
        }
        assert Live(bs) == rest + {bs[0]};
      } else {
        assert Live(bs) == rest;
      }
    }
  }

  /** Small free blocks without free neighbours: one more of them than live blocks at most. */
  lemma {:induction false} FreeSpaceBound(bs: seq<Block>, most: nat)
    requires NoFreeNeighbours(bs) && forall b :: b in bs && b.free ==> b.size <= most
    ensures FreeSpace(bs) <= (LiveCount(bs) + (if bs != [] && !bs[0].free then 0 else 1)) * most
  {
    if bs != [] {
      FreeSpaceBound(bs[1..], most);
      var n := LiveCount(bs[1..]);
      assert (n + 1) * most == n * most + most;
    }
  }

  /** If malloc fails with k blocks live, no more than (k + 1) * (size - 1) bytes were free. */
  lemma Fragmentation(bs: seq<Block>, size: nat)
    requires Good(bs) && size >= 1 && Malloc(bs, size).1 == 0
    ensures FreeSpace(bs) <= (|Live(bs)| + 1) * (size - 1)
  {
    hide Malloc, FirstFit, FreeSpace, LiveCount, Live;
    MallocMeaning(bs, size);
    FreeSpaceBound(bs, size - 1);
    LiveCounted(bs);
    OneMoreTimes(LiveCount(bs), size - 1);
  }

  lemma OneMoreTimes(n: nat, most: nat)
    ensures n * most <= (n + 1) * most
  {
  }

  // ------------------------------------------------------ the mapped part

  /** What lies in the INITIAL_SIZE bytes that are mapped for the heap: all headers, and
      the payloads that are in use. */
  ghost predicate Inside(bs: seq<Block>) {
    forall b :: b in bs ==> b.Payload() <= INITIAL_SIZE && (b.free || b.End() <= INITIAL_SIZE)
  }

  function Last(bs: seq<Block>): Block
    requires bs != []
  {
    bs[|bs| - 1]
  }

  /** The last block decides. */
  lemma InsideExactly(bs: seq<Block>)
    requires Good(bs)
    ensures Inside(bs) <==> Last(bs).free && Last(bs).size >= HEADER
  {
    var n := |bs| - 1;
    assert bs[n] in bs;
    if bs[n].free && bs[n].size >= HEADER {
      forall i | 0 <= i < n
        ensures bs[i].End() <= bs[n].at
      {
        InOrder(bs, i, n);
      }
    }
  }

  /** A request that is met from the last block leaves room there for a header and
      twelve bytes more. */
  predicate Roomy(bs: seq<Block>, size: nat)
    requires bs != []
  {
    FirstFit(bs, size) != |bs| - 1 || Last(bs).size >= size + 2 * HEADER
  }

  lemma NeverEmpty(bs: seq<Block>)
    requires Good(bs)
    ensures bs != []
  {
  }

  /** malloc keeps to the mapped bytes exactly then. */
  lemma MallocStaysInside(bs: seq<Block>, size: nat)
    requires Good(bs) && Inside(bs)
    ensures Inside(Malloc(bs, size).0) <==> Roomy(bs, size)
  {
    hide Inside, Good, Live;
    MallocMeaning(bs, size);
    InsideExactly(bs);
    InsideExactly(Malloc(bs, size).0);
  }

  /** The first request can fail to: the header behind this one is stored at 0xEFFFFFFC. */
  lemma FirstRequestSpills()
    ensures Good(INITIAL) && Inside(INITIAL) && !Inside(Malloc(INITIAL, 0x0FFF_FFF0).0)
    ensures Malloc(INITIAL, 0x0FFF_FFF0).0 == [Block(0, 0x0FFF_FFF0, false), Block(0x0FFF_FFFC, 4, true)]
  {
    MallocStaysInside(INITIAL, 0x0FFF_FFF0);
  }

  lemma {:induction false} MergeKeepsLast(bs: seq<Block>)
    requires bs != []
    ensures Merge(bs) != []
    ensures Last(bs).free ==> Last(Merge(bs)).free && Last(Merge(bs)).size >= Last(bs).size
    decreases |bs|
  {
    if |bs| > 1 && bs[0].free && bs[1].free {
      MergeKeepsLast([Join(bs[0], bs[1])] + bs[2..]);
    } else if |bs| > 1 {
      MergeKeepsLast(bs[1..]);
    }
  }

  /** free always does. */
  lemma FreeStaysInside(bs: seq<Block>, k: nat)
    requires Good(bs) && Inside(bs) && k < |bs|
    ensures Inside(Free(bs, k))
  {
    hide Inside, Good, Live, Merge;
    FreeMeaning(bs, k);
    MergeKeepsLast(bs[k := bs[k].(free := true)]);
    InsideExactly(bs);
    InsideExactly(Free(bs, k));
  }

  predicate Allocates(op: Op) {
    !op.FreeOp?
  }

  /** Every request of a run leaves that room. */
  ghost predicate Guarded(bs: seq<Block>, ops: seq<Op>)
    decreases |ops|
  {
    ops == [] || (Good(bs) && Legal(bs, ops[0]) && (Allocates(ops[0]) ==> Roomy(bs, ops[0].size))
                  && Guarded(Step(bs, ops[0]), ops[1..]))
  }

  /** Every heap on the way, between the two halves of realloc too, keeps to the mapped bytes. */
  ghost predicate AlwaysInside(bs: seq<Block>, ops: seq<Op>)
    decreases |ops|
  {
    && Inside(bs)
    && (ops == [] || (Good(bs) && Legal(bs, ops[0]) && (Allocates(ops[0]) ==> Inside(Malloc(bs, ops[0].size).0))
                      && AlwaysInside(Step(bs, ops[0]), ops[1..])))
  }

  lemma StepStaysInside(bs: seq<Block>, op: Op)
    requires Good(bs) && Inside(bs) && Legal(bs, op) && (Allocates(op) ==> Roomy(bs, op.size))
    ensures Inside(Step(bs, op))
  {
    hide Inside, Good, Live, Free, Malloc, Roomy;
    match op
    case MallocOp(size) => MallocStaysInside(bs, size);
    case FreeOp(ptr) => FreeStaysInside(bs, Find(bs, ptr));
    case ReallocOp(ptr, size) =>
      MallocStaysInside(bs, size);
      MallocMeaning(bs, size);
      MallocKeepsPointer(bs, size, ptr);
      FreeStaysInside(Malloc(bs, size).0, Find(Malloc(bs, size).0, ptr));
  }

  /** A run keeps to the mapped bytes if, and only if, all its requests leave that room. */
  lemma {:induction false} RunStaysInside(bs: seq<Block>, ops: seq<Op>, bs': seq<Block>)
    requires Good(bs) && Inside(bs) && Reaches(bs, ops, bs')
    ensures Guarded(bs, ops) <==> AlwaysInside(bs, ops)
    ensures Guarded(bs, ops) ==> Inside(bs')
    decreases |ops|
  {
    hide Inside, Good, Malloc, Step, Legal, Roomy;
    NeverEmpty(bs);
    if ops != [] {
      var op := ops[0];
      StepMeaning(bs, op);
      if Allocates(op) {
        MallocStaysInside(bs, op.size);
      }
      if Allocates(op) ==> Roomy(bs, op.size) {
        StepStaysInside(bs, op);
        RunStaysInside(Step(bs, op), ops[1..], bs');
      }
    }
  }
}
