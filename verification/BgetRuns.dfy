/**
 What holds of every sequence of bpool, bget and brel calls.
 */
module BgetRuns {
  import opened BgetHeap

  // ---- Which block bget takes ----

  predicate Fits(b: Block, size: int)
  {
    b.kind == Free && b.size >= size
  }

  /**
   Block `k`, at position `i` of the free list, is the one taken: with best fit a smallest block
   that fits and the first of its size in the list, with first fit the first that fits.
   */
  ghost predicate ChosenAt(h: Heap, best: bool, size: int, k: nat, i: nat)
  {
    && k < |h.blocks| && Fits(h.blocks[k], size)
    && i < |h.list| && h.list[i] == h.blocks[k].addr
    && forall j :: 0 <= j < |h.blocks| && j != k && Fits(h.blocks[j], size) ==>
         if best then h.blocks[k].size <= h.blocks[j].size &&
                      (h.blocks[j].addr in h.list[..i] ==> h.blocks[k].size < h.blocks[j].size)
         else h.blocks[j].addr !in h.list[..i]
  }

  ghost predicate Chosen(h: Heap, best: bool, size: int, k: nat)
  {
    exists i: nat :: ChosenAt(h, best, size, k, i)
  }

  lemma InPrefix(list: seq<int>, i: nat, j: nat)
    requires i < |list| && j <= |list|
    ensures i < j ==> list[i] in list[..j]
  {
  }

  /** The policy leaves no freedom. */
  lemma ChosenIsUnique(h: Heap, unit: nat, best: bool, size: int, k: nat, l: nat)
    requires unit == 4 || unit == 8
    requires Inv(h, unit) && Chosen(h, best, size, k) && Chosen(h, best, size, l)
    ensures k == l
  {
    var i: nat :| ChosenAt(h, best, size, k, i);
    var j: nat :| ChosenAt(h, best, size, l, j);
    InPrefix(h.list, i, j);
    InPrefix(h.list, j, i);
    AddressIsUnique(h.blocks, unit, k);
  }

  // ---- Undo ----

  /** Freeing what bget just gave restores every block; when the block was split even the list. */
  lemma GetThenRelease(h: Heap, q: nat, unit: nat, k: nat, size: int)
    requires Quantum(q, unit) && Inv(h, unit) && k < |h.blocks| && h.blocks[k].kind == Free
    ensures var h' := Carve(h, q, k, size); var g := Given(h, q, k, size);
            && g + 1 < |h'.blocks| && h'.blocks[g].kind == Used
            && Release(h', g).blocks == h.blocks
            && (Splits(q, h.blocks[k], size) ==> Release(h', g) == h)
            && (forall a :: a in Release(h', g).list <==> a in h.list)
  {
    assert h.blocks[|h.blocks| - 1].kind == End;
    assert FreeAt(h.blocks, h.blocks[k].addr);
    if Splits(q, h.blocks[k], size) {
      UndoSplit(h, k, size);
    } else {
      UndoTake(h, k);
    }
  }

  lemma UndoSplit(h: Heap, k: nat, size: int)
    requires k + 1 < |h.blocks| && h.blocks[k].kind == Free && Coalesced(h.blocks)
    ensures Release(Heap(Split(h.blocks, k, size), h.list), k + 1) == h
  {
    SplitThenMerge(h.blocks, k, size);
    assert h.blocks[k + 1].kind != Free;
    hide Split, Merge;
  }

  lemma UndoTake(h: Heap, k: nat)
    requires k + 1 < |h.blocks| && h.blocks[k].kind == Free && Coalesced(h.blocks)
    requires Distinct(h.list) && h.blocks[k].addr in h.list
    ensures var h' := Heap(Retag(h.blocks, k, Used), Without(h.list, h.blocks[k].addr));
            && Release(h', k).blocks == h.blocks
            && forall a :: a in Release(h', k).list <==> a in h.list
  {
    var bs, h' := h.blocks, Heap(Retag(h.blocks, k, Used), Without(h.list, h.blocks[k].addr));
    assert k > 0 ==> bs[k - 1].kind != Free;
    assert bs[k + 1].kind != Free;
    assert Retag(Retag(bs, k, Used), k, Free) == bs;
    forall a ensures a in Release(h', k).list <==> a in h.list {
      WithoutMembers(h.list, bs[k].addr, a);
    }
  }

  lemma SplitThenMerge(bs: seq<Block>, k: nat, size: int)
    requires k < |bs|
    ensures Merge(Split(bs, k, size), k) == bs
  {
    var r := Split(bs, k, size);
    assert Joined(LowerPart(bs[k], size), UpperPart(bs[k], size)) == bs[k];
    assert r[..k] == bs[..k] && r[k + 2..] == bs[k + 1..];
  }

  // ---- Conservation ----

  /** The bytes in blocks of the given kinds, headers included. */
  function Sum(bs: seq<Block>, kinds: set<Kind>): int
  {
    if bs == [] then 0 else Sum(bs[..|bs| - 1], kinds) + Part(bs[|bs| - 1], kinds)
  }

  function Part(b: Block, kinds: set<Kind>): int
  {
    if b.kind in kinds then b.size else 0
  }

  lemma {:induction false} SumConcat(a: seq<Block>, b: seq<Block>, kinds: set<Kind>)
    ensures Sum(a + b, kinds) == Sum(a, kinds) + Sum(b, kinds)
    decreases |b|
  {
    if b == [] {
      assert a + b == a;
    } else {
      assert (a + b)[..|a + b| - 1] == a + b[..|b| - 1];
      SumConcat(a, b[..|b| - 1], kinds);
    }
  }

  lemma {:induction false} SumNotNegative(bs: seq<Block>, kinds: set<Kind>)
    requires forall k :: 0 <= k < |bs| ==> bs[k].size >= 0
    ensures Sum(bs, kinds) >= 0
  {
    if bs != [] { SumNotNegative(bs[..|bs| - 1], kinds); }
  }

  lemma SumAround(bs: seq<Block>, k: nat, mid: seq<Block>, l: nat, kinds: set<Kind>)
    requires k <= l <= |bs|
    ensures Sum(bs[..k] + mid + bs[l..], kinds) == Sum(bs, kinds) - Sum(bs[k..l], kinds) + Sum(mid, kinds)
  {
    SumConcat(bs[..k] + mid, bs[l..], kinds);
    SumConcat(bs[..k], mid, kinds);
    SumConcat(bs[..k] + bs[k..l], bs[l..], kinds);
    SumConcat(bs[..k], bs[k..l], kinds);
    assert bs == bs[..k] + bs[k..l] + bs[l..];
  }

  lemma SumOne(b: Block, kinds: set<Kind>)
    ensures Sum([b], kinds) == Part(b, kinds)
  {
    assert [b][..0] == [];
  }

  lemma SumTwo(a: Block, b: Block, kinds: set<Kind>)
    ensures Sum([a, b], kinds) == Part(a, kinds) + Part(b, kinds)
  {
    assert [a, b] == [a] + [b];
    SumConcat([a], [b], kinds);
    SumOne(a, kinds);
    SumOne(b, kinds);
  }

  /** bget moves exactly the size of the block it gives from free to used; sentinels stay. */
  lemma CarveSums(h: Heap, q: nat, k: nat, size: int)
    requires k < |h.blocks| && h.blocks[k].kind == Free
    ensures var h' := Carve(h, q, k, size); var got := h'.blocks[Given(h, q, k, size)].size;
            && Sum(h'.blocks, {Used}) == Sum(h.blocks, {Used}) + got
            && Sum(h'.blocks, {Free}) == Sum(h.blocks, {Free}) - got
            && Sum(h'.blocks, {End}) == Sum(h.blocks, {End})
  {
    var bs := h.blocks;
    forall kinds: set<Kind>
      ensures Sum(Carve(h, q, k, size).blocks, kinds) == Sum(bs, kinds) - Part(bs[k], kinds) +
              if Splits(q, bs[k], size) then Part(LowerPart(bs[k], size), kinds) + Part(UpperPart(bs[k], size), kinds)
              else Part(bs[k].(kind := Used), kinds)
    {
      assert bs[k..k + 1] == [bs[k]];
      SumOne(bs[k], kinds);
      if Splits(q, bs[k], size) {
        SumAround(bs, k, [LowerPart(bs[k], size), UpperPart(bs[k], size)], k + 1, kinds);
        SumTwo(LowerPart(bs[k], size), UpperPart(bs[k], size), kinds);
      } else {
        assert Retag(bs, k, Used) == bs[..k] + [bs[k].(kind := Used)] + bs[k + 1..];
        SumAround(bs, k, [bs[k].(kind := Used)], k + 1, kinds);
        SumOne(bs[k].(kind := Used), kinds);
      }
    }
  }

  lemma MergeSums(bs: seq<Block>, k: nat, kinds: set<Kind>)
    requires k + 1 < |bs|
    ensures Sum(Merge(bs, k), kinds) ==
            Sum(bs, kinds) - Part(bs[k], kinds) - Part(bs[k + 1], kinds) + Part(Joined(bs[k], bs[k + 1]), kinds)
  {
    assert bs[k..k + 2] == [bs[k], bs[k + 1]];
    SumAround(bs, k, [Joined(bs[k], bs[k + 1])], k + 2, kinds);
    SumTwo(bs[k], bs[k + 1], kinds);
    SumOne(Joined(bs[k], bs[k + 1]), kinds);
  }

  lemma RetagSums(bs: seq<Block>, k: nat, kind: Kind, kinds: set<Kind>)
    requires k < |bs|
    ensures Sum(Retag(bs, k, kind), kinds) == Sum(bs, kinds) - Part(bs[k], kinds) + Part(bs[k].(kind := kind), kinds)
  {
    assert bs[k..k + 1] == [bs[k]];
    assert Retag(bs, k, kind) == bs[..k] + [bs[k].(kind := kind)] + bs[k + 1..];
    SumAround(bs, k, [bs[k].(kind := kind)], k + 1, kinds);
    SumOne(bs[k], kinds);
    SumOne(bs[k].(kind := kind), kinds);
  }

  lemma FreedSums(h: Heap, k: nat, kinds: set<Kind>)
    requires k < |h.blocks| && h.blocks[k].kind == Used
    ensures Sum(Freed(h, k).blocks, kinds) ==
            Sum(h.blocks, kinds) - Part(h.blocks[k], kinds) + (if Free in kinds then h.blocks[k].size else 0)
  {
    hide Sum, Merge, Retag;
    if k > 0 && h.blocks[k - 1].kind == Free {
      MergeSums(h.blocks, k - 1, kinds);
    } else {
      RetagSums(h.blocks, k, Free, kinds);
    }
  }

  lemma AbsorbedSums(h: Heap, k: nat, kinds: set<Kind>)
    requires k + 1 < |h.blocks| && h.blocks[k].kind == Free
    ensures Sum(Absorbed(h, k).blocks, kinds) == Sum(h.blocks, kinds)
  {
    hide Sum, Merge;
    if h.blocks[k + 1].kind == Free { MergeSums(h.blocks, k, kinds); }
  }

  /** brel moves exactly the size of the block from used to free. */
  lemma ReleaseSums(h: Heap, k: nat)
    requires k + 1 < |h.blocks| && h.blocks[k].kind == Used
    ensures var r := Release(h, k).blocks;
            && Sum(r, {Used}) == Sum(h.blocks, {Used}) - h.blocks[k].size
            && Sum(r, {Free}) == Sum(h.blocks, {Free}) + h.blocks[k].size
            && Sum(r, {End}) == Sum(h.blocks, {End})
  {
    var f, m := Freed(h, k), FreedAt(h, k);
    assert m + 1 < |f.blocks| && f.blocks[m].kind == Free;
    hide Sum, Absorbed, Freed;
    FreedSums(h, k, {Used});
    FreedSums(h, k, {Free});
    FreedSums(h, k, {End});
    AbsorbedSums(f, m, {Used});
    AbsorbedSums(f, m, {Free});
    AbsorbedSums(f, m, {End});
  }

  lemma AddPoolSums(h: Heap, p: Pool)
    ensures var r := AddPool(h, p).blocks;
            && Sum(r, {Used}) == Sum(h.blocks, {Used})
            && Sum(r, {Free}) == Sum(h.blocks, {Free}) + p.len - HEADER
            && Sum(r, {End}) == Sum(h.blocks, {End}) + HEADER
  {
    var a, b := Block(p, p.start, p.len - HEADER, Free), Block(p, p.start + p.len - HEADER, HEADER, End);
    forall kinds: set<Kind>
      ensures Sum(AddPool(h, p).blocks, kinds) == Sum(h.blocks, kinds) + Part(a, kinds) + Part(b, kinds)
    {
      SumConcat(h.blocks, [a, b], kinds);
      SumTwo(a, b, kinds);
    }
  }

  // ---- Live blocks ----

  /** A block in use, as the program that holds it knows it. */
  predicate Live(h: Heap, addr: int, size: int)
  {
    exists k :: 0 <= k < |h.blocks| && h.blocks[k].kind == Used && h.blocks[k].addr == addr && h.blocks[k].size == size
  }

  /** bget moves no live block and makes exactly one more. */
  lemma CarveLive(h: Heap, q: nat, k: nat, size: int, addr: int, n: int)
    requires k < |h.blocks| && h.blocks[k].kind == Free
    ensures var h' := Carve(h, q, k, size); var b := h'.blocks[Given(h, q, k, size)];
            Live(h', addr, n) <==> Live(h, addr, n) || (addr == b.addr && n == b.size)
  {
    var h', g, bs := Carve(h, q, k, size), Given(h, q, k, size), h.blocks;
    hide Split;
    assert h'.blocks[g].kind == Used;
    if Live(h, addr, n) {
      var j :| 0 <= j < |bs| && bs[j].kind == Used && bs[j].addr == addr && bs[j].size == n;
      var j' := if Splits(q, bs[k], size) && j > k then j + 1 else j;
      assert h'.blocks[j'] == bs[j];
    }
    if Live(h', addr, n) && (addr, n) != (h'.blocks[g].addr, h'.blocks[g].size) {
      var j' :| 0 <= j' < |h'.blocks| && h'.blocks[j'].kind == Used && h'.blocks[j'].addr == addr &&
        h'.blocks[j'].size == n;
      var j := if Splits(q, bs[k], size) && j' > k then j' - 1 else j';
      assert bs[j] == h'.blocks[j'];
    }
  }

  lemma MergeLive(bs: seq<Block>, k: nat, j: nat)
    requires k + 1 < |bs| && j < |bs| && j != k && j != k + 1
    ensures bs[j] in Merge(bs, k)
  {
    hide Merge;
    assert Merge(bs, k)[if j < k then j else j - 1] == bs[j];
  }

  lemma MergeNoNew(bs: seq<Block>, k: nat, b: Block)
    requires k + 1 < |bs| && bs[k].kind == Free && b in Merge(bs, k) && b.kind == Used
    ensures exists j :: 0 <= j < |bs| && j != k && j != k + 1 && bs[j] == b
  {
    hide Merge;
    var r := Merge(bs, k);
    var i :| 0 <= i < |r| && r[i] == b;
    assert bs[if i < k then i else i + 1] == b;
  }

  lemma FreedLive(h: Heap, k: nat, addr: int, n: int)
    requires k < |h.blocks| && h.blocks[k].kind == Used && UniqueAt(h.blocks, k)
    ensures Live(Freed(h, k), addr, n) <==> Live(h, addr, n) && addr != h.blocks[k].addr
  {
    var bs, f, m := h.blocks, Freed(h, k), FreedAt(h, k);
    hide Merge;
    if Live(h, addr, n) && addr != bs[k].addr {
      var j :| 0 <= j < |bs| && bs[j].kind == Used && bs[j].addr == addr && bs[j].size == n;
      if m < k { MergeLive(bs, m, j); } else { assert f.blocks[j] == bs[j]; }
      assert bs[j] in f.blocks;
    }
    if Live(f, addr, n) {
      var i :| 0 <= i < |f.blocks| && f.blocks[i].kind == Used && f.blocks[i].addr == addr && f.blocks[i].size == n;
      if m < k { MergeNoNew(bs, m, f.blocks[i]); } else { assert bs[i] == f.blocks[i]; }
    }
  }

  lemma AbsorbedLive(h: Heap, k: nat, addr: int, n: int)
    requires k + 1 < |h.blocks| && h.blocks[k].kind == Free
    ensures Live(Absorbed(h, k), addr, n) <==> Live(h, addr, n)
  {
    var bs, r := h.blocks, Absorbed(h, k);
    hide Merge;
    if bs[k + 1].kind == Free {
      if Live(h, addr, n) {
        var j :| 0 <= j < |bs| && bs[j].kind == Used && bs[j].addr == addr && bs[j].size == n;
        MergeLive(bs, k, j);
      }
      if Live(r, addr, n) {
        var i :| 0 <= i < |r.blocks| && r.blocks[i].kind == Used && r.blocks[i].addr == addr && r.blocks[i].size == n;
        MergeNoNew(bs, k, r.blocks[i]);
      }
    }
  }

  /** brel ends the life of one block and moves no other. */
  lemma ReleaseLive(h: Heap, k: nat, unit: nat, addr: int, n: int)
    requires unit == 4 || unit == 8
    requires Inv(h, unit) && k + 1 < |h.blocks| && h.blocks[k].kind == Used
    ensures Live(Release(h, k), addr, n) <==> Live(h, addr, n) && addr != h.blocks[k].addr
  {
    AddressIsUnique(h.blocks, unit, k);
    FreedLive(h, k, addr, n);
    FreedHalf(h, k, unit);
    AbsorbedLive(Freed(h, k), FreedAt(h, k), addr, n);
  }

  /** Live areas lie in their pools and do not overlap. */
  lemma LiveApart(h: Heap, unit: nat, a: int, m: int, b: int, n: int)
    requires unit == 4 || unit == 8
    requires Inv(h, unit) && Live(h, a, m) && Live(h, b, n) && a != b
    ensures a + m <= b || b + n <= a
  {
    var i :| 0 <= i < |h.blocks| && h.blocks[i].kind == Used && h.blocks[i].addr == a && h.blocks[i].size == m;
    var j :| 0 <= j < |h.blocks| && h.blocks[j].kind == Used && h.blocks[j].addr == b && h.blocks[j].size == n;
    assert Apart(h.blocks[if i < j then i else j], h.blocks[if i < j then j else i]);
  }

  /** A live block lies in its pool, before the sentinel, and what the program gets of it is aligned. */
  lemma LiveInPool(h: Heap, unit: nat, addr: int, size: int) returns (p: Pool)
    requires unit == 4 || unit == 8
    requires Inv(h, unit) && Live(h, addr, size)
    ensures PoolOk(p, unit) && p.start <= addr && addr + size <= p.start + p.len - HEADER
    ensures Multiple(addr + HEADER, unit) && Multiple(size, unit) && size >= LINKED
  {
    var k :| 0 <= k < |h.blocks| && h.blocks[k].kind == Used && h.blocks[k].addr == addr && h.blocks[k].size == size;
    assert BlockOk(h.blocks[k], unit);
    p := h.blocks[k].pool;
    MultipleSum(addr, HEADER, unit);
  }

  // ---- Runs ----

  /** A call, with the address it returned or was given. */
  datatype Call = CallPool(start: int, len: nat) | CallGet(n: nat, p: int) | CallRel(p: int)

  ghost predicate SomeFits(h: Heap, size: int)
  {
    exists k :: 0 <= k < |h.blocks| && Fits(h.blocks[k], size)
  }

  /** What bget may do: it fails only if no free block is large enough, and takes the block its policy names. */
  ghost predicate GetStep(q: nat, best: bool, h: Heap, n: nat, p: int, h': Heap)
    requires q > 0
  {
    if SomeFits(h, Padded(q, n))
    then exists k :: 0 <= k < |h.blocks| && Chosen(h, best, Padded(q, n), k)
           && h' == Carve(h, q, k, Padded(q, n)) && p == h'.blocks[Given(h, q, k, Padded(q, n))].addr + HEADER
    else h' == h && p == 0
  }

  /** What brel may do, given the address of a live block. */
  ghost predicate RelStep(h: Heap, p: int, h': Heap)
  {
    exists k :: && 0 <= k && k + 1 < |h.blocks| && h.blocks[k].kind == Used
                && h.blocks[k].addr + HEADER == p && h' == Release(h, k)
  }

  ghost predicate PoolStep(q: nat, unit: nat, h: Heap, start: int, len: nat, h': Heap)
    requires Quantum(q, unit)
  {
    var p := Pool(start, Usable(q, len));
    && PoolOk(p, unit)
    && (forall k :: 0 <= k < |h.blocks| ==> Apart(h.blocks[k], Block(p, p.start, p.len, Free)))
    && h' == AddPool(h, p)
  }

  ghost predicate Step(q: nat, unit: nat, best: bool, h: Heap, call: Call, h': Heap)
    requires Quantum(q, unit)
  {
    match call
    case CallPool(start, len) => PoolStep(q, unit, h, start, len, h')
    case CallGet(n, p) => GetStep(q, best, h, n, p, h')
    case CallRel(p) => RelStep(h, p, h')
  }

  /** The bytes of the regions given to bpool, each rounded down to the quantum. */
  function PoolBytes(q: nat, calls: seq<Call>): int
    requires q > 0
  {
    if calls == [] then 0
    else PoolBytes(q, calls[..|calls| - 1]) +
         if calls[|calls| - 1].CallPool? then Usable(q, calls[|calls| - 1].len) else 0
  }

  function Pools(calls: seq<Call>): nat
  {
    if calls == [] then 0 else Pools(calls[..|calls| - 1]) + if calls[|calls| - 1].CallPool? then 1 else 0
  }

  ghost predicate Run(q: nat, unit: nat, best: bool, hs: seq<Heap>, calls: seq<Call>)
    requires Quantum(q, unit)
  {
    && |hs| == |calls| + 1 && hs[0] == Heap([], [])
    && forall i :: 0 <= i < |calls| ==> Step(q, unit, best, hs[i], calls[i], hs[i + 1])
  }

  function Total(h: Heap): int
  {
    Sum(h.blocks, {Used}) + Sum(h.blocks, {Free}) + Sum(h.blocks, {End})
  }

  lemma GetKeeps(q: nat, unit: nat, best: bool, h: Heap, n: nat, p: int, h': Heap)
    requires Quantum(q, unit) && Inv(h, unit) && GetStep(q, best, h, n, p, h')
    ensures Inv(h', unit) && Total(h') == Total(h) && Sum(h'.blocks, {End}) == Sum(h.blocks, {End})
  {
    hide Sum, Tiled, Coalesced, Listed, Split, Padded;
    PaddedFits(q, unit, n);
    if SomeFits(h, Padded(q, n)) {
      var k :| 0 <= k < |h.blocks| && Chosen(h, best, Padded(q, n), k)
        && h' == Carve(h, q, k, Padded(q, n)) && p == h'.blocks[Given(h, q, k, Padded(q, n))].addr + HEADER;
      CarveInv(h, q, k, Padded(q, n), unit);
      CarveSums(h, q, k, Padded(q, n));
    }
  }

  predicate FreeBlock(h: Heap, addr: int, size: int)
  {
    exists k :: 0 <= k < |h.blocks| && h.blocks[k].kind == Free && h.blocks[k].addr == addr && h.blocks[k].size == size
  }

  /**
   What a successful bget has done to the block of its policy: with more to spare than a smallest
   buffer and a header, `size` bytes are cut off the upper end and the rest stays free where it was;
   otherwise all of it is given.
   */
  ghost predicate CutFrom(q: nat, best: bool, h: Heap, size: int, p: int, h': Heap, k: nat)
  {
    && k < |h.blocks| && Chosen(h, best, size, k)
    && var b := h.blocks[k];
    if b.size - size > (if q > 8 then q else 8) + 8
    then p == b.addr + (b.size - size) + 8 && Live(h', p - 8, size) && FreeBlock(h', b.addr, b.size - size)
    else p == b.addr + 8 && Live(h', p - 8, b.size) && forall n :: !FreeBlock(h', b.addr, n)
  }

  ghost predicate GotBlock(q: nat, best: bool, h: Heap, n: nat, p: int, h': Heap)
    requires q > 0
  {
    exists k: nat :: CutFrom(q, best, h, Padded(q, n), p, h', k)
  }

  lemma CutOff(h: Heap, k: nat, size: int)
    requires k < |h.blocks| && h.blocks[k].kind == Free
    ensures var h', b := Heap(Split(h.blocks, k, size), h.list), h.blocks[k];
            Live(h', b.addr + (b.size - size), size) && FreeBlock(h', b.addr, b.size - size)
  {
    hide Split;
    var r := Split(h.blocks, k, size);
    assert r[k].kind == Free && r[k + 1].kind == Used;
  }

  lemma TakenWhole(h: Heap, k: nat)
    requires k < |h.blocks| && UniqueAt(h.blocks, k)
    ensures var h', b := Heap(Retag(h.blocks, k, Used), Without(h.list, h.blocks[k].addr)), h.blocks[k];
            Live(h', b.addr, b.size) && forall n :: !FreeBlock(h', b.addr, n)
  {
    hide Without;
    var r := Retag(h.blocks, k, Used);
    assert r[k].kind == Used;
  }

  lemma ChosenIsFree(h: Heap, best: bool, size: int, k: nat)
    requires Chosen(h, best, size, k)
    ensures k < |h.blocks| && h.blocks[k].kind == Free && h.blocks[k].size >= size
  {
  }

  lemma CarvedFrom(q: nat, unit: nat, best: bool, h: Heap, size: int, k: nat)
    requires Quantum(q, unit) && Inv(h, unit) && k < |h.blocks| && Chosen(h, best, size, k)
    ensures var h' := Carve(h, q, k, size);
            CutFrom(q, best, h, size, h'.blocks[Given(h, q, k, size)].addr + HEADER, h', k)
  {
    hide Tiled, Coalesced, Listed, Without, Live, FreeBlock, UniqueAt, Chosen;
    ChosenIsFree(h, best, size, k);
    if Splits(q, h.blocks[k], size) {
      CutOff(h, k, size);
    } else {
      AddressIsUnique(h.blocks, unit, k);
      TakenWhole(h, k);
    }
  }

  lemma GotFromChosen(q: nat, unit: nat, best: bool, h: Heap, n: nat, p: int, h': Heap)
    requires Quantum(q, unit) && Inv(h, unit) && GetStep(q, best, h, n, p, h') && p != 0
    ensures GotBlock(q, best, h, n, p, h')
  {
    hide Inv, Padded, Split, CutFrom, Chosen, SomeFits;
    var k :| 0 <= k < |h.blocks| && Chosen(h, best, Padded(q, n), k)
      && h' == Carve(h, q, k, Padded(q, n)) && p == h'.blocks[Given(h, q, k, Padded(q, n))].addr + HEADER;
    CarvedFrom(q, unit, best, h, Padded(q, n), k);
  }

  /**
   bget gives what was asked for and never more than a smallest buffer and a header besides; with best
   fit it cuts it from a smallest of the free blocks that are long enough.
   */
  lemma GotSize(q: nat, unit: nat, best: bool, h: Heap, n: nat, p: int, h': Heap) returns (s: int, k: nat)
    requires Quantum(q, unit) && Inv(h, unit) && GetStep(q, best, h, n, p, h') && p != 0
    ensures Live(h', p - 8, s) && Padded(q, n) <= s <= Padded(q, n) + (if q > 8 then q else 8) + 8
    ensures CutFrom(q, best, h, Padded(q, n), p, h', k) && h.blocks[k].kind == Free && h.blocks[k].size >= Padded(q, n)
    ensures best ==>
              forall j :: 0 <= j < |h.blocks| && h.blocks[j].kind == Free && h.blocks[j].size >= Padded(q, n) ==>
                h.blocks[k].size <= h.blocks[j].size
    ensures var m := if q > 8 then q else 8; n + 8 <= s < (if n < m then m else n) + q + m + 16
  {
    hide Padded, Inv, GetStep;
    GotFromChosen(q, unit, best, h, n, p, h');
    k :| CutFrom(q, best, h, Padded(q, n), p, h', k);
    PaddedFits(q, unit, n);
    var b := h.blocks[k];
    s := if b.size - Padded(q, n) > (if q > 8 then q else 8) + 8 then Padded(q, n) else b.size;
  }

  /** bpool adds one free block of the region less a header, last in the list, and no live one. */
  lemma PoolAdds(q: nat, unit: nat, h: Heap, start: int, len: nat, h': Heap, addr: int, n: int)
    requires Quantum(q, unit) && PoolStep(q, unit, h, start, len, h')
    ensures FreeBlock(h', addr, n) <==> FreeBlock(h, addr, n) || (addr == start && n == Usable(q, len) - 8)
    ensures Live(h', addr, n) <==> Live(h, addr, n)
    ensures h'.list == h.list + [start]
  {
    hide Usable;
    var k := |h.blocks|;
    assert forall j :: 0 <= j < k ==> h'.blocks[j] == h.blocks[j];
    assert h'.blocks[k].kind == Free && h'.blocks[k + 1].kind == End;
  }

  /** A block that is freed between used ones goes to the end of the free list, with its address and size. */
  lemma ReleasedAlone(h: Heap, k: nat)
    requires k + 1 < |h.blocks| && h.blocks[k].kind == Used
    requires (k == 0 || h.blocks[k - 1].kind != Free) && h.blocks[k + 1].kind != Free
    ensures Release(h, k).list == h.list + [h.blocks[k].addr]
    ensures FreeBlock(Release(h, k), h.blocks[k].addr, h.blocks[k].size)
  {
    assert Release(h, k).blocks[k].kind == Free;
  }

  lemma StepKeeps(q: nat, unit: nat, best: bool, h: Heap, call: Call, h': Heap)
    requires Quantum(q, unit) && Inv(h, unit) && Step(q, unit, best, h, call, h')
    ensures Inv(h', unit)
    ensures Total(h') == Total(h) + if call.CallPool? then Usable(q, call.len) else 0
    ensures Sum(h'.blocks, {End}) == Sum(h.blocks, {End}) + if call.CallPool? then HEADER else 0
  {
    hide Sum, Tiled, Coalesced, Listed, Release, AddPool, GetStep;
    match call
    case CallPool(start, len) =>
      AddPoolInv(h, Pool(start, Usable(q, len)), unit);
      AddPoolSums(h, Pool(start, Usable(q, len)));
    case CallGet(n, p) => GetKeeps(q, unit, best, h, n, p, h');
    case CallRel(p) =>
      var k :| 0 <= k && k + 1 < |h.blocks| && h.blocks[k].kind == Used && h.blocks[k].addr + HEADER == p &&
        h' == Release(h, k);
      ReleaseInv(h, k, unit);
      ReleaseSums(h, k);
  }

  /** Every reachable heap is sound and no byte of any pool is ever lost or gained. */
  lemma {:induction false} RunsAreSound(q: nat, unit: nat, best: bool, hs: seq<Heap>, calls: seq<Call>, i: nat)
    requires Quantum(q, unit) && Run(q, unit, best, hs, calls) && i <= |calls|
    ensures Inv(hs[i], unit)
    ensures Total(hs[i]) == PoolBytes(q, calls[..i])
    ensures Sum(hs[i].blocks, {End}) == HEADER * Pools(calls[..i])
    decreases i
  {
    if i > 0 {
      hide Step, Inv;
      RunsAreSound(q, unit, best, hs, calls, i - 1);
      assert Step(q, unit, best, hs[i - 1], calls[i - 1], hs[i - 1 + 1]);
      StepKeeps(q, unit, best, hs[i - 1], calls[i - 1], hs[i]);
      assert calls[..i][..i - 1] == calls[..i - 1];
    }
  }

  lemma StepLive(q: nat, unit: nat, best: bool, h: Heap, call: Call, h': Heap, addr: int, size: int)
    requires Quantum(q, unit) && Inv(h, unit) && Step(q, unit, best, h, call, h')
    requires Live(h, addr, size) && call != CallRel(addr + HEADER)
    ensures Live(h', addr, size)
  {
    hide Tiled, Listed, Coalesced, Release, Split;
    match call
    case CallPool(start, len) =>
      var k :| 0 <= k < |h.blocks| && h.blocks[k].kind == Used && h.blocks[k].addr == addr && h.blocks[k].size == size;
      assert h'.blocks[k] == h.blocks[k];
    case CallGet(n, p) =>
      if SomeFits(h, Padded(q, n)) {
        var k :| 0 <= k < |h.blocks| && Chosen(h, best, Padded(q, n), k)
          && h' == Carve(h, q, k, Padded(q, n)) && p == h'.blocks[Given(h, q, k, Padded(q, n))].addr + HEADER;
        CarveLive(h, q, k, Padded(q, n), addr, size);
      }
    case CallRel(p) =>
      var k :| 0 <= k && k + 1 < |h.blocks| && h.blocks[k].kind == Used && h.blocks[k].addr + HEADER == p &&
        h' == Release(h, k);
      ReleaseLive(h, k, unit, addr, size);
  }

  lemma GotLive(q: nat, unit: nat, best: bool, h: Heap, n: nat, p: int, h': Heap) returns (size: int)
    requires Quantum(q, unit) && Step(q, unit, best, h, CallGet(n, p), h') && p != 0
    ensures Live(h', p - HEADER, size) && size >= n + HEADER
  {
    PaddedFits(q, unit, n);
    var k :| 0 <= k < |h.blocks| && Chosen(h, best, Padded(q, n), k)
      && h' == Carve(h, q, k, Padded(q, n)) && p == h'.blocks[Given(h, q, k, Padded(q, n))].addr + HEADER;
    size := h'.blocks[Given(h, q, k, Padded(q, n))].size;
    CarveLive(h, q, k, Padded(q, n), p - HEADER, size);
  }

  /**
   A buffer stays where it is, and long enough for what was asked, from the call that returned
   it until it is released.
   */
  lemma {:induction false} BuffersStay(
      q: nat, unit: nat, best: bool, hs: seq<Heap>, calls: seq<Call>, i: nat, j: nat)
    returns (size: int)
    requires Quantum(q, unit) && Run(q, unit, best, hs, calls) && i < j <= |calls|
    requires calls[i].CallGet? && calls[i].p != 0
    requires forall l :: i < l < j ==> calls[l] != CallRel(calls[i].p)
    ensures Live(hs[j], calls[i].p - HEADER, size) && size >= calls[i].n + HEADER
    decreases j
  {
    hide Step, Inv, Live, Sum, PoolBytes, Pools;
    var n, p := calls[i].n, calls[i].p;
    if j == i + 1 {
      RunsAreSound(q, unit, best, hs, calls, i);
      assert Step(q, unit, best, hs[i], calls[i], hs[i + 1]);
      size := GotLive(q, unit, best, hs[i], n, p, hs[i + 1]);
    } else {
      size := BuffersStay(q, unit, best, hs, calls, i, j - 1);
      RunsAreSound(q, unit, best, hs, calls, j - 1);
      assert Step(q, unit, best, hs[j - 1], calls[j - 1], hs[j - 1 + 1]);
      StepLive(q, unit, best, hs[j - 1], calls[j - 1], hs[j], p - HEADER, size);
    }
  }
}
