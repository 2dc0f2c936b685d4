/**
 What a BGET heap means, apart from how it is laid out in memory (kernel/bget/bget.c).

 All pools are one sequence of blocks in address order within each pool; a pool
 ends with its sentinel, an `End` block of eight bytes. `list` are the free blocks
 in the order of the circular free list. Both copies of BGET (kernel/bget/bget.c
 and libs/bget/bget.c) are covered: they differ in the quantum and in the fit.
 */
module BgetHeap {
  import opened Words

  datatype Kind = Free | Used | End

  /** A region given to bpool, its length rounded down. */
  datatype Pool = Pool(start: int, len: int)

  datatype Block = Block(pool: Pool, addr: int, size: int, kind: Kind)

  datatype Heap = Heap(blocks: seq<Block>, list: seq<int>)

  /** sizeof(struct bhead) and sizeof(struct bfhead) */
  const HEADER: int := 8
  const LINKED: int := 16

  const LIMIT: int := 0x8000_0000

  // ---- Sizes ----

  function SizeQ(q: nat): nat
  {
    if q > 8 then q else 8
  }

  /** The size bget allocates for a request of `n` bytes, header included. */
  function Padded(q: nat, n: nat): (r: nat)
    requires q > 0
  {
    AndNot((if n < SizeQ(q) then SizeQ(q) else n) + (q - 1), q - 1) + 8
  }

  /** The part of a region of `len` bytes that bpool uses. */
  function Usable(q: nat, len: nat): (r: nat)
    requires q > 0
  {
    AndNot(len, q - 1)
  }

  /** Quantum 0x1008 of the kernel is not a power of two; what rounding needs is only that its low bits are clear. */
  predicate Quantum(q: nat, unit: nat)
  {
    q > 0 && (unit == 4 || unit == 8) && Multiple(q, unit)
  }

  lemma LowBit(x: nat, m: nat)
    requires m % 2 == 1
    ensures And(x, m) == 2 * And(x / 2, m / 2) + x % 2
  {
  }

  lemma LowBits4(x: nat, m: nat)
    requires m % 4 == 3
    ensures And(x, m) == 4 * And(x / 4, m / 4) + x % 4
  {
    hide And;
    LowBit(x, m);
    LowBit(x / 2, m / 2);
    assert x / 2 / 2 == x / 4 && m / 2 / 2 == m / 4;
  }

  lemma LowBits8(x: nat, m: nat)
    requires m % 8 == 7
    ensures And(x, m) == 8 * And(x / 8, m / 8) + x % 8
  {
    hide And;
    LowBits4(x, m);
    LowBit(x / 4, m / 4);
    assert x / 4 / 2 == x / 8 && m / 4 / 2 == m / 8;
  }

  predicate Multiple(x: int, unit: nat)
    requires unit == 4 || unit == 8
  {
    if unit == 4 then x % 4 == 0 else x % 8 == 0
  }

  lemma MultipleSum(x: int, y: int, unit: nat)
    requires (unit == 4 || unit == 8) && Multiple(x, unit) && Multiple(y, unit)
    ensures Multiple(x + y, unit) && Multiple(x - y, unit)
  {
    if unit == 4 {
      var a, b := x / 4, y / 4;
      IsMultiple(a + b, unit);
      IsMultiple(a - b, unit);
      assert x + y == 4 * (a + b) && x - y == 4 * (a - b);
    } else {
      var a, b := x / 8, y / 8;
      IsMultiple(a + b, unit);
      IsMultiple(a - b, unit);
      assert x + y == 8 * (a + b) && x - y == 8 * (a - b);
    }
  }

  lemma IsMultiple(a: int, unit: nat)
    requires unit == 4 || unit == 8
    ensures Multiple(if unit == 4 then 4 * a else 8 * a, unit)
  {
  }

  lemma MaskedIsMultiple(x: nat, q: nat, unit: nat)
    requires Quantum(q, unit)
    ensures Multiple(AndNot(x, q - 1), unit) && AndNot(x, q - 1) <= x < AndNot(x, q - 1) + q
  {
    hide And, AndNot;
    AndNotIsMinus(x, q - 1);
    AndBounds(x, q - 1);
    if unit == 4 {
      LowBits4(x, q - 1);
      IsMultiple(x / 4 - And(x / 4, (q - 1) / 4), unit);
      assert AndNot(x, q - 1) == 4 * (x / 4 - And(x / 4, (q - 1) / 4));
    } else {
      LowBits8(x, q - 1);
      IsMultiple(x / 8 - And(x / 8, (q - 1) / 8), unit);
      assert AndNot(x, q - 1) == 8 * (x / 8 - And(x / 8, (q - 1) / 8));
    }
  }

  /** A block is at least as long as the request, no more than a quantum longer, and keeps to the unit. */
  lemma PaddedFits(q: nat, unit: nat, n: nat)
    requires Quantum(q, unit)
    ensures Padded(q, n) >= n + HEADER && Padded(q, n) >= SizeQ(q) + HEADER
    ensures Padded(q, n) < (if n < SizeQ(q) then SizeQ(q) else n) + q + HEADER
    ensures Multiple(Padded(q, n), unit)
  {
    hide AndNot;
    MaskedIsMultiple((if n < SizeQ(q) then SizeQ(q) else n) + (q - 1), q, unit);
  }

  /** In the libs, with quantum 4: the least multiple of four that holds the request and two links, and a header. */
  lemma PaddedInLibs(n: nat)
    ensures var m := if n < 8 then 8 else n; m + 8 <= Padded(4, n) < m + 12 && (Padded(4, n) - 8) % 4 == 0
  {
    PaddedFits(4, 4, n);
  }

  /**
   In the kernel, with quantum 0x1008: the sum of the request and 0x1007 without bits 0, 1, 2 and 12,
   and a header.
   */
  lemma PaddedInKernel(n: nat, j: nat)
    ensures var m := if n < 0x1008 then 0x1008 else n;
            && Padded(0x1008, n) >= 8
            && (Test(Padded(0x1008, n) - 8, j) <==> Test(m + 0x1007, j) && !Test(0x1007, j))
  {
    var m := if n < 0x1008 then 0x1008 else n;
    TestAndNot(m + 0x1007, 0x1007, j);
  }

  lemma UsableFits(q: nat, unit: nat, len: nat)
    requires Quantum(q, unit)
    ensures Usable(q, len) <= len < Usable(q, len) + q
    ensures Multiple(Usable(q, len), unit)
  {
    MaskedIsMultiple(len, q, unit);
  }

  // ---- The invariant ----

  predicate PoolOk(p: Pool, unit: nat)
    requires unit == 4 || unit == 8
  {
    && 0 < p.start && p.start + p.len <= 0x1_0000_0000
    && LINKED + HEADER <= p.len && p.len - HEADER < LIMIT
    && Multiple(p.start, unit) && Multiple(p.len, unit)
  }

  /** A block lies in its pool: the sentinel at the very end, any other block before the sentinel. */
  predicate BlockOk(b: Block, unit: nat)
    requires unit == 4 || unit == 8
  {
    && PoolOk(b.pool, unit) && b.pool.start <= b.addr
    && Multiple(b.addr, unit) && Multiple(b.size, unit)
    && (if b.kind == End then b.size == HEADER && b.addr + b.size == b.pool.start + b.pool.len
        else LINKED <= b.size && b.addr + b.size <= b.pool.start + b.pool.len - HEADER)
  }

  predicate Apart(a: Block, b: Block)
  {
    a.addr + a.size <= b.addr || b.addr + b.size <= a.addr
  }

  predicate Follows(a: Block, b: Block)
  {
    if a.kind == End then b.addr == b.pool.start else b.pool == a.pool && b.addr == a.addr + a.size
  }

  /** The blocks tile their pools exactly, each pool up to its sentinel. */
  ghost predicate Tiled(bs: seq<Block>, unit: nat)
    requires unit == 4 || unit == 8
  {
    && (forall k :: 0 <= k < |bs| ==> BlockOk(bs[k], unit))
    && (forall k, l :: 0 <= k < l < |bs| ==> Apart(bs[k], bs[l]))
    && (forall k :: 0 < k < |bs| ==> Follows(bs[k - 1], bs[k]))
    && (|bs| > 0 ==> bs[0].addr == bs[0].pool.start && bs[|bs| - 1].kind == End)
  }

  /** Two free blocks are never neighbours. */
  ghost predicate Coalesced(bs: seq<Block>)
  {
    forall k :: 0 < k < |bs| ==> !(bs[k - 1].kind == Free && bs[k].kind == Free)
  }

  predicate FreeAt(bs: seq<Block>, a: int)
  {
    exists k :: 0 <= k < |bs| && bs[k].kind == Free && bs[k].addr == a
  }

  predicate Distinct(list: seq<int>)
  {
    forall i, j :: 0 <= i < j < |list| ==> list[i] != list[j]
  }

  /** The list holds exactly the free blocks, once each. */
  ghost predicate Listed(bs: seq<Block>, list: seq<int>)
  {
    Distinct(list) && forall a :: a in list <==> FreeAt(bs, a)
  }

  ghost predicate Inv(h: Heap, unit: nat)
    requires unit == 4 || unit == 8
  {
    Tiled(h.blocks, unit) && Coalesced(h.blocks) && Listed(h.blocks, h.list)
  }

  // ---- The three ways in which the tiling changes ----

  function Retag(bs: seq<Block>, k: nat, kind: Kind): (r: seq<Block>)
    requires k < |bs|
  {
    bs[k := bs[k].(kind := kind)]
  }

  function LowerPart(b: Block, size: int): Block
  {
    b.(size := b.size - size)
  }

  function UpperPart(b: Block, size: int): Block
  {
    b.(addr := b.addr + b.size - size, size := size, kind := Used)
  }

  /** Cut block `k` in two, the second part `size` long. */
  function Split(bs: seq<Block>, k: nat, size: int): (r: seq<Block>)
    requires k < |bs|
    ensures |r| == |bs| + 1 && r[k] == LowerPart(bs[k], size) && r[k + 1] == UpperPart(bs[k], size)
    ensures forall j :: 0 <= j < k ==> r[j] == bs[j]
    ensures forall j :: k + 1 < j < |r| ==> r[j] == bs[j - 1]
  {
    bs[..k] + [LowerPart(bs[k], size), UpperPart(bs[k], size)] + bs[k + 1..]
  }

  function Joined(a: Block, b: Block): Block
  {
    a.(size := a.size + b.size)
  }

  /** Join block `k` with the one that follows it. */
  function Merge(bs: seq<Block>, k: nat): (r: seq<Block>)
    requires k + 1 < |bs|
    ensures |r| == |bs| - 1 && r[k] == Joined(bs[k], bs[k + 1])
    ensures forall j :: 0 <= j < k ==> r[j] == bs[j]
    ensures forall j :: k < j < |r| ==> r[j] == bs[j + 1]
  {
    bs[..k] + [Joined(bs[k], bs[k + 1])] + bs[k + 2..]
  }

  lemma RetagTiled(bs: seq<Block>, k: nat, kind: Kind, unit: nat)
    requires unit == 4 || unit == 8
    requires Tiled(bs, unit) && k < |bs| && bs[k].kind != End && kind != End
    ensures Tiled(Retag(bs, k, kind), unit)
  {
    hide Multiple;
  }

  lemma SplitTiled(bs: seq<Block>, k: nat, size: int, unit: nat)
    requires unit == 4 || unit == 8
    requires Tiled(bs, unit) && k < |bs| && bs[k].kind == Free
    requires LINKED <= size && Multiple(size, unit) && LINKED <= bs[k].size - size
    ensures Tiled(Split(bs, k, size), unit)
  {
    hide Split;
    var r := Split(bs, k, size);
    PartsOk(bs[k], size, unit);
    forall j | 0 <= j < |r| ensures BlockOk(r[j], unit) {
      if j > k + 1 { assert BlockOk(bs[j - 1], unit); }
    }
    hide BlockOk, LowerPart, UpperPart;
    SplitApart(bs, k, size);
    SplitFollows(bs, k, size);
  }

  lemma PartsOk(b: Block, size: int, unit: nat)
    requires unit == 4 || unit == 8
    requires BlockOk(b, unit) && b.kind == Free
    requires LINKED <= size && Multiple(size, unit) && LINKED <= b.size - size
    ensures BlockOk(LowerPart(b, size), unit) && BlockOk(UpperPart(b, size), unit)
  {
    hide Multiple;
    MultipleSum(b.addr, b.size, unit);
    MultipleSum(b.size, size, unit);
    MultipleSum(b.addr + b.size, size, unit);
  }

  lemma SplitApart(bs: seq<Block>, k: nat, size: int)
    requires k < |bs| && 0 <= size <= bs[k].size
    requires forall k, l :: 0 <= k < l < |bs| ==> Apart(bs[k], bs[l])
    ensures forall i, j :: 0 <= i < j < |Split(bs, k, size)| ==> Apart(Split(bs, k, size)[i], Split(bs, k, size)[j])
  {
    hide Split;
    var r := Split(bs, k, size);
    forall i, j | 0 <= i < j < |r| ensures Apart(r[i], r[j]) {
      var i', j' := if i <= k then i else i - 1, if j <= k then j else j - 1;
      if i' < j' { assert Apart(bs[i'], bs[j']); }
    }
  }

  lemma SplitFollows(bs: seq<Block>, k: nat, size: int)
    requires k < |bs| && bs[k].kind != End
    requires forall j :: 0 < j < |bs| ==> Follows(bs[j - 1], bs[j])
    ensures forall j :: 0 < j < |Split(bs, k, size)| ==> Follows(Split(bs, k, size)[j - 1], Split(bs, k, size)[j])
  {
    hide Split;
    var r := Split(bs, k, size);
    forall j | 0 < j < |r| ensures Follows(r[j - 1], r[j]) {
      if j <= k { assert Follows(bs[j - 1], bs[j]); }
      if j > k + 1 { assert Follows(bs[j - 2], bs[j - 1]); }
    }
  }

  lemma MergeTiled(bs: seq<Block>, k: nat, unit: nat)
    requires unit == 4 || unit == 8
    requires Tiled(bs, unit) && k + 1 < |bs| && bs[k].kind != End && bs[k + 1].kind != End
    ensures Tiled(Merge(bs, k), unit)
  {
    hide Merge;
    var r := Merge(bs, k);
    assert Follows(bs[k], bs[k + 1]);
    assert BlockOk(bs[k], unit) && BlockOk(bs[k + 1], unit);
    MultipleSum(bs[k].size, bs[k + 1].size, unit);
    hide Multiple;
    assert forall j :: 0 <= j < |r| ==> BlockOk(r[j], unit);
    MergeApart(bs, k);
    MergeFollows(bs, k);
  }

  lemma MergeApart(bs: seq<Block>, k: nat)
    requires k + 1 < |bs| && bs[k + 1].addr == bs[k].addr + bs[k].size
    requires forall j :: 0 <= j < |bs| ==> bs[j].size > 0
    requires forall k, l :: 0 <= k < l < |bs| ==> Apart(bs[k], bs[l])
    ensures forall i, j :: 0 <= i < j < |Merge(bs, k)| ==> Apart(Merge(bs, k)[i], Merge(bs, k)[j])
  {
    hide Merge;
    var r := Merge(bs, k);
    forall i, j | 0 <= i < j < |r| ensures Apart(r[i], r[j]) {
      var i', j' := if i <= k then i else i + 1, if j <= k then j else j + 1;
      assert Apart(bs[i'], bs[j']);
      if j == k { assert Apart(bs[i], bs[k + 1]); }
      if i == k { assert Apart(bs[k + 1], bs[j + 1]); }
    }
  }

  lemma MergeFollows(bs: seq<Block>, k: nat)
    requires k + 1 < |bs| && bs[k].kind != End && bs[k + 1].kind != End
    requires forall j :: 0 < j < |bs| ==> Follows(bs[j - 1], bs[j])
    ensures forall j :: 0 < j < |Merge(bs, k)| ==> Follows(Merge(bs, k)[j - 1], Merge(bs, k)[j])
  {
    hide Merge;
    var r := Merge(bs, k);
    assert Follows(bs[k], bs[k + 1]);
    forall j | 0 < j < |r| ensures Follows(r[j - 1], r[j]) {
      if j <= k { assert Follows(bs[j - 1], bs[j]); }
      if j > k { assert Follows(bs[j], bs[j + 1]); }
    }
  }

  // ---- The free list ----

  function Without(list: seq<int>, a: int): seq<int>
  {
    if list == [] then [] else if list[0] == a then list[1..] else [list[0]] + Without(list[1..], a)
  }

  lemma {:induction false} WithoutMembers(list: seq<int>, a: int, x: int)
    requires Distinct(list)
    ensures x in Without(list, a) <==> x in list && x != a
  {
    if list != [] {
      assert list == [list[0]] + list[1..];
      if list[0] == a {
        assert a !in list[1..];
      } else {
        assert Distinct(list[1..]);
        WithoutMembers(list[1..], a, x);
      }
    }
  }

  lemma {:induction false} WithoutDistinct(list: seq<int>, a: int)
    requires Distinct(list)
    ensures Distinct(Without(list, a))
  {
    if list != [] && list[0] != a {
      WithoutDistinct(list[1..], a);
      WithoutMembers(list[1..], a, list[0]);
      assert list[0] !in list[1..];
    }
  }

  /** Taking out the element at position `i`. */
  lemma {:induction false} WithoutAt(list: seq<int>, i: nat)
    requires Distinct(list) && i < |list|
    ensures Without(list, list[i]) == list[..i] + list[i + 1..]
  {
    if i > 0 {
      assert list[0] != list[i];
      assert Distinct(list[1..]);
      WithoutAt(list[1..], i - 1);
      assert list[..i] + list[i + 1..] == [list[0]] + (list[1..][..i - 1] + list[1..][i..]);
    }
  }

  lemma DistinctAddresses(bs: seq<Block>, unit: nat, i: nat, j: nat)
    requires unit == 4 || unit == 8
    requires Tiled(bs, unit) && i < |bs| && j < |bs| && i != j
    ensures bs[i].addr != bs[j].addr
  {
    assert BlockOk(bs[i], unit) && BlockOk(bs[j], unit);
    assert i < j ==> Apart(bs[i], bs[j]);
    assert j < i ==> Apart(bs[j], bs[i]);
  }

  predicate UniqueAt(bs: seq<Block>, k: nat)
    requires k < |bs|
  {
    forall j :: 0 <= j < |bs| && j != k ==> bs[j].addr != bs[k].addr
  }

  lemma AddressIsUnique(bs: seq<Block>, unit: nat, k: nat)
    requires unit == 4 || unit == 8
    requires Tiled(bs, unit) && k < |bs|
    ensures UniqueAt(bs, k)
  {
    forall j | 0 <= j < |bs| && j != k ensures bs[j].addr != bs[k].addr {
      DistinctAddresses(bs, unit, j, k);
    }
  }

  // ---- Allocation ----

  predicate Splits(q: nat, b: Block, size: int)
  {
    b.size - size > SizeQ(q) + HEADER
  }

  /** bget takes block `k` for an allocation of `size` bytes: the upper end of it, or all of it. */
  function Carve(h: Heap, q: nat, k: nat, size: int): Heap
    requires k < |h.blocks|
  {
    if Splits(q, h.blocks[k], size) then Heap(Split(h.blocks, k, size), h.list)
    else Heap(Retag(h.blocks, k, Used), Without(h.list, h.blocks[k].addr))
  }

  /** Which block of the new heap the caller gets. */
  function Given(h: Heap, q: nat, k: nat, size: int): nat
    requires k < |h.blocks|
  {
    if Splits(q, h.blocks[k], size) then k + 1 else k
  }

  lemma SplitListed(bs: seq<Block>, k: nat, size: int, list: seq<int>)
    requires k < |bs| && bs[k].kind == Free && Listed(bs, list)
    ensures Listed(Split(bs, k, size), list)
  {
    hide Split;
    var r := Split(bs, k, size);
    forall a ensures FreeAt(r, a) <==> FreeAt(bs, a) {
      if FreeAt(bs, a) {
        var j :| 0 <= j < |bs| && bs[j].kind == Free && bs[j].addr == a;
        assert r[if j <= k then j else j + 1].addr == a;
      }
      if FreeAt(r, a) {
        var j :| 0 <= j < |r| && r[j].kind == Free && r[j].addr == a;
        assert bs[if j <= k then j else j - 1].addr == a;
      }
    }
  }

  lemma TakenListed(bs: seq<Block>, k: nat, list: seq<int>)
    requires k < |bs| && bs[k].kind == Free && UniqueAt(bs, k) && Listed(bs, list)
    ensures Listed(Retag(bs, k, Used), Without(list, bs[k].addr))
  {
    var r, list' := Retag(bs, k, Used), Without(list, bs[k].addr);
    WithoutDistinct(list, bs[k].addr);
    forall a ensures a in list' <==> FreeAt(r, a) {
      WithoutMembers(list, bs[k].addr, a);
      if FreeAt(bs, a) && a != bs[k].addr {
        var j :| 0 <= j < |bs| && bs[j].kind == Free && bs[j].addr == a;
        assert r[j] == bs[j];
      }
      if FreeAt(r, a) {
        var j :| 0 <= j < |r| && r[j].kind == Free && r[j].addr == a;
        assert bs[j] == r[j];
      }
    }
  }

  lemma CarveInv(h: Heap, q: nat, k: nat, size: int, unit: nat)
    requires Quantum(q, unit) && Inv(h, unit) && k < |h.blocks| && h.blocks[k].kind == Free
    requires LINKED <= size <= h.blocks[k].size && Multiple(size, unit)
    ensures Inv(Carve(h, q, k, size), unit)
  {
    var bs := h.blocks;
    if Splits(q, bs[k], size) {
      SplitTiled(bs, k, size, unit);
      SplitListed(bs, k, size, h.list);
      hide Split;
      var r := Split(bs, k, size);
      forall j | 0 < j < |r| ensures !(r[j - 1].kind == Free && r[j].kind == Free) {
        if j <= k { assert !(bs[j - 1].kind == Free && bs[j].kind == Free); }
        if j > k + 2 { assert !(bs[j - 2].kind == Free && bs[j - 1].kind == Free); }
      }
    } else {
      RetagTiled(bs, k, Used, unit);
      AddressIsUnique(bs, unit, k);
      TakenListed(bs, k, h.list);
    }
  }

  // ---- Release ----

  /** brel, first half: block `k` becomes free, or joins the free block before it. */
  function Freed(h: Heap, k: nat): Heap
    requires k < |h.blocks|
  {
    if k > 0 && h.blocks[k - 1].kind == Free then Heap(Merge(h.blocks, k - 1), h.list)
    else Heap(Retag(h.blocks, k, Free), h.list + [h.blocks[k].addr])
  }

  /** Where the freed block is after the first half. */
  function FreedAt(h: Heap, k: nat): nat
    requires k < |h.blocks|
  {
    if k > 0 && h.blocks[k - 1].kind == Free then k - 1 else k
  }

  /** brel, second half: the free block `k` takes in a free block that follows it. */
  function Absorbed(h: Heap, k: nat): Heap
    requires k + 1 < |h.blocks|
  {
    if h.blocks[k + 1].kind == Free then Heap(Merge(h.blocks, k), Without(h.list, h.blocks[k + 1].addr)) else h
  }

  function Release(h: Heap, k: nat): Heap
    requires k + 1 < |h.blocks|
  {
    Absorbed(Freed(h, k), FreedAt(h, k))
  }

  /** Between the two halves only the freed block may have a free neighbour, and only after it. */
  ghost predicate HalfCoalesced(bs: seq<Block>, k: nat)
  {
    forall j :: 0 < j < |bs| && j != k + 1 ==> !(bs[j - 1].kind == Free && bs[j].kind == Free)
  }

  /**
   Joining a used or free block to the free block before it keeps the set of free addresses, but
   for the joined one.
   */
  lemma MergeFreeAt(bs: seq<Block>, k: nat, a: int)
    requires k + 1 < |bs| && bs[k].kind == Free && UniqueAt(bs, k + 1)
    ensures FreeAt(Merge(bs, k), a) <==> FreeAt(bs, a) && a != bs[k + 1].addr
  {
    hide Merge;
    var r := Merge(bs, k);
    if FreeAt(bs, a) && a != bs[k + 1].addr {
      var j :| 0 <= j < |bs| && bs[j].kind == Free && bs[j].addr == a;
      assert r[if j <= k then j else j - 1].addr == a;
    }
    if FreeAt(r, a) {
      var j :| 0 <= j < |r| && r[j].kind == Free && r[j].addr == a;
      var j' := if j <= k then j else j + 1;
      assert bs[j'].addr == a && bs[j'].kind == Free;
    }
  }

  lemma RetagFreeAt(bs: seq<Block>, k: nat, a: int)
    requires k < |bs| && bs[k].kind == Used
    ensures FreeAt(Retag(bs, k, Free), a) <==> FreeAt(bs, a) || a == bs[k].addr
  {
    var r := Retag(bs, k, Free);
    if FreeAt(bs, a) {
      var j :| 0 <= j < |bs| && bs[j].kind == Free && bs[j].addr == a;
      assert r[j] == bs[j];
    }
    if a == bs[k].addr { assert r[k].kind == Free; }
    if FreeAt(r, a) {
      var j :| 0 <= j < |r| && r[j].kind == Free && r[j].addr == a;
      assert j != k ==> bs[j] == r[j];
    }
  }

  lemma FreedHalf(h: Heap, k: nat, unit: nat)
    requires unit == 4 || unit == 8
    requires Inv(h, unit) && k < |h.blocks| && h.blocks[k].kind == Used
    ensures var r, m := Freed(h, k), FreedAt(h, k);
            && Tiled(r.blocks, unit) && Listed(r.blocks, r.list) && HalfCoalesced(r.blocks, m)
            && m + 1 < |r.blocks| && r.blocks[m].kind == Free
  {
    var bs := h.blocks;
    AddressIsUnique(bs, unit, k);
    assert bs[|bs| - 1].kind == End;
    if k > 0 && bs[k - 1].kind == Free {
      MergeTiled(bs, k - 1, unit);
      FreedJoined(h, k);
    } else {
      RetagTiled(bs, k, Free, unit);
      FreedAlone(h, k);
    }
  }

  lemma FreedJoined(h: Heap, k: nat)
    requires 0 < k && k + 1 < |h.blocks| && h.blocks[k].kind == Used && h.blocks[k - 1].kind == Free
    requires UniqueAt(h.blocks, k) && Coalesced(h.blocks) && Listed(h.blocks, h.list)
    ensures Listed(Merge(h.blocks, k - 1), h.list) && HalfCoalesced(Merge(h.blocks, k - 1), k - 1)
  {
    hide Merge;
    var bs, r, m := h.blocks, Merge(h.blocks, k - 1), k - 1;
    assert !FreeAt(bs, bs[k].addr);
    forall a ensures FreeAt(r, a) <==> FreeAt(bs, a) { MergeFreeAt(bs, m, a); }
    forall j | 0 < j < |r| && j != m + 1 ensures !(r[j - 1].kind == Free && r[j].kind == Free) {
      if j <= m { assert !(bs[j - 1].kind == Free && bs[j].kind == Free); }
      else { assert !(bs[j].kind == Free && bs[j + 1].kind == Free); }
    }
  }

  lemma FreedAlone(h: Heap, k: nat)
    requires k < |h.blocks| && h.blocks[k].kind == Used && (k == 0 || h.blocks[k - 1].kind != Free)
    requires UniqueAt(h.blocks, k) && Coalesced(h.blocks) && Listed(h.blocks, h.list)
    ensures Listed(Retag(h.blocks, k, Free), h.list + [h.blocks[k].addr]) && HalfCoalesced(Retag(h.blocks, k, Free), k)
  {
    var bs, r := h.blocks, Retag(h.blocks, k, Free);
    assert !FreeAt(bs, bs[k].addr);
    forall a ensures FreeAt(r, a) <==> FreeAt(bs, a) || a == bs[k].addr { RetagFreeAt(bs, k, a); }
  }

  lemma AbsorbedHalf(h: Heap, k: nat, unit: nat)
    requires unit == 4 || unit == 8
    requires Tiled(h.blocks, unit) && Listed(h.blocks, h.list) && HalfCoalesced(h.blocks, k)
    requires k + 1 < |h.blocks| && h.blocks[k].kind == Free
    ensures Inv(Absorbed(h, k), unit)
  {
    var bs := h.blocks;
    if bs[k + 1].kind == Free {
      var r := Absorbed(h, k);
      MergeTiled(bs, k, unit);
      WithoutDistinct(h.list, bs[k + 1].addr);
      AddressIsUnique(bs, unit, k + 1);
      forall a ensures a in r.list <==> FreeAt(r.blocks, a) {
        MergeFreeAt(bs, k, a);
        WithoutMembers(h.list, bs[k + 1].addr, a);
      }
      hide Merge;
      forall j | 0 < j < |r.blocks| ensures !(r.blocks[j - 1].kind == Free && r.blocks[j].kind == Free) {
        if j <= k { assert !(bs[j - 1].kind == Free && bs[j].kind == Free); }
        else { assert !(bs[j].kind == Free && bs[j + 1].kind == Free); }
      }
    }
  }

  /** brel keeps the heap sound. */
  lemma ReleaseInv(h: Heap, k: nat, unit: nat)
    requires unit == 4 || unit == 8
    requires Inv(h, unit) && k < |h.blocks| && h.blocks[k].kind == Used
    ensures k + 1 < |h.blocks| && Inv(Release(h, k), unit)
  {
    FreedHalf(h, k, unit);
    AbsorbedHalf(Freed(h, k), FreedAt(h, k), unit);
  }

  // ---- Adding a pool ----

  function AddPool(h: Heap, p: Pool): Heap
  {
    Heap(h.blocks + [Block(p, p.start, p.len - HEADER, Free), Block(p, p.start + p.len - HEADER, HEADER, End)],
         h.list + [p.start])
  }

  lemma AddPoolInv(h: Heap, p: Pool, unit: nat)
    requires unit == 4 || unit == 8
    requires Inv(h, unit) && PoolOk(p, unit)
    requires forall k :: 0 <= k < |h.blocks| ==> Apart(h.blocks[k], Block(p, p.start, p.len, Free))
    ensures Inv(AddPool(h, p), unit)
  {
    hide BlockOk, Apart, PoolOk, Listed;
    AddPoolBlocksOk(p, unit);
    AddPoolApart(h, p, unit);
    AddPoolListed(h, p);
  }

  lemma AddPoolBlocksOk(p: Pool, unit: nat)
    requires unit == 4 || unit == 8
    requires PoolOk(p, unit)
    ensures BlockOk(Block(p, p.start, p.len - HEADER, Free), unit)
    ensures BlockOk(Block(p, p.start + p.len - HEADER, HEADER, End), unit)
  {
    assert Multiple(HEADER, unit);
    MultipleSum(p.len, HEADER, unit);
    MultipleSum(p.start, p.len - HEADER, unit);
  }

  lemma AddPoolApart(h: Heap, p: Pool, unit: nat)
    requires unit == 4 || unit == 8
    requires Tiled(h.blocks, unit) && PoolOk(p, unit)
    requires forall k :: 0 <= k < |h.blocks| ==> Apart(h.blocks[k], Block(p, p.start, p.len, Free))
    ensures var r := AddPool(h, p).blocks; forall k, l :: 0 <= k < l < |r| ==> Apart(r[k], r[l])
    ensures forall k :: 0 <= k < |h.blocks| ==> h.blocks[k].addr != p.start
  {
    hide Multiple;
    var bs, r := h.blocks, AddPool(h, p).blocks;
    forall k, l | 0 <= k < l < |r| ensures Apart(r[k], r[l]) {
      if l < |bs| { assert Apart(bs[k], bs[l]); }
      else if k < |bs| { assert Apart(bs[k], Block(p, p.start, p.len, Free)); }
    }
    forall k | 0 <= k < |bs| ensures bs[k].addr != p.start {
      assert BlockOk(bs[k], unit) && Apart(bs[k], Block(p, p.start, p.len, Free));
    }
  }

  lemma AddPoolListed(h: Heap, p: Pool)
    requires Listed(h.blocks, h.list)
    requires forall k :: 0 <= k < |h.blocks| ==> h.blocks[k].addr != p.start
    ensures Listed(AddPool(h, p).blocks, AddPool(h, p).list)
  {
    var bs, r := h.blocks, AddPool(h, p);
    assert !FreeAt(bs, p.start);
    forall a ensures FreeAt(r.blocks, a) <==> FreeAt(bs, a) || a == p.start {
      if FreeAt(bs, a) {
        var j :| 0 <= j < |bs| && bs[j].kind == Free && bs[j].addr == a;
        assert r.blocks[j] == bs[j];
      }
      if FreeAt(r.blocks, a) && a != p.start {
        var j :| 0 <= j < |r.blocks| && r.blocks[j].kind == Free && r.blocks[j].addr == a;
        assert j < |bs| && bs[j] == r.blocks[j];
      }
      assert r.blocks[|bs|].kind == Free;
    }
  }
}
