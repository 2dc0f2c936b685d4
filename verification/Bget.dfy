/**
 BGET itself: bpool, bget, brel and what is built on them, as loads and stores in
 flat memory (kernel/bget/bget.c; libs/bget/bget.c is the same text with another
 quantum and the first-fit policy).

 `heap` says what the memory stands for. Every method is tied to a step of that
 heap, and the memory is proved to keep representing it. The assertions of the
 source are assertions here.
 */
module Bget {
  import opened Values
  import opened BgetHeap
  import opened BgetRuns
  import opened BgetMemory

  // ---- What the list scan sees ----

  function SizeField(m: Memory, b: int): int
  {
    Signed(Word(m, b + 4))
  }

  /** The block of a list node, and what its header says. */
  lemma NodeBlock(m: Memory, h: Heap, head: int, unit: nat, i: nat) returns (k: nat)
    requires unit == 4 || unit == 8
    requires Inv(h, unit) && Represents(m, head, h) && i < |h.list|
    ensures k + 1 < |h.blocks| && h.blocks[k].kind == Free && h.blocks[k].addr == h.list[i]
    ensures SizeField(m, h.list[i]) == h.blocks[k].size && h.list[i] != head
    ensures LINKED <= h.blocks[k].size < LIMIT
  {
    hide Word, Peek, Tiled, LinksIn;
    k := BlockAt(h, i);
    UsedRoom(h, unit, k);
    LastIsEnd(h.blocks, unit);
    assert HeaderIn(m, h.blocks, k, -1);
  }

  /** Following a forward link. */
  lemma NextNode(m: Memory, head: int, list: seq<int>, i: nat)
    requires LinksIn(m, head, list) && i <= |list|
    ensures Word(m, Path(head, list)[i] + 8) == Path(head, list)[i + 1]
  {
    assert Linked(m, Path(head, list)[i], Path(head, list)[i + 1]);
  }

  /** The smallest block that fits among the first `n` of the list, the first of its size; -1 for none. */
  ghost predicate BestOf(m: Memory, list: seq<int>, size: int, n: nat, i: int)
    requires n <= |list|
  {
    if i == -1 then forall j :: 0 <= j < n ==> SizeField(m, list[j]) < size
    else && 0 <= i < n && SizeField(m, list[i]) >= size
         && forall j :: 0 <= j < n && SizeField(m, list[j]) >= size ==>
              SizeField(m, list[i]) <= SizeField(m, list[j]) &&
                (j < i ==> SizeField(m, list[i]) < SizeField(m, list[j]))
  }

  ghost predicate NoneOf(m: Memory, list: seq<int>, size: int, n: nat)
    requires n <= |list|
  {
    forall j :: 0 <= j < n ==> SizeField(m, list[j]) < size
  }

  /** Every free block is somewhere in the list. */
  lemma PlaceOf(m: Memory, h: Heap, head: int, unit: nat, k: nat) returns (i: nat)
    requires unit == 4 || unit == 8
    requires Inv(h, unit) && Represents(m, head, h) && k < |h.blocks| && h.blocks[k].kind == Free
    ensures i < |h.list| && h.list[i] == h.blocks[k].addr && SizeField(m, h.list[i]) == h.blocks[k].size
  {
    assert FreeAt(h.blocks, h.blocks[k].addr);
    i :| 0 <= i < |h.list| && h.list[i] == h.blocks[k].addr;
    var l := NodeBlock(m, h, head, unit, i);
    if l != k { DistinctAddresses(h.blocks, unit, k, l); }
  }

  lemma BestIsChosen(m: Memory, h: Heap, head: int, unit: nat, size: int, i: nat) returns (k: nat)
    requires unit == 4 || unit == 8
    requires Inv(h, unit) && Represents(m, head, h) && i < |h.list| && BestOf(m, h.list, size, |h.list|, i)
    ensures ChosenAt(h, true, size, k, i) && k + 1 < |h.blocks|
  {
    hide Word, Peek, Tiled, Coalesced, HeadersBut, LinksIn, SizeField;
    k := NodeBlock(m, h, head, unit, i);
    forall j | 0 <= j < |h.blocks| && j != k && Fits(h.blocks[j], size)
      ensures h.blocks[k].size <= h.blocks[j].size
      ensures h.blocks[j].addr in h.list[..i] ==> h.blocks[k].size < h.blocks[j].size
    {
      var l := PlaceOf(m, h, head, unit, j);
      InFront(h.list, l, i);
    }
  }

  lemma InFront(list: seq<int>, l: nat, i: nat)
    requires Distinct(list) && l < |list| && i <= |list|
    ensures list[l] in list[..i] <==> l < i
  {
  }

  lemma FirstIsChosen(m: Memory, h: Heap, head: int, unit: nat, size: int, i: nat) returns (k: nat)
    requires unit == 4 || unit == 8
    requires Inv(h, unit) && Represents(m, head, h) && i < |h.list|
    requires NoneOf(m, h.list, size, i) && SizeField(m, h.list[i]) >= size
    ensures ChosenAt(h, false, size, k, i) && k + 1 < |h.blocks|
  {
    hide Word, Peek, Tiled, Coalesced, HeadersBut, LinksIn, SizeField;
    k := NodeBlock(m, h, head, unit, i);
    forall j | 0 <= j < |h.blocks| && j != k && Fits(h.blocks[j], size) ensures h.blocks[j].addr !in h.list[..i] {
      var l := PlaceOf(m, h, head, unit, j);
      InFront(h.list, l, i);
    }
  }

  lemma NoneFits(m: Memory, h: Heap, head: int, unit: nat, size: int)
    requires unit == 4 || unit == 8
    requires Inv(h, unit) && Represents(m, head, h) && NoneOf(m, h.list, size, |h.list|)
    ensures !SomeFits(h, size)
  {
    forall k | 0 <= k < |h.blocks| ensures !Fits(h.blocks[k], size) {
      if h.blocks[k].kind == Free { var i := PlaceOf(m, h, head, unit, k); }
    }
  }

  /** The header words of a free block and of the block after it. */
  lemma BlockFields(m: Memory, h: Heap, head: int, unit: nat, k: nat)
    requires unit == 4 || unit == 8
    requires Inv(h, unit) && Represents(m, head, h) && k + 1 < |h.blocks| && h.blocks[k].kind == Free
    ensures LINKED <= h.blocks[k].size < LIMIT && SizeField(m, h.blocks[k].addr) == h.blocks[k].size
    ensures Word(m, h.blocks[k].addr + h.blocks[k].size) == h.blocks[k].size
  {
    hide Word, Peek, Tiled, LinksIn;
    UsedRoom(h, unit, k);
    NextAddress(h.blocks, unit, k);
    assert HeaderIn(m, h.blocks, k, -1) && HeaderIn(m, h.blocks, k + 1, -1);
  }

  lemma SplitParts(bs: seq<Block>, k: nat, size: int)
    requires k < |bs|
    ensures Split(bs, k, size)[k + 1].addr == bs[k].addr + bs[k].size - size && Split(bs, k, size)[k + 1].size == size
  {
  }

  /** The neighbours of a node link back to it. */
  lemma NodeLinksIn(m: Memory, head: int, list: seq<int>, i: nat)
    requires LinksIn(m, head, list) && i < |list|
    ensures Word(m, Word(m, list[i] + 12) + 8) == list[i] && Word(m, Word(m, list[i] + 8) + 12) == list[i]
  {
    hide Word, Peek;
    var c := Path(head, list);
    assert Linked(m, c[i], c[i + 1]) && Linked(m, c[i + 1], c[i + 2]);
  }

  lemma HeadLinksIn(m: Memory, head: int, list: seq<int>)
    requires LinksIn(m, head, list)
    ensures Word(m, Word(m, head + 12) + 8) == head && Word(m, Word(m, head + 8) + 12) == head
  {
    hide Word, Peek;
    var c := Path(head, list);
    assert Linked(m, c[0], c[1]) && Linked(m, c[|list|], c[|list| + 1]);
  }

  lemma AddressPositive(h: Heap, unit: nat, k: nat)
    requires unit == 4 || unit == 8
    requires Inv(h, unit) && k < |h.blocks|
    ensures h.blocks[k].addr > 0
  {
    assert BlockOk(h.blocks[k], unit);
  }

  /** The header words of a block in use, of the block before it and of the block after it. */
  lemma UsedFields(m: Memory, h: Heap, head: int, unit: nat, k: nat)
    requires unit == 4 || unit == 8
    requires Inv(h, unit) && Represents(m, head, h) && k < |h.blocks| && h.blocks[k].kind == Used
    ensures k + 1 < |h.blocks| && LINKED <= h.blocks[k].size < LIMIT
    ensures SizeField(m, h.blocks[k].addr) == -h.blocks[k].size && Word(m, h.blocks[k].addr) == PrevFree(h.blocks, k)
    ensures Word(m, h.blocks[k].addr + h.blocks[k].size) == 0
    ensures k > 0 && h.blocks[k - 1].kind == Free ==>
              h.blocks[k - 1].addr == h.blocks[k].addr - h.blocks[k - 1].size &&
              SizeField(m, h.blocks[k - 1].addr) == h.blocks[k - 1].size && 0 < h.blocks[k - 1].size
  {
    hide Word, Peek, Tiled, LinksIn;
    UsedRoom(h, unit, k);
    LastIsEnd(h.blocks, unit);
    NextAddress(h.blocks, unit, k);
    assert HeaderIn(m, h.blocks, k, -1) && HeaderIn(m, h.blocks, k + 1, -1);
    if k > 0 && h.blocks[k - 1].kind == Free {
      PrevAddress(h.blocks, unit, k);
      UsedRoom(h, unit, k - 1);
      assert HeaderIn(m, h.blocks, k - 1, -1);
    }
  }

  lemma FreeField(m: Memory, h: Heap, unit: nat, k: nat)
    requires unit == 4 || unit == 8
    requires Tiled(h.blocks, unit) && HeadersBut(m, h.blocks, k + 1) && k < |h.blocks| && h.blocks[k].kind == Free
    ensures SizeField(m, h.blocks[k].addr) == h.blocks[k].size
  {
    hide Word, Peek, Tiled;
    UsedRoom(h, unit, k);
    assert HeaderIn(m, h.blocks, k, k + 1);
  }

  lemma HalfFields(m: Memory, h: Heap, unit: nat, k: nat)
    requires unit == 4 || unit == 8
    requires Tiled(h.blocks, unit) && HeadersBut(m, h.blocks, k + 1) && k + 1 < |h.blocks| && h.blocks[k].kind == Free
    ensures SizeField(m, h.blocks[k].addr) == h.blocks[k].size
    ensures h.blocks[k + 1].addr == h.blocks[k].addr + h.blocks[k].size
    ensures h.blocks[k + 1].kind == Free <==> SizeField(m, h.blocks[k + 1].addr) > 0
    ensures h.blocks[k + 1].kind == Free ==> SizeField(m, h.blocks[k + 1].addr) == h.blocks[k + 1].size
  {
    hide Word, Peek, Tiled;
    FreeField(m, h, unit, k);
    NextAddress(h.blocks, unit, k);
    assert HeaderIn(m, h.blocks, k + 1, k + 1);
    if h.blocks[k + 1].kind != End { UsedRoom(h, unit, k + 1); }
  }

  lemma NextPlace(h: Heap, k: nat) returns (i: nat)
    requires Listed(h.blocks, h.list) && k + 1 < |h.blocks| && h.blocks[k + 1].kind == Free
    ensures i < |h.list| && h.list[i] == h.blocks[k + 1].addr
  {
    assert FreeAt(h.blocks, h.blocks[k + 1].addr);
    i :| 0 <= i < |h.list| && h.list[i] == h.blocks[k + 1].addr;
  }

  lemma UnlinkedSize(m: Memory, h: Heap, head: int, unit: nat, k: nat, i: nat)
    requires unit == 4 || unit == 8
    requires Tiled(h.blocks, unit) && Listed(h.blocks, h.list) && HeadApart(head, h.blocks)
    requires HeadersBut(m, h.blocks, k + 1) && LinksIn(m, head, h.list) && i < |h.list| && k < |h.blocks|
    requires h.blocks[k].kind == Free
    ensures SizeField(Unlink(m, h.list[i]), h.blocks[k].addr) == h.blocks[k].size
  {
    UnlinkHeaders(m, h, head, unit, i, k + 1);
    FreeField(Unlink(m, h.list[i]), h, unit, k);
  }

  lemma StillNotLast(h: Heap, unit: nat, k: nat)
    requires unit == 4 || unit == 8
    requires Tiled(h.blocks, unit) && k + 1 < |h.blocks| && h.blocks[k].kind == Free
    ensures var r := Absorbed(h, k).blocks; k + 1 < |r| && r[k].kind == Free && r[k].addr == h.blocks[k].addr
  {
    LastIsEnd(h.blocks, unit);
  }

  lemma AbsorbedPrivate(h: Heap, head: int, unit: nat, k: nat, x: int)
    requires unit == 4 || unit == 8
    requires Tiled(h.blocks, unit) && k + 1 < |h.blocks| && h.blocks[k].kind == Free
    requires !Private(Absorbed(h, k), head, x)
    ensures !Private(h, head, x)
  {
    if h.blocks[k + 1].kind == Free { MergePrivate(h, head, unit, k, x); }
  }

  /** Memory stands for the heap as long as the allocator's own bytes are left alone. */
  lemma RepresentsKept(m: Memory, m': Memory, h: Heap, head: int, unit: nat)
    requires unit == 4 || unit == 8
    requires Inv(h, unit) && Represents(m, head, h)
    requires forall x :: Private(h, head, x) ==> Peek(m', x) == Peek(m, x)
    ensures Represents(m', head, h)
  {
    hide Word, Peek, Tiled, Coalesced, Listed, InLinks, Private;
    forall x | InLinks(head, h.list, x) ensures Peek(m', x) == Peek(m, x) { LinksArePrivate(h, head, unit, x); }
    LinksKept(m, m', head, h.list);
    forall k, x | 0 <= k < |h.blocks| && h.blocks[k].addr <= x < h.blocks[k].addr + HEADER
      ensures Peek(m', x) == Peek(m, x)
    {
      if !Private(h, head, x) { PrivateHeader(h, head, unit, k, x); }
    }
    HeadersKept(m, m', h.blocks, -1);
  }

  lemma LiveBytes(h: Heap, head: int, unit: nat, addr: int, size: int, x: int, m: Memory)
    requires unit == 4 || unit == 8
    requires Inv(h, unit) && Represents(m, head, h) && Live(h, addr, size) && addr + HEADER <= x < addr + size
    ensures !Private(h, head, x)
  {
    var k :| 0 <= k < |h.blocks| && h.blocks[k].kind == Used && h.blocks[k].addr == addr && h.blocks[k].size == size;
    UserBytes(h, head, unit, k, x);
  }

  lemma LiveField(m: Memory, h: Heap, head: int, unit: nat, addr: int, size: int)
    requires unit == 4 || unit == 8
    requires Inv(h, unit) && Represents(m, head, h) && Live(h, addr, size)
    ensures SizeField(m, addr) == -size && LINKED <= size
    ensures forall n :: Live(h, addr, n) ==> n == size
  {
    var k :| 0 <= k < |h.blocks| && h.blocks[k].kind == Used && h.blocks[k].addr == addr && h.blocks[k].size == size;
    UsedFields(m, h, head, unit, k);
    AddressIsUnique(h.blocks, unit, k);
  }

  /** The bytes a program may use through `p`. */
  predicate InBuffer(h: Heap, p: int, x: int)
  {
    exists k :: && 0 <= k < |h.blocks| && h.blocks[k].kind == Used
                && h.blocks[k].addr + HEADER == p <= x < h.blocks[k].addr + h.blocks[k].size
  }

  lemma BufferIsLive(h: Heap, p: int, x: int) returns (size: int)
    requires InBuffer(h, p, x)
    ensures Live(h, p - HEADER, size) && p <= x < p - HEADER + size
  {
    var k :| 0 <= k < |h.blocks| && h.blocks[k].kind == Used &&
      h.blocks[k].addr + HEADER == p <= x < h.blocks[k].addr + h.blocks[k].size;
    size := h.blocks[k].size;
  }

  /** The buffer bget gives is cut from bytes that were free, so from no live buffer. */
  lemma GotFree(q: nat, unit: nat, best: bool, h: Heap, head: int, n: nat, p: int, h': Heap, size: int, x: int)
    requires Quantum(q, unit) && Inv(h, unit) && GetStep(q, best, h, n, p, h') && p != 0 && Inv(h', unit)
    requires Live(h', p - HEADER, size) && p - HEADER <= x < p - HEADER + size
    ensures Private(h, head, x)
  {
    hide Padded, Tiled, Coalesced, Listed, Split, Without;
    var k :| 0 <= k < |h.blocks| && Chosen(h, best, Padded(q, n), k)
      && h' == Carve(h, q, k, Padded(q, n)) && p == h'.blocks[Given(h, q, k, Padded(q, n))].addr + HEADER;
    var g := Given(h, q, k, Padded(q, n));
    AddressIsUnique(h'.blocks, unit, g);
    assert h'.blocks[g].size == size;
    PaddedFits(q, unit, n);
    GivenInside(h, q, k, Padded(q, n));
    assert InPrivate(h.blocks[k], x);
  }

  lemma GivenInside(h: Heap, q: nat, k: nat, size: int)
    requires k < |h.blocks| && size <= h.blocks[k].size
    ensures var g := Carve(h, q, k, size).blocks[Given(h, q, k, size)];
            h.blocks[k].addr <= g.addr && g.addr + g.size == h.blocks[k].addr + h.blocks[k].size
  {
  }

  /** A byte after `n` bytes were copied from `src` to `dst`. */
  function CopiedByte(m: Memory, dst: int, src: int, n: int, x: int): Byte
  {
    if dst <= x < dst + n then Peek(m, src + (x - dst)) else Peek(m, x)
  }

  lemma CopiedOne(m0: Memory, m: Memory, m': Memory, dst: int, src: int, i: int, n: int)
    requires forall y :: Peek(m, y) == CopiedByte(m0, dst, src, i, y)
    requires 0 <= i && n == i + 1 && (src + i < dst || dst + i <= src) && m' == m[dst + i := Peek(m, src + i)]
    ensures forall y :: Peek(m', y) == CopiedByte(m0, dst, src, n, y)
  {
    forall y ensures Peek(m', y) == CopiedByte(m0, dst, src, n, y) {
      assert Peek(m', y) == if y == dst + i then Peek(m, src + i) else Peek(m, y);
      assert Peek(m, y) == CopiedByte(m0, dst, src, i, y) && Peek(m, src + i) == CopiedByte(m0, dst, src, i, src + i);
    }
  }

  /** What bgetr may do. */
  ghost predicate ResizeStep(q: nat, best: bool, h: Heap, buf: int, n: nat, p: int, h': Heap)
    requires q > 0
  {
    exists h1 :: GetStep(q, best, h, n, p, h1) && if p == 0 || buf == 0 then h' == h1 else RelStep(h1, buf, h')
  }

  lemma GetNull(q: nat, best: bool, h: Heap, n: nat, p: int, h': Heap)
    requires q > 0 && GetStep(q, best, h, n, p, h')
    ensures ResizeStep(q, best, h, 0, n, p, h')
    ensures forall buf :: p == 0 ==> ResizeStep(q, best, h, buf, n, p, h')
  {
  }

  /** `p` is the address of a live buffer. */
  predicate Held(h: Heap, p: int)
  {
    exists k :: 0 <= k < |h.blocks| && h.blocks[k].kind == Used && h.blocks[k].addr + HEADER == p
  }

  lemma HeldIsLive(h: Heap, p: int) returns (size: int)
    requires Held(h, p)
    ensures Live(h, p - HEADER, size)
  {
    var k :| 0 <= k < |h.blocks| && h.blocks[k].kind == Used && h.blocks[k].addr + HEADER == p;
    size := h.blocks[k].size;
  }

  lemma LiveIsHeld(h: Heap, p: int, size: int)
    requires Live(h, p - HEADER, size)
    ensures Held(h, p)
  {
    var k :| 0 <= k < |h.blocks| && h.blocks[k].kind == Used && h.blocks[k].addr == p - HEADER &&
      h.blocks[k].size == size;
    assert h.blocks[k].addr + HEADER == p;
  }

  lemma GotElsewhere(
      q: nat, unit: nat, best: bool, h: Heap, m: Memory, head: int, n: nat, p: int, h': Heap, got: int, buf: int,
      size: int)
    requires Quantum(q, unit) && Inv(h, unit) && GetStep(q, best, h, n, p, h') && p != 0 && Inv(h', unit)
    requires Represents(m, head, h)
    requires Live(h', p - HEADER, got) && got >= LINKED && Live(h, buf - HEADER, size) && size >= LINKED
    ensures p != buf
  {
    if p == buf {
      GotFree(q, unit, best, h, head, n, p, h', got, p);
      LiveBytes(h, head, unit, buf - HEADER, size, p, m);
      assert false;
    }
  }

  function ListSum(m: Memory, list: seq<int>): int
  {
    if list == [] then 0 else ListSum(m, list[..|list| - 1]) + SizeField(m, list[|list| - 1])
  }

  lemma {:induction false} ListSumConcat(m: Memory, a: seq<int>, b: seq<int>)
    ensures ListSum(m, a + b) == ListSum(m, a) + ListSum(m, b)
    decreases |b|
  {
    if b == [] {
      assert a + b == a;
    } else {
      assert (a + b)[..|a + b| - 1] == a + b[..|b| - 1];
      ListSumConcat(m, a, b[..|b| - 1]);
    }
  }

  /** Adding up along the list is adding up the free blocks. */
  lemma {:induction false} SumAlongList(m: Memory, bs: seq<Block>, list: seq<int>)
    requires Listed(bs, list)
    requires forall i, j :: 0 <= i < j < |bs| ==> bs[i].addr != bs[j].addr
    requires forall k :: 0 <= k < |bs| && bs[k].kind == Free ==> SizeField(m, bs[k].addr) == bs[k].size
    ensures ListSum(m, list) == Sum(bs, {Free})
    decreases |bs|
  {
    if bs == [] {
      assert forall a :: !FreeAt(bs, a);
      FirstIsMember(list);
    } else {
      var n := |bs| - 1;
      var list' := if bs[n].kind == Free then Without(list, bs[n].addr) else list;
      WithoutLast(bs, list);
      hide Listed;
      SumAlongList(m, bs[..n], list');
      if bs[n].kind == Free { ListSumWithout(m, list, bs[n].addr); }
    }
  }

  lemma FirstIsMember(list: seq<int>)
    ensures |list| > 0 ==> list[0] in list
  {
  }

  lemma WithoutLast(bs: seq<Block>, list: seq<int>)
    requires Listed(bs, list) && |bs| > 0
    requires forall i, j :: 0 <= i < j < |bs| ==> bs[i].addr != bs[j].addr
    ensures var n := |bs| - 1; Listed(bs[..n], if bs[n].kind == Free then Without(list, bs[n].addr) else list)
    ensures bs[|bs| - 1].kind == Free ==> bs[|bs| - 1].addr in list && Distinct(list)
  {
    var n := |bs| - 1;
    var list' := if bs[n].kind == Free then Without(list, bs[n].addr) else list;
    assert bs[n].kind == Free ==> FreeAt(bs, bs[n].addr);
    WithoutDistinct(list, bs[n].addr);
    forall a ensures a in list' <==> FreeAt(bs[..n], a) {
      WithoutMembers(list, bs[n].addr, a);
      if FreeAt(bs[..n], a) {
        var k :| 0 <= k < n && bs[..n][k].kind == Free && bs[..n][k].addr == a;
        assert bs[k].kind == Free;
      }
      if FreeAt(bs, a) && (bs[n].kind != Free || a != bs[n].addr) {
        var k :| 0 <= k < |bs| && bs[k].kind == Free && bs[k].addr == a;
        assert bs[..n][k].kind == Free;
      }
    }
  }

  lemma ListSumWithout(m: Memory, list: seq<int>, a: int)
    requires Distinct(list) && a in list
    ensures ListSum(m, list) == ListSum(m, Without(list, a)) + SizeField(m, a)
  {
    hide Word, Peek, SizeField, Without;
    var i :| 0 <= i < |list| && list[i] == a;
    WithoutAt(list, i);
    ListSumConcat(m, list[..i], list[i + 1..]);
    ListSumConcat(m, list[..i] + [a], list[i + 1..]);
    ListSumConcat(m, list[..i], [a]);
    assert list == list[..i] + [a] + list[i + 1..];
    assert [a][..0] == [];
  }

  lemma FreeSum(m: Memory, h: Heap, head: int, unit: nat)
    requires unit == 4 || unit == 8
    requires Inv(h, unit) && Represents(m, head, h)
    ensures ListSum(m, h.list) == Sum(h.blocks, {Free})
  {
    hide Word, Peek, Tiled, Sum, ListSum, SizeField, LinksIn, HeadersBut, Listed;
    forall i, j | 0 <= i < j < |h.blocks| ensures h.blocks[i].addr != h.blocks[j].addr {
      DistinctAddresses(h.blocks, unit, i, j);
    }
    forall k | 0 <= k < |h.blocks| && h.blocks[k].kind == Free
      ensures SizeField(m, h.blocks[k].addr) == h.blocks[k].size
    {
      var i := PlaceOf(m, h, head, unit, k);
    }
    SumAlongList(m, h.blocks, h.list);
  }

  /** What a size field tells about its block. */
  lemma AnyField(m: Memory, h: Heap, head: int, unit: nat, k: nat)
    requires unit == 4 || unit == 8
    requires Inv(h, unit) && Represents(m, head, h) && k < |h.blocks|
    ensures h.blocks[k].kind == End <==> SizeField(m, h.blocks[k].addr) == -0x8000_0000
    ensures h.blocks[k].kind == Free ==> SizeField(m, h.blocks[k].addr) == h.blocks[k].size > 0
    ensures h.blocks[k].kind == Used ==> SizeField(m, h.blocks[k].addr) == -h.blocks[k].size < 0
  {
    hide Word, Peek, Tiled, LinksIn;
    assert HeaderIn(m, h.blocks, k, -1);
    if h.blocks[k].kind != End { UsedRoom(h, unit, k); }
  }

  /** The block behind a free block that follows the freed one says so. */
  lemma FieldBehind(m: Memory, h: Heap, unit: nat, k: nat)
    requires unit == 4 || unit == 8
    requires Tiled(h.blocks, unit) && HeadersBut(m, h.blocks, k + 1) && k + 1 < |h.blocks|
    requires h.blocks[k + 1].kind == Free
    ensures Word(m, h.blocks[k + 1].addr + h.blocks[k + 1].size) == h.blocks[k + 1].size
  {
    hide Word, Peek, Tiled;
    LastIsEnd(h.blocks, unit);
    NextAddress(h.blocks, unit, k + 1);
    assert HeaderIn(m, h.blocks, k + 2, k + 1);
  }

  /** Behind a free block there is none that is free. */
  lemma InUseBehind(m: Memory, h: Heap, unit: nat, k: nat)
    requires unit == 4 || unit == 8
    requires Inv(h, unit) && HeadersBut(m, h.blocks, k + 1) && k + 1 < |h.blocks| && h.blocks[k].kind == Free
    ensures SizeField(m, h.blocks[k + 1].addr) < 0
  {
    hide Word, Peek, Tiled, Listed;
    assert h.blocks[k + 1].kind != Free;
    assert HeaderIn(m, h.blocks, k + 1, k + 1);
    if h.blocks[k + 1].kind == Used { UsedRoom(h, unit, k + 1); }
  }

  /** Clearing the first word of a new region leaves the links of the head alone. */
  lemma PoolHeadLinks(m: Memory, h: Heap, head: int, unit: nat, p: Pool)
    requires unit == 4 || unit == 8
    requires Inv(h, unit) && Represents(m, head, h) && PoolOk(p, unit) && RegionFree(h, head, p)
    ensures var m' := SetWord(m, p.start, 0);
            Word(m', Word(m', head + 12) + 8) == head && Word(m', Word(m', head + 8) + 12) == head
  {
    hide Word, SetWord, Peek, Tiled, Listed, Coalesced, InLinks, RegionFree, HeadersBut;
    var m' := SetWord(m, p.start, 0);
    Stored(m, p.start, 0);
    forall x | InLinks(head, h.list, x) ensures Peek(m', x) == Peek(m, x) {
      if InRegion(p, x) { RegionNotLinks(h, head, unit, p, x); }
    }
    LinksKept(m, m', head, h.list);
    HeadLinksIn(m', head, h.list);
  }

  lemma UsedNotNegative(h: Heap, unit: nat)
    requires unit == 4 || unit == 8
    requires Inv(h, unit)
    ensures Sum(h.blocks, {Used}) >= 0
  {
    hide Sum;
    forall k | 0 <= k < |h.blocks| ensures h.blocks[k].size >= 0 { assert BlockOk(h.blocks[k], unit); }
    SumNotNegative(h.blocks, {Used});
  }

  class Allocator {
    const head: int
    const quantum: nat
    const best: bool
    ghost const unit: nat

    var mem: Memory
    var totalloc: int
    var numget: int
    var numrel: int
    ghost var heap: Heap

    ghost predicate Valid()
      reads this
    {
      && Quantum(quantum, unit) && Inv(heap, unit) && Represents(mem, head, heap)
      && totalloc == Sum(heap.blocks, {Used})
    }

    /** The scan of the best-fit policy. */
    method FindBest(size: int) returns (b: int, ghost i: int)
      requires Valid()
      ensures BestOf(mem, heap.list, size, |heap.list|, i) && -1 <= i < |heap.list|
      ensures b == if i == -1 then head else heap.list[i]
    {
      hide Word, Peek, Tiled, Coalesced, Listed, HeadersBut, LinksIn, SizeField, Sum;
      i := -1;
      b := head;
      ghost var n: nat := 0;
      NextNode(mem, head, heap.list, 0);
      var c: int := Word(mem, head + 8);
      while c != head
        invariant n <= |heap.list| && c == Path(head, heap.list)[n + 1]
        invariant BestOf(mem, heap.list, size, n, i) && -1 <= i < |heap.list|
        invariant b == if i == -1 then head else heap.list[i]
        decreases |heap.list| - n
      {
        if i != -1 { ghost var l := NodeBlock(mem, heap, head, unit, i); }
        if SizeField(mem, c) >= size {
          if b == head || SizeField(mem, c) < SizeField(mem, b) {
            b, i := c, n;
          }
        }
        NextNode(mem, head, heap.list, n + 1);
        c := Word(mem, c + 8);
        n := n + 1;
      }
      if n < |heap.list| { ghost var l := NodeBlock(mem, heap, head, unit, n); }
    }

    /** Cutting the upper end off the chosen block, or taking all of it. */
    method Give(b: int, size: int, ghost k: nat, ghost i: nat) returns (p: int)
      requires Valid() && k + 1 < |heap.blocks| && i < |heap.list| && heap.list[i] == heap.blocks[k].addr == b
      requires Fits(heap.blocks[k], size) && LINKED <= size && Multiple(size, unit)
      modifies this
      ensures Valid() && heap == Carve(old(heap), quantum, k, size)
      ensures p == heap.blocks[Given(old(heap), quantum, k, size)].addr + HEADER && p > 0
      ensures forall x :: !Private(old(heap), head, x) ==> Peek(mem, x) == Peek(old(mem), x)
      ensures numget == old(numget) + 1 && numrel == old(numrel)
    {
      hide Word, SetWord, Peek, Tiled, Coalesced, Listed, LinksIn, Sum, Split, Unlink, Private, Without;
      BlockFields(mem, heap, head, unit, k);
      CarveInv(heap, quantum, k, size, unit);
      CarveSums(heap, quantum, k, size);
      var bsize := SizeField(mem, b);
      if bsize - size > SizeQ(quantum) + HEADER {
        SplitRepresents(mem, heap, head, unit, k, size);
        SplitParts(heap.blocks, k, size);
        var ba := b + (bsize - size);
        var bn := ba + size;
        assert Word(mem, bn) == bsize;
        ghost var m0 := mem;
        mem := SetWord(mem, b + 4, bsize - size);
        mem := SetWord(mem, ba, bsize - size);
        mem := SetWord(mem, ba + 4, 0x1_0000_0000 - size);
        mem := SetWord(mem, bn, 0);
        assert mem == SplitMem(m0, b, bsize - size, size);
        totalloc := totalloc + size;
        numget := numget + 1;
        p := ba + HEADER;
      } else {
        TakeRepresents(mem, heap, head, unit, k, i);
        NodeLinksIn(mem, head, heap.list, i);
        var ba := b + bsize;
        assert Word(mem, ba) == bsize;
        assert Word(mem, Word(mem, b + 12) + 8) == b;
        assert Word(mem, Word(mem, b + 8) + 12) == b;
        mem := Unlink(mem, b);
        totalloc := totalloc + bsize;
        numget := numget + 1;
        mem := SetWord(mem, b + 4, 0x1_0000_0000 - bsize);
        mem := SetWord(mem, ba, 0);
        p := b + HEADER;
      }
      AddressPositive(heap, unit, k);
      heap := Carve(heap, quantum, k, size);
    }

    /** bget. 0 means that no free block is large enough. */
    method Get(requested: nat) returns (p: int)
      requires Valid() && 0 < requested && Padded(quantum, requested) < LIMIT
      modifies this
      ensures Valid() && GetStep(quantum, best, old(heap), requested, p, heap)
      ensures p != 0 ==> GotBlock(quantum, best, old(heap), requested, p, heap)
      ensures forall x :: !Private(old(heap), head, x) ==> Peek(mem, x) == Peek(old(mem), x)
      ensures p == 0 ==> mem == old(mem)
      ensures numget == old(numget) + (if p == 0 then 0 else 1) && numrel == old(numrel)
    {
      hide Word, SetWord, Peek, Tiled, Coalesced, Listed, LinksIn, HeadersBut, Sum, Split, Private, Without, Padded,
           SizeField, Carve;
      var size := Padded(quantum, requested);
      PaddedFits(quantum, unit, requested);
      NextNode(mem, head, heap.list, 0);
      ghost var i: nat := 0;
      var b: int := Word(mem, head + 8);
      if best {
        ghost var j;
        b, j := FindBest(size);
        i := if j == -1 then |heap.list| else j;
      }
      while b != head
        invariant i <= |heap.list| && b == Path(head, heap.list)[i + 1]
        invariant Valid() && mem == old(mem) && heap == old(heap) && numget == old(numget) && numrel == old(numrel)
        invariant best ==>
                    if i == |heap.list| then NoneOf(mem, heap.list, size, i)
                    else BestOf(mem, heap.list, size, |heap.list|, i)
        invariant !best ==> NoneOf(mem, heap.list, size, i)
        decreases |heap.list| - i
      {
        if SizeField(mem, b) >= size {
          ghost var k;
          if best {
            k := BestIsChosen(mem, heap, head, unit, size, i);
          } else {
            k := FirstIsChosen(mem, heap, head, unit, size, i);
          }
          p := Give(b, size, k, i);
          assert Chosen(old(heap), best, size, k);
          GotFromChosen(quantum, unit, best, old(heap), requested, p, heap);
          return;
        }
        NextNode(mem, head, heap.list, i + 1);
        b := Word(mem, b + 8);
        i := i + 1;
      }
      if i < |heap.list| { ghost var l := NodeBlock(mem, heap, head, unit, i); }
      NoneFits(mem, heap, head, unit, size);
      p := 0;
    }

    /** brel. */
    method Rel(p: int)
      requires Valid() && p != 0 && Held(heap, p)
      modifies this
      ensures Valid() && RelStep(old(heap), p, heap)
      ensures forall x :: !Private(heap, head, x) ==> Peek(mem, x) == Peek(old(mem), x)
      ensures numrel == old(numrel) + 1 && numget == old(numget)
    {
      hide Word, SetWord, Peek, Inv, HeadersBut, LinksIn, Tiled, Listed, HeadApart, Sum, Private, HalfCoalesced, Freed,
           Absorbed, FreedAt;
      ghost var k :| 0 <= k < |heap.blocks| && heap.blocks[k].kind == Used && heap.blocks[k].addr + HEADER == p;
      ghost var h := heap;
      ReleaseInv(h, k, unit);
      ReleaseSums(h, k);
      numrel := numrel + 1;
      var b := Unuse(p - HEADER, k);
      UsedNotNegative(Release(h, k), unit);
      assert totalloc >= 0;
      Absorb(b, FreedAt(h, k));
      forall x | !Private(heap, head, x) ensures !Private(Freed(h, k), head, x) {
        AbsorbedPrivate(Freed(h, k), head, unit, FreedAt(h, k), x);
      }
    }

    /** The first part of brel: free the block at `b`, by joining it to a free block before it or by chaining it. */
    method Unuse(b: int, ghost k: nat) returns (c: int)
      requires Quantum(quantum, unit) && Inv(heap, unit) && Represents(mem, head, heap)
      requires k < |heap.blocks| && heap.blocks[k].kind == Used && heap.blocks[k].addr == b
      modifies this
      ensures heap == Freed(old(heap), k)
      ensures Tiled(heap.blocks, unit) && Listed(heap.blocks, heap.list)
      ensures HalfCoalesced(heap.blocks, FreedAt(old(heap), k))
      ensures HeadersBut(mem, heap.blocks, FreedAt(old(heap), k) + 1) && LinksIn(mem, head, heap.list)
      ensures HeadApart(head, heap.blocks)
      ensures FreedAt(old(heap), k) + 1 < |heap.blocks| && heap.blocks[FreedAt(old(heap), k)].kind == Free
      ensures c == heap.blocks[FreedAt(old(heap), k)].addr
      ensures forall x :: !Private(heap, head, x) ==> Peek(mem, x) == Peek(old(mem), x)
      ensures totalloc == old(totalloc) - old(heap).blocks[k].size && numget == old(numget) && numrel == old(numrel)
    {
      hide Word, SetWord, Peek, Tiled, Coalesced, Listed, LinksIn, HeadersBut, Merge, Private, LinkLast, HalfCoalesced;
      UsedFields(mem, heap, head, unit, k);
      FreedHalf(heap, k, unit);
      FreedRepresents(mem, heap, head, unit, k);
      var size := SizeField(mem, b);
      assert size < 0;
      assert Word(mem, b - size) == 0;
      totalloc := totalloc + size;
      var room := Word(mem, b);
      if room != 0 {
        assert SizeField(mem, b - room) == room;
        c := b - room;
        mem := SetWord(mem, c + 4, room - size);
      } else {
        c := b;
        HeadLinksIn(mem, head, heap.list);
        assert Word(mem, Word(mem, head + 12) + 8) == head;
        assert Word(mem, Word(mem, head + 8) + 12) == head;
        mem := LinkLast(mem, head, b);
        mem := SetWord(mem, b + 4, -size);
      }
      heap := Freed(heap, k);
    }

    /**
     The rest of brel, once the block at `b` is free: join it to a free block after it and tell
     the block after that.
     */
    method Absorb(b: int, ghost k: nat)
      requires Quantum(quantum, unit)
      requires Tiled(heap.blocks, unit) && Listed(heap.blocks, heap.list) && HalfCoalesced(heap.blocks, k)
      requires HeadersBut(mem, heap.blocks, k + 1) && LinksIn(mem, head, heap.list) && HeadApart(head, heap.blocks)
      requires k + 1 < |heap.blocks| && heap.blocks[k].kind == Free && heap.blocks[k].addr == b
      modifies this
      ensures heap == Absorbed(old(heap), k) && Inv(heap, unit) && Represents(mem, head, heap)
      ensures forall x :: !Private(heap, head, x) ==> Peek(mem, x) == Peek(old(mem), x)
      ensures totalloc == old(totalloc) && numget == old(numget) && numrel == old(numrel)
    {
      hide Word, SetWord, Peek, Tiled, Coalesced, Listed, LinksIn, HeadersBut, Merge, Private, Without, Unlink,
           HalfCoalesced;
      HalfFields(mem, heap, unit, k);
      AbsorbedHalf(heap, k, unit);
      StillNotLast(heap, unit, k);
      var bn := b + SizeField(mem, b);
      if SizeField(mem, bn) > 0 {
        ghost var i := NextPlace(heap, k);
        AbsorbedRepresents(mem, heap, head, unit, k, i);
        var more := SizeField(mem, bn);
        NodeLinksIn(mem, head, heap.list, i);
        FieldBehind(mem, heap, unit, k);
        assert Word(mem, bn + more) == more;
        assert Word(mem, Word(mem, bn + 12) + 8) == bn;
        assert Word(mem, Word(mem, bn + 8) + 12) == bn;
        mem := Unlink(mem, bn);
        UnlinkedSize(old(mem), heap, head, unit, k, i);
        mem := SetWord(mem, b + 4, SizeField(mem, b) + more);
        heap := Absorbed(heap, k);
        assert HeadersBut(mem, heap.blocks, k + 1);
        FreeField(mem, heap, unit, k);
        bn := b + SizeField(mem, b);
      }
      ReleasedRepresents(mem, heap, head, unit, k);
      FreeField(mem, heap, unit, k);
      InUseBehind(mem, heap, unit, k);
      assert SizeField(mem, bn) < 0;
      mem := SetWord(mem, bn, SizeField(mem, b));
    }

    /** A fresh allocator: the head is linked to itself and there is no pool. */
    constructor (m: Memory, head: int, quantum: nat, best: bool, ghost unit: nat)
      requires Quantum(quantum, unit) && 0 < head && head + LINKED <= 0x1_0000_0000
      ensures Valid() && heap == Heap([], []) && numget == 0 && numrel == 0
      ensures this.head == head && this.quantum == quantum && this.best == best && this.unit == unit
      ensures forall x :: !(head <= x < head + LINKED) ==> Peek(mem, x) == Peek(m, x)
    {
      hide Word, SetWord, Peek;
      this.head, this.quantum, this.best, this.unit := head, quantum, best, unit;
      mem := SetWord(SetWord(m, head + 8, head), head + 12, head);
      totalloc, numget, numrel := 0, 0, 0;
      heap := Heap([], []);
      JoinedLink(m, head, head);
    }

    /** bpool. */
    method AddRegion(start: int, len: nat)
      requires Valid() && PoolOk(Pool(start, Usable(quantum, len)), unit)
      requires RegionFree(heap, head, Pool(start, Usable(quantum, len)))
      modifies this
      ensures Valid() && PoolStep(quantum, unit, old(heap), start, len, heap)
      ensures forall x :: !Private(old(heap), head, x) && !(start <= x < start + len) ==>
              Peek(mem, x) == Peek(old(mem), x)
      ensures numget == old(numget) && numrel == old(numrel)
    {
      hide Word, SetWord, Peek, Tiled, Coalesced, Listed, LinksIn, HeadersBut, Sum, Private, LinkLast, Usable;
      var used := Usable(quantum, len);
      UsableFits(quantum, unit, len);
      ghost var p := Pool(start, used);
      AddPoolInv(heap, p, unit);
      AddPoolSums(heap, p);
      PoolRepresents(mem, heap, head, unit, p);
      PoolHeadLinks(mem, heap, head, unit, p);
      mem := SetWord(mem, start, 0);
      assert Word(mem, Word(mem, head + 12) + 8) == head;
      assert Word(mem, Word(mem, head + 8) + 12) == head;
      mem := LinkLast(mem, head, start);
      var size := used - HEADER;
      mem := SetWord(mem, start + 4, size);
      var bn := start + size;
      mem := SetWord(mem, bn, size);
      mem := SetWord(mem, bn + 4, 0x8000_0000);
      heap := AddPool(heap, p);
    }

    /** What a program does to a buffer it holds. */
    method Poke(x: int, v: Byte, ghost addr: int, ghost size: int)
      requires Valid() && Live(heap, addr, size) && addr + HEADER <= x < addr + size
      modifies `mem
      ensures Valid() && mem == old(mem)[x := v]
    {
      hide Sum, Inv, Represents, Private, Live;
      LiveBytes(heap, head, unit, addr, size, x, mem);
      RepresentsKept(mem, mem[x := v], heap, head, unit);
      mem := mem[x := v];
    }

    /** memset on a buffer. */
    method Clear(p: int, n: int, ghost addr: int)
      requires Valid() && 0 <= n && p == addr + HEADER && Live(heap, addr, n + HEADER)
      modifies `mem
      ensures Valid() && forall x :: Peek(mem, x) == if p <= x < p + n then 0 else Peek(old(mem), x)
    {
      hide Sum, Inv, Represents, Private, Live;
      var x := p;
      while x < p + n
        invariant p <= x <= p + n && Valid()
        invariant forall y :: Peek(mem, y) == if p <= y < x then 0 else Peek(old(mem), y)
      {
        ghost var m0 := mem;
        Poke(x, 0, addr, n + HEADER);
        assert forall y :: Peek(mem, y) == if y == x then 0 else Peek(m0, y);
        x := x + 1;
      }
    }

    /** bgetz: a buffer with every byte cleared, beyond what was asked too. */
    method GetCleared(requested: nat) returns (p: int)
      requires Valid() && 0 < requested && Padded(quantum, requested) < LIMIT
      modifies this
      ensures Valid() && GetStep(quantum, best, old(heap), requested, p, heap)
      ensures p != 0 ==> forall x :: InBuffer(heap, p, x) ==> Peek(mem, x) == 0
      ensures forall x :: !Private(old(heap), head, x) ==> Peek(mem, x) == Peek(old(mem), x)
    {
      hide Sum, Inv, Represents, Private, Live, Padded, Word, GetStep, SizeField, InBuffer;
      p := Get(requested);
      if p != 0 {
        ghost var size := GotLive(quantum, unit, best, old(heap), requested, p, heap);
        LiveField(mem, heap, head, unit, p - HEADER, size);
        var rsize := -SizeField(mem, p - HEADER) - HEADER;
        assert rsize >= requested;
        Clear(p, rsize, p - HEADER);
        forall x | !Private(old(heap), head, x) ensures Peek(mem, x) == Peek(old(mem), x) {
          if p - HEADER <= x < p - HEADER + size {
            GotFree(quantum, unit, best, old(heap), head, requested, p, heap, size, x);
          }
        }
        forall x | InBuffer(heap, p, x) ensures Peek(mem, x) == 0 { ghost var n := BufferIsLive(heap, p, x); }
      }
    }

    /** memcpy into a buffer from somewhere apart from it. */
    method Copy(dst: int, src: int, n: int, ghost size: int)
      requires Valid() && Live(heap, dst - HEADER, size) && 0 <= n <= size - HEADER
      requires src + n <= dst || dst + n <= src
      modifies `mem
      ensures Valid() && forall x :: Peek(mem, x) == CopiedByte(old(mem), dst, src, n, x)
    {
      hide Sum, Inv, Represents, Private, Live, Peek;
      var i := 0;
      while i < n
        invariant 0 <= i <= n && Valid()
        invariant forall y :: Peek(mem, y) == CopiedByte(old(mem), dst, src, i, y)
      {
        ghost var m0 := mem;
        Poke(dst + i, Peek(mem, src + i), dst - HEADER, size);
        CopiedOne(old(mem), m0, mem, dst, src, i, i + 1);
        i := i + 1;
      }
    }

    /** bgetr. When it fails the old buffer is left as it was. */
    method Resize(buf: int, requested: nat) returns (p: int)
      requires Valid() && 0 < requested && Padded(quantum, requested) < LIMIT
      requires buf != 0 ==> Held(heap, buf)
      modifies this
      ensures Valid() && ResizeStep(quantum, best, old(heap), buf, requested, p, heap)
      ensures p == 0 ==> mem == old(mem)
      ensures p != 0 && buf != 0 ==>
                forall x :: InBuffer(old(heap), buf, x) && x < buf + requested ==>
                  Peek(mem, p + (x - buf)) == Peek(old(mem), x)
      ensures forall x :: !Private(old(heap), head, x) && !Private(heap, head, x) ==> Peek(mem, x) == Peek(old(mem), x)
    {
      hide Sum, Inv, Represents, Private, Live, Padded, Word, GetStep, RelStep, SizeField, InBuffer, Peek, Held;
      p := Get(requested);
      if p == 0 || buf == 0 {
        GetNull(quantum, best, old(heap), requested, p, heap);
        return;
      }
      ghost var size := HeldIsLive(old(heap), buf);
      ghost var h1 := heap;
      StepLive(quantum, unit, best, old(heap), CallGet(requested, p), h1, buf - HEADER, size);
      ghost var got := GotLive(quantum, unit, best, old(heap), requested, p, h1);
      LiveField(mem, h1, head, unit, buf - HEADER, size);
      LiveField(old(mem), old(heap), head, unit, buf - HEADER, size);
      LiveField(mem, h1, head, unit, p - HEADER, got);
      GotElsewhere(quantum, unit, best, old(heap), old(mem), head, requested, p, h1, got, buf, size);
      LiveApart(h1, unit, buf - HEADER, size, p - HEADER, got);
      var osize := -SizeField(mem, buf - HEADER) - HEADER;
      assert osize > 0;
      var n := if requested < osize then requested else osize;
      Copy(p, buf, n, got);
      ghost var m1 := mem;
      LiveIsHeld(h1, buf, size);
      Rel(buf);
      StepLive(quantum, unit, best, h1, CallRel(buf), heap, p - HEADER, got);
      forall x | InBuffer(old(heap), buf, x) && x < buf + requested
        ensures Peek(mem, p + (x - buf)) == Peek(old(mem), x)
      {
        ghost var l := BufferIsLive(old(heap), buf, x);
        LiveBytes(heap, head, unit, p - HEADER, got, p + (x - buf), mem);
        LiveBytes(old(heap), head, unit, buf - HEADER, size, x, old(mem));
      }
      forall x | !Private(old(heap), head, x) && !Private(heap, head, x) ensures Peek(mem, x) == Peek(old(mem), x) {
        if p <= x < p + n { GotFree(quantum, unit, best, old(heap), head, requested, p, h1, got, x); }
      }
    }

    /** bstats. */
    method Stats() returns (curalloc: int, totfree: int, maxfree: int, nget: int, nrel: int)
      requires Valid()
      ensures curalloc == Sum(heap.blocks, {Used}) && totfree == Sum(heap.blocks, {Free})
      ensures forall k :: 0 <= k < |heap.blocks| && heap.blocks[k].kind == Free ==> heap.blocks[k].size <= maxfree
      ensures maxfree == -1 ||
              exists k :: 0 <= k < |heap.blocks| && heap.blocks[k].kind == Free && heap.blocks[k].size == maxfree
      ensures nget == numget && nrel == numrel
    {
      hide Word, Peek, Tiled, Coalesced, Listed, HeadersBut, LinksIn, SizeField, Sum;
      nget, nrel, curalloc, totfree, maxfree := numget, numrel, totalloc, 0, -1;
      ghost var n: nat := 0;
      NextNode(mem, head, heap.list, 0);
      var b: int := Word(mem, head + 8);
      while b != head
        invariant n <= |heap.list| && b == Path(head, heap.list)[n + 1]
        invariant totfree == ListSum(mem, heap.list[..n])
        invariant forall j :: 0 <= j < n ==> SizeField(mem, heap.list[j]) <= maxfree
        invariant maxfree == -1 || exists j :: 0 <= j < n && SizeField(mem, heap.list[j]) == maxfree
        decreases |heap.list| - n
      {
        ghost var k := NodeBlock(mem, heap, head, unit, n);
        assert SizeField(mem, b) > 0;
        assert heap.list[..n + 1][..n] == heap.list[..n];
        totfree := totfree + SizeField(mem, b);
        if SizeField(mem, b) > maxfree {
          maxfree := SizeField(mem, b);
        }
        NextNode(mem, head, heap.list, n + 1);
        b := Word(mem, b + 8);
        n := n + 1;
      }
      if n < |heap.list| { ghost var k := NodeBlock(mem, heap, head, unit, n); }
      assert heap.list[..n] == heap.list;
      FreeSum(mem, heap, head, unit);
      forall k | 0 <= k < |heap.blocks| && heap.blocks[k].kind == Free ensures heap.blocks[k].size <= maxfree {
        ghost var i := PlaceOf(mem, heap, head, unit, k);
      }
      if maxfree != -1 {
        ghost var j :| 0 <= j < |heap.list| && SizeField(mem, heap.list[j]) == maxfree;
        ghost var k := NodeBlock(mem, heap, head, unit, j);
      }
    }

    /** bpoolv: the walk over a pool ends at its sentinel and finds nothing wrong. */
    method Check(start: int) returns (ok: bool)
      requires Valid() && exists k :: 0 <= k < |heap.blocks| && heap.blocks[k].addr == start
      ensures ok
    {
      hide Word, Peek, Tiled, Coalesced, Listed, HeadersBut, LinksIn, Sum;
      ghost var k :| 0 <= k < |heap.blocks| && heap.blocks[k].addr == start;
      var b := start;
      AnyField(mem, heap, head, unit, k);
      while SizeField(mem, b) != -0x8000_0000
        invariant 0 <= k < |heap.blocks| && b == heap.blocks[k].addr
        invariant heap.blocks[k].kind == End <==> SizeField(mem, b) == -0x8000_0000
        decreases |heap.blocks| - k
      {
        AnyField(mem, heap, head, unit, k);
        LastIsEnd(heap.blocks, unit);
        NextAddress(heap.blocks, unit, k);
        var bs := SizeField(mem, b);
        if bs < 0 {
          bs := -bs;
        } else {
          if bs <= 0 { return false; }
          ghost var i := PlaceOf(mem, heap, head, unit, k);
          NodeLinksIn(mem, head, heap.list, i);
          if Word(mem, Word(mem, b + 12) + 8) != b || Word(mem, Word(mem, b + 8) + 12) != b { return false; }
        }
        b := b + bs;
        k := k + 1;
        AnyField(mem, heap, head, unit, k);
      }
      ok := true;
    }
  }
}
