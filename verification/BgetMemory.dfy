/**
 How a BGET heap is laid out in flat memory.

 Each block starts with two words, `prevfree` and `bsize`; `bsize` is positive for
 a free block, negative for one in use and the most negative number for a
 sentinel. A free block goes on with the two links of the circular free list,
 whose head is a static structure of the same shape.

 `Represents` says that a memory holds a heap in this way. The lemmas follow the
 stores of bget, brel and bpool one by one: each says how the headers and links
 stand after a store, that the heap it then represents is the one of module
 BgetHeap, and that no byte outside the allocator's own was written.
 */
module BgetMemory {
  import opened Values
  import opened Words
  import opened BgetHeap

  type Memory = map<int, Byte>

  function Peek(m: Memory, a: int): Byte
  {
    if a in m then m[a] else 0
  }

  /** A 32-bit load, low byte first. */
  function Word(m: Memory, a: int): Words.Word
  {
    Peek(m, a) + 0x100 * Peek(m, a + 1) + 0x1_0000 * Peek(m, a + 2) + 0x100_0000 * Peek(m, a + 3)
  }

  /** A 32-bit store. */
  function SetWord(m: Memory, a: int, w: Words.Word): Memory
  {
    m[a := w % 0x100][a + 1 := w / 0x100 % 0x100][a + 2 := w / 0x1_0000 % 0x100][a + 3 := w / 0x100_0000]
  }

  lemma BytesOf(w: nat)
    ensures w == w % 0x100 + 0x100 * (w / 0x100 % 0x100) + 0x1_0000 * (w / 0x1_0000 % 0x100) +
            0x100_0000 * (w / 0x100_0000)
  {
    var a := w / 0x100;
    var b := a / 0x100;
    var c := b / 0x100;
    assert w == 0x100 * a + w % 0x100 && a == 0x100 * b + a % 0x100 && b == 0x100 * c + b % 0x100;
    assert b == w / 0x1_0000;
    assert c == w / 0x100_0000;
  }

  lemma WordGet(m: Memory, a: int, w: Words.Word)
    ensures Word(SetWord(m, a, w), a) == w
  {
    BytesOf(w);
  }

  /** A store changes the word it is meant for, no byte outside it, and so no other word apart from it. */
  lemma Stored(m: Memory, a: int, w: Words.Word)
    ensures Word(SetWord(m, a, w), a) == w
    ensures forall b :: b + 4 <= a || a + 4 <= b ==> Word(SetWord(m, a, w), b) == Word(m, b)
    ensures forall x :: x < a || a + 4 <= x ==> Peek(SetWord(m, a, w), x) == Peek(m, x)
  {
    WordGet(m, a, w);
  }

  /** The two's complement reading of a word. */
  function Signed(w: Words.Word): int
  {
    if w < 0x8000_0000 then w else w - 0x1_0000_0000
  }

  /** The `bsize` of a block. */
  function Code(b: Block): (w: int)
  {
    match b.kind
    case Free => b.size
    case Used => 0x1_0000_0000 - b.size
    case End => 0x8000_0000
  }

  function PrevFree(bs: seq<Block>, k: nat): int
    requires k < |bs|
  {
    if k > 0 && bs[k - 1].kind == Free then bs[k - 1].size else 0
  }

  predicate HeaderIn(m: Memory, bs: seq<Block>, k: nat, skip: int)
    requires k < |bs|
  {
    Word(m, bs[k].addr + 4) == Code(bs[k]) && (k != skip ==> Word(m, bs[k].addr) == PrevFree(bs, k))
  }

  /** All headers are in place, except perhaps the `prevfree` of block `skip`. */
  ghost predicate HeadersBut(m: Memory, bs: seq<Block>, skip: int)
  {
    forall k :: 0 <= k < |bs| ==> HeaderIn(m, bs, k, skip)
  }

  /** The circular list from its head back to its head. */
  function Path(head: int, list: seq<int>): seq<int>
  {
    [head] + list + [head]
  }

  predicate Linked(m: Memory, p: int, q: int)
  {
    Word(m, p + 8) == q && Word(m, q + 12) == p
  }

  ghost predicate LinksIn(m: Memory, head: int, list: seq<int>)
  {
    forall i :: 0 <= i < |list| + 1 ==> Linked(m, Path(head, list)[i], Path(head, list)[i + 1])
  }

  predicate Spaced(p: int, q: int)
  {
    p + LINKED <= q || q + LINKED <= p
  }

  /** List nodes, head included, do not overlap. */
  ghost predicate NodesApart(head: int, list: seq<int>)
  {
    && (forall i :: 0 <= i < |list| ==> Spaced(head, list[i]))
    && (forall i, j :: 0 <= i < j < |list| ==> Spaced(list[i], list[j]))
  }

  /** The head lies outside every block. */
  ghost predicate HeadApart(head: int, bs: seq<Block>)
  {
    && 0 < head && head + LINKED <= 0x1_0000_0000
    && forall k :: 0 <= k < |bs| ==> head + LINKED <= bs[k].addr || bs[k].addr + bs[k].size <= head
  }

  ghost predicate Represents(m: Memory, head: int, h: Heap)
  {
    HeadersBut(m, h.blocks, -1) && LinksIn(m, head, h.list) && HeadApart(head, h.blocks)
  }

  // ---- List surgery ----

  function Unlink(m: Memory, b: int): Memory
  {
    SetWord(SetWord(m, Word(m, b + 12) + 8, Word(m, b + 8)), Word(m, b + 8) + 12, Word(m, b + 12))
  }

  /** Where list surgery may write: the links of the nodes. */
  predicate InLinks(head: int, list: seq<int>, x: int)
  {
    head + 8 <= x < head + LINKED || exists i :: 0 <= i < |list| && list[i] + 8 <= x < list[i] + LINKED
  }

  /** Two positions of the path other than its two ends hold different nodes. */
  lemma PathSpaced(head: int, list: seq<int>, i: nat, j: nat)
    requires NodesApart(head, list) && i < j <= |list| + 1 && (i > 0 || j <= |list|)
    ensures Spaced(Path(head, list)[i], Path(head, list)[j])
  {
  }

  /** Joining `p` to `n` leaves any other link alone. */
  lemma OtherLinkKept(m: Memory, p: int, n: int, x: int, y: int)
    requires 0 <= n < 0x1_0000_0000 && 0 <= p < 0x1_0000_0000
    requires Linked(m, x, y) && Spaced(x, p) && Spaced(y, n) && (x == n || Spaced(x, n)) && (y == p || Spaced(y, p))
    ensures Linked(SetWord(SetWord(m, p + 8, n), n + 12, p), x, y)
  {
    hide Word, SetWord, Peek;
    Stored(m, p + 8, n);
    Stored(SetWord(m, p + 8, n), n + 12, p);
  }

  lemma JoinedLink(m: Memory, p: int, n: int)
    requires 0 <= n < 0x1_0000_0000 && 0 <= p < 0x1_0000_0000 && (p == n || Spaced(p, n))
    ensures Linked(SetWord(SetWord(m, p + 8, n), n + 12, p), p, n)
    ensures forall x :: !(p + 8 <= x < p + 12) && !(n + 12 <= x < n + 16) ==>
              Peek(SetWord(SetWord(m, p + 8, n), n + 12, p), x) == Peek(m, x)
  {
    hide Word, SetWord, Peek;
    Stored(m, p + 8, n);
    Stored(SetWord(m, p + 8, n), n + 12, p);
  }

  lemma SpacedOrSame(head: int, list: seq<int>, i: nat, j: nat)
    requires NodesApart(head, list) && i <= |list| + 1 && j <= |list| + 1
    ensures Path(head, list)[i] == Path(head, list)[j] || Spaced(Path(head, list)[i], Path(head, list)[j])
  {
  }

  lemma UnlinkAt(m: Memory, head: int, list: seq<int>, i: nat)
    requires LinksIn(m, head, list) && NodesApart(head, list) && i < |list|
    ensures LinksIn(Unlink(m, list[i]), head, list[..i] + list[i + 1..])
    ensures forall x :: !InLinks(head, list, x) ==> Peek(Unlink(m, list[i]), x) == Peek(m, x)
  {
    hide Word, SetWord, Peek;
    var c := Path(head, list);
    var p, b, n := c[i], c[i + 1], c[i + 2];
    assert Linked(m, p, b) && Linked(m, b, n);
    assert 0 <= p < 0x1_0000_0000 && 0 <= n < 0x1_0000_0000;
    var m2 := Unlink(m, b);
    assert m2 == SetWord(SetWord(m, p + 8, n), n + 12, p);
    SpacedOrSame(head, list, i, i + 2);
    JoinedLink(m, p, n);
    var list' := list[..i] + list[i + 1..];
    var c' := Path(head, list');
    hide Linked, Unlink;
    forall j | 0 <= j < |list'| + 1 ensures Linked(m2, c'[j], c'[j + 1]) {
      if j == i {
        assert c'[j] == p && c'[j + 1] == n;
      } else {
        var l := if j < i then j else j + 1;
        assert c'[j] == c[l] && c'[j + 1] == c[l + 1];
        assert Linked(m, c[l], c[l + 1]);
        PathSpaced(head, list, if l < i then l else i, if l < i then i else l);
        PathSpaced(head, list, if l < i then l + 1 else i + 2, if l < i then i + 2 else l + 1);
        SpacedOrSame(head, list, l, i + 2);
        SpacedOrSame(head, list, l + 1, i);
        OtherLinkKept(m, p, n, c[l], c[l + 1]);
      }
    }
    forall x | !InLinks(head, list, x) ensures Peek(m2, x) == Peek(m, x) {
      NotInNode(head, list, i, x);
      NotInNode(head, list, i + 2, x);
    }
  }

  lemma NotInNode(head: int, list: seq<int>, i: nat, x: int)
    requires i <= |list| + 1 && !InLinks(head, list, x)
    ensures !(Path(head, list)[i] + 8 <= x < Path(head, list)[i] + LINKED)
  {
  }

  function LinkLast(m: Memory, head: int, b: int): Memory
    requires 0 <= head < 0x1_0000_0000 && 0 <= b < 0x1_0000_0000
  {
    var m1 := SetWord(m, b + 8, head);
    var m2 := SetWord(m1, b + 12, Word(m1, head + 12));
    var m3 := SetWord(m2, head + 12, b);
    SetWord(m3, Word(m3, b + 12) + 8, b)
  }

  /** The four stores that chain `b` in between `p`, the last node, and the head. */
  lemma LastLinks(m: Memory, head: int, b: int, p: int)
    requires 0 <= head < 0x1_0000_0000 && 0 <= b < 0x1_0000_0000 && p == Word(m, head + 12)
    requires Spaced(b, head) && Spaced(b, p) && (p == head || Spaced(p, head))
    ensures var r := LinkLast(m, head, b);
            && Linked(r, p, b) && Linked(r, b, head)
            && (forall x :: !(b + 8 <= x < b + 16) && !(head + 12 <= x < head + 16) && !(p + 8 <= x < p + 12) ==>
                   Peek(r, x) == Peek(m, x))
            && (forall a :: (a + 4 <= b + 8 || b + 16 <= a) && (a + 4 <= head + 12 || head + 16 <= a) &&
                   (a + 4 <= p + 8 || p + 12 <= a)
                  ==> Word(r, a) == Word(m, a))
  {
    hide Word, SetWord, Peek;
    var m1 := SetWord(m, b + 8, head);
    Stored(m, b + 8, head);
    var m2 := SetWord(m1, b + 12, p);
    Stored(m1, b + 12, p);
    var m3 := SetWord(m2, head + 12, b);
    Stored(m2, head + 12, b);
    Stored(m3, p + 8, b);
  }

  lemma LinkLastAt(m: Memory, head: int, list: seq<int>, b: int)
    requires LinksIn(m, head, list) && NodesApart(head, list)
    requires 0 <= head < 0x1_0000_0000 && 0 <= b < 0x1_0000_0000
    requires Spaced(b, head) && forall i :: 0 <= i < |list| ==> Spaced(b, list[i])
    ensures LinksIn(LinkLast(m, head, b), head, list + [b])
    ensures forall x :: !InLinks(head, list, x) && !(b + 8 <= x < b + 16) ==>
            Peek(LinkLast(m, head, b), x) == Peek(m, x)
  {
    hide Word, SetWord, Peek;
    var c, c', r := Path(head, list), Path(head, list + [b]), LinkLast(m, head, b);
    var p := c[|list|];
    assert Linked(m, p, c[|list| + 1]);
    SpacedOrSame(head, list, |list|, 0);
    LastLinks(m, head, b, p);
    hide LinkLast;
    forall j | 0 <= j < |list| + 2 ensures Linked(r, c'[j], c'[j + 1]) {
      if j < |list| {
        assert c'[j] == c[j] && c'[j + 1] == c[j + 1];
        assert Linked(m, c[j], c[j + 1]);
        PathSpaced(head, list, j, |list|);
        PathSpaced(head, list, j + 1, |list| + 1);
        SpacedOrSame(head, list, j, 0);
        SpacedOrSame(head, list, j + 1, |list|);
      }
    }
    forall x | !InLinks(head, list, x) && !(b + 8 <= x < b + 16) ensures Peek(r, x) == Peek(m, x) {
      NotInNode(head, list, |list|, x);
    }
  }

  // ---- The heap's nodes and words ----

  /** Free blocks, and the head, are far enough apart to hold their links. */
  lemma FreeNodesApart(h: Heap, head: int, unit: nat)
    requires unit == 4 || unit == 8
    requires Tiled(h.blocks, unit) && Listed(h.blocks, h.list) && HeadApart(head, h.blocks)
    ensures NodesApart(head, h.list)
  {
    forall i | 0 <= i < |h.list| ensures Spaced(head, h.list[i]) {
      var k := BlockAt(h, i);
      assert BlockOk(h.blocks[k], unit);
    }
    forall i, j | 0 <= i < j < |h.list| ensures Spaced(h.list[i], h.list[j]) {
      var k := BlockAt(h, i);
      var l := BlockAt(h, j);
      assert k != l;
      assert BlockOk(h.blocks[k], unit) && BlockOk(h.blocks[l], unit);
      assert Apart(h.blocks[if k < l then k else l], h.blocks[if k < l then l else k]);
    }
  }

  lemma BlockAt(h: Heap, i: nat) returns (k: nat)
    requires Listed(h.blocks, h.list) && i < |h.list|
    ensures k < |h.blocks| && h.blocks[k].kind == Free && h.blocks[k].addr == h.list[i]
  {
    assert FreeAt(h.blocks, h.list[i]);
    k :| 0 <= k < |h.blocks| && h.blocks[k].kind == Free && h.blocks[k].addr == h.list[i];
  }

  /** No header word lies in the links of a node. */
  lemma HeadersNotLinks(h: Heap, head: int, unit: nat, k: nat, x: int)
    requires unit == 4 || unit == 8
    requires Tiled(h.blocks, unit) && Listed(h.blocks, h.list) && HeadApart(head, h.blocks)
    requires k < |h.blocks| && h.blocks[k].addr <= x < h.blocks[k].addr + HEADER
    ensures !InLinks(head, h.list, x)
  {
    assert BlockOk(h.blocks[k], unit);
    forall i | 0 <= i < |h.list| ensures !(h.list[i] + 8 <= x < h.list[i] + LINKED) {
      var l := BlockAt(h, i);
      assert BlockOk(h.blocks[l], unit);
      assert k != l ==> Apart(h.blocks[if k < l then k else l], h.blocks[if k < l then l else k]);
    }
  }

  lemma WordSame(m: Memory, m': Memory, a: int)
    requires forall x :: a <= x < a + 4 ==> Peek(m', x) == Peek(m, x)
    ensures Word(m', a) == Word(m, a)
  {
    assert Peek(m', a) == Peek(m, a) && Peek(m', a + 1) == Peek(m, a + 1);
    assert Peek(m', a + 2) == Peek(m, a + 2) && Peek(m', a + 3) == Peek(m, a + 3);
  }

  /** Links depend on the bytes of links only. */
  lemma LinksKept(m: Memory, m': Memory, head: int, list: seq<int>)
    requires LinksIn(m, head, list)
    requires forall x :: InLinks(head, list, x) ==> Peek(m', x) == Peek(m, x)
    ensures LinksIn(m', head, list)
  {
    hide Word, Peek;
    var c := Path(head, list);
    forall i | 0 <= i < |list| + 1 ensures Linked(m', c[i], c[i + 1]) {
      assert Linked(m, c[i], c[i + 1]);
      NodeLinks(head, list, i);
      NodeLinks(head, list, i + 1);
      WordSame(m, m', c[i] + 8);
      WordSame(m, m', c[i + 1] + 12);
    }
  }

  lemma NodeLinks(head: int, list: seq<int>, i: nat)
    requires i <= |list| + 1
    ensures forall x :: Path(head, list)[i] + 8 <= x < Path(head, list)[i] + LINKED ==> InLinks(head, list, x)
  {
  }

  /** Headers depend on the bytes of headers only. */
  lemma HeadersKept(m: Memory, m': Memory, bs: seq<Block>, skip: int)
    requires HeadersBut(m, bs, skip)
    requires forall k, x :: 0 <= k < |bs| && bs[k].addr <= x < bs[k].addr + HEADER ==> Peek(m', x) == Peek(m, x)
    ensures HeadersBut(m', bs, skip)
  {
    hide Word, Peek;
    forall k | 0 <= k < |bs| ensures HeaderIn(m', bs, k, skip) {
      assert HeaderIn(m, bs, k, skip);
      WordSame(m, m', bs[k].addr);
      WordSame(m, m', bs[k].addr + 4);
    }
  }

  // ---- The header stores of bget and brel ----

  /** The block at `b` shrinks to `rest` bytes, a used block of `size` bytes takes its upper end. */
  function SplitMem(m: Memory, b: int, rest: int, size: int): Memory
    requires 0 <= rest < LIMIT && 0 < size < LIMIT
  {
    var m1 := SetWord(m, b + 4, rest);
    var m2 := SetWord(m1, b + rest, rest);
    var m3 := SetWord(m2, b + rest + 4, 0x1_0000_0000 - size);
    SetWord(m3, b + rest + size, 0)
  }

  lemma SplitStores(m: Memory, b: int, rest: int, size: int)
    requires LINKED <= rest < LIMIT && LINKED <= size < LIMIT
    ensures var r := SplitMem(m, b, rest, size);
            && Word(r, b) == Word(m, b) && Word(r, b + 4) == rest
            && Word(r, b + rest) == rest && Word(r, b + rest + 4) == 0x1_0000_0000 - size
            && Word(r, b + rest + size) == 0 && Word(r, b + rest + size + 4) == Word(m, b + rest + size + 4)
            && (forall a :: a + 4 <= b || b + rest + size + 4 <= a ==> Word(r, a) == Word(m, a))
            && (forall x :: !(b + 4 <= x < b + 8) && !(b + rest <= x < b + rest + 8) &&
                   !(b + rest + size <= x < b + rest + size + 4)
                  ==> Peek(r, x) == Peek(m, x))
  {
    hide Word, SetWord, Peek;
    var m1 := SetWord(m, b + 4, rest);
    Stored(m, b + 4, rest);
    var m2 := SetWord(m1, b + rest, rest);
    Stored(m1, b + rest, rest);
    var m3 := SetWord(m2, b + rest + 4, 0x1_0000_0000 - size);
    Stored(m2, b + rest + 4, 0x1_0000_0000 - size);
    Stored(m3, b + rest + size, 0);
  }

  lemma BlocksApart(bs: seq<Block>, unit: nat, k: nat, l: nat)
    requires unit == 4 || unit == 8
    requires Tiled(bs, unit) && k < |bs| && l < |bs| && k != l
    ensures Apart(bs[k], bs[l]) && BlockOk(bs[k], unit) && BlockOk(bs[l], unit)
  {
    assert Apart(bs[if k < l then k else l], bs[if k < l then l else k]);
  }

  /** A third block starts well before block `k` or well after the header of the next. */
  lemma ThirdBlock(bs: seq<Block>, unit: nat, k: nat, j: nat)
    requires unit == 4 || unit == 8
    requires Tiled(bs, unit) && k + 1 < |bs| && bs[k].kind != End && j < |bs| && j != k && j != k + 1
    ensures bs[j].addr + bs[j].size <= bs[k].addr || bs[k].addr + bs[k].size + HEADER <= bs[j].addr
    ensures bs[j].size >= HEADER && bs[k + 1].addr == bs[k].addr + bs[k].size
  {
    BlocksApart(bs, unit, j, k);
    BlocksApart(bs, unit, j, k + 1);
    assert Follows(bs[k], bs[k + 1]);
  }

  lemma NextAddress(bs: seq<Block>, unit: nat, k: nat)
    requires unit == 4 || unit == 8
    requires Tiled(bs, unit) && k + 1 < |bs| && bs[k].kind != End
    ensures bs[k + 1].addr == bs[k].addr + bs[k].size && bs[k + 1].pool == bs[k].pool
  {
    assert Follows(bs[k], bs[k + 1]);
  }

  lemma ThirdHeader(m: Memory, m': Memory, bs: seq<Block>, unit: nat, k: nat, j: nat)
    requires unit == 4 || unit == 8
    requires Tiled(bs, unit) && k + 1 < |bs| && bs[k].kind != End && j < |bs| && j != k && j != k + 1
    requires forall a :: a + 4 <= bs[k].addr || bs[k].addr + bs[k].size + 4 <= a ==> Word(m', a) == Word(m, a)
    ensures Word(m', bs[j].addr) == Word(m, bs[j].addr) && Word(m', bs[j].addr + 4) == Word(m, bs[j].addr + 4)
  {
    hide Word, Tiled;
    ThirdBlock(bs, unit, k, j);
  }

  lemma SplitHeader(m: Memory, bs: seq<Block>, unit: nat, k: nat, size: int, j: nat)
    requires unit == 4 || unit == 8
    requires Tiled(bs, unit) && HeadersBut(m, bs, -1) && k + 1 < |bs| && bs[k].kind == Free && j <= |bs|
    requires LINKED <= size && LINKED <= bs[k].size - size && bs[k].size < LIMIT
    ensures HeaderIn(SplitMem(m, bs[k].addr, bs[k].size - size, size), Split(bs, k, size), j, -1)
  {
    hide Word, Peek, Split, Tiled, SplitMem;
    NextAddress(bs, unit, k);
    var rest := bs[k].size - size;
    var m', r := SplitMem(m, bs[k].addr, rest, size), Split(bs, k, size);
    SplitStores(m, bs[k].addr, rest, size);
    if j < k {
      ThirdHeader(m, m', bs, unit, k, j);
      assert HeaderIn(m, bs, j, -1);
    } else if j > k + 2 {
      ThirdHeader(m, m', bs, unit, k, j - 1);
      assert HeaderIn(m, bs, j - 1, -1);
      assert r[j - 1] == bs[j - 2];
    } else if j == k + 2 {
      assert HeaderIn(m, bs, k + 1, -1);
    } else {
      assert HeaderIn(m, bs, k, -1);
    }
  }

  lemma SplitHeaders(m: Memory, bs: seq<Block>, unit: nat, k: nat, size: int)
    requires unit == 4 || unit == 8
    requires Tiled(bs, unit) && HeadersBut(m, bs, -1) && k + 1 < |bs| && bs[k].kind == Free
    requires LINKED <= size && LINKED <= bs[k].size - size && bs[k].size < LIMIT
    ensures HeadersBut(SplitMem(m, bs[k].addr, bs[k].size - size, size), Split(bs, k, size), -1)
  {
    hide HeaderIn, Tiled, SplitMem, Split;
    var m', r := SplitMem(m, bs[k].addr, bs[k].size - size, size), Split(bs, k, size);
    forall j | 0 <= j < |r| ensures HeaderIn(m', r, j, -1) {
      SplitHeader(m, bs, unit, k, size, j);
    }
  }

  /** A store into one word of the header of block `k` leaves every other header word alone. */
  lemma HeaderStore(m: Memory, bs: seq<Block>, unit: nat, k: nat, offset: int, w: Words.Word, j: nat)
    requires unit == 4 || unit == 8
    requires Tiled(bs, unit) && k < |bs| && j < |bs| && (offset == 0 || offset == 4)
    ensures var m' := SetWord(m, bs[k].addr + offset, w);
            && Word(m', bs[j].addr) == (if j == k && offset == 0 then w else Word(m, bs[j].addr))
            && Word(m', bs[j].addr + 4) == (if j == k && offset == 4 then w else Word(m, bs[j].addr + 4))
  {
    hide Word, SetWord, Peek;
    Stored(m, bs[k].addr + offset, w);
    if j != k { HeaderRoom(bs, unit, j, k); }
  }

  lemma HeaderRoom(bs: seq<Block>, unit: nat, j: nat, k: nat)
    requires unit == 4 || unit == 8
    requires Tiled(bs, unit) && j < |bs| && k < |bs| && j != k
    ensures bs[j].addr + HEADER <= bs[k].addr || bs[k].addr + HEADER <= bs[j].addr
  {
    BlocksApart(bs, unit, j, k);
  }

  // ---- What a caller's bytes are safe from ----

  /** Bytes that belong to the allocator: the head, all headers, and the whole of free blocks. */
  predicate Private(h: Heap, head: int, x: int)
  {
    || head <= x < head + LINKED
    || exists k :: 0 <= k < |h.blocks| && InPrivate(h.blocks[k], x)
  }

  predicate InPrivate(b: Block, x: int)
  {
    b.addr <= x < b.addr + (if b.kind == Free then b.size else HEADER)
  }

  /** The bytes of a live block are never private. */
  lemma UserBytes(h: Heap, head: int, unit: nat, k: nat, x: int)
    requires unit == 4 || unit == 8
    requires Tiled(h.blocks, unit) && HeadApart(head, h.blocks)
    requires k < |h.blocks| && h.blocks[k].kind == Used
    requires h.blocks[k].addr + HEADER <= x < h.blocks[k].addr + h.blocks[k].size
    ensures !Private(h, head, x)
  {
    forall j | 0 <= j < |h.blocks| ensures !InPrivate(h.blocks[j], x) {
      if j != k { BlocksApart(h.blocks, unit, j, k); }
    }
  }

  lemma LinksArePrivate(h: Heap, head: int, unit: nat, x: int)
    requires unit == 4 || unit == 8
    requires Tiled(h.blocks, unit) && Listed(h.blocks, h.list) && InLinks(head, h.list, x)
    ensures Private(h, head, x)
  {
    if !(head <= x < head + LINKED) {
      var i :| 0 <= i < |h.list| && h.list[i] + 8 <= x < h.list[i] + LINKED;
      var k := BlockAt(h, i);
      assert BlockOk(h.blocks[k], unit);
      assert InPrivate(h.blocks[k], x);
    }
  }

  /** Where the links are: in the head, or in a free block past its header. */
  lemma LinkPlace(h: Heap, head: int, unit: nat, x: int)
    requires unit == 4 || unit == 8
    requires Tiled(h.blocks, unit) && Listed(h.blocks, h.list) && InLinks(head, h.list, x)
    ensures head + 8 <= x < head + LINKED ||
            exists k :: 0 <= k < |h.blocks| && h.blocks[k].kind == Free &&
              h.blocks[k].addr + 8 <= x < h.blocks[k].addr + LINKED
  {
    if !(head + 8 <= x < head + LINKED) {
      var i :| 0 <= i < |h.list| && h.list[i] + 8 <= x < h.list[i] + LINKED;
      var k := BlockAt(h, i);
    }
  }

  // ---- bget in memory ----

  lemma SplitLinks(m: Memory, h: Heap, head: int, unit: nat, k: nat, size: int, x: int)
    requires unit == 4 || unit == 8
    requires Inv(h, unit) && HeadApart(head, h.blocks) && k + 1 < |h.blocks| && h.blocks[k].kind == Free
    requires LINKED <= size && LINKED <= h.blocks[k].size - size && h.blocks[k].size < LIMIT
    requires InLinks(head, h.list, x)
    ensures Peek(SplitMem(m, h.blocks[k].addr, h.blocks[k].size - size, size), x) == Peek(m, x)
  {
    hide Word, Peek, SplitMem;
    var b, rest := h.blocks[k], h.blocks[k].size - size;
    SplitStores(m, b.addr, rest, size);
    NextAddress(h.blocks, unit, k);
    LinkPlace(h, head, unit, x);
    if !(head + 8 <= x < head + LINKED) {
      var l :| 0 <= l < |h.blocks| && h.blocks[l].kind == Free && h.blocks[l].addr + 8 <= x < h.blocks[l].addr + LINKED;
      if l != k {
        assert l != k + 1;
        ThirdBlock(h.blocks, unit, k, l);
        assert BlockOk(h.blocks[l], unit);
      }
    } else {
      assert BlockOk(h.blocks[k + 1], unit);
    }
  }

  /** The splitting branch of bget. */
  lemma SplitRepresents(m: Memory, h: Heap, head: int, unit: nat, k: nat, size: int)
    requires unit == 4 || unit == 8
    requires Inv(h, unit) && Represents(m, head, h) && k + 1 < |h.blocks| && h.blocks[k].kind == Free
    requires LINKED <= size && LINKED <= h.blocks[k].size - size && h.blocks[k].size < LIMIT
    ensures var m' := SplitMem(m, h.blocks[k].addr, h.blocks[k].size - size, size);
            && Represents(m', head, Heap(Split(h.blocks, k, size), h.list))
            && forall x :: !Private(h, head, x) ==> Peek(m', x) == Peek(m, x)
  {
    hide Word, Peek, SplitMem, Split, Tiled, Coalesced, Listed;
    var m' := SplitMem(m, h.blocks[k].addr, h.blocks[k].size - size, size);
    SplitHeaders(m, h.blocks, unit, k, size);
    forall x | InLinks(head, h.list, x) ensures Peek(m', x) == Peek(m, x) {
      SplitLinks(m, h, head, unit, k, size, x);
    }
    LinksKept(m, m', head, h.list);
    SplitStores(m, h.blocks[k].addr, h.blocks[k].size - size, size);
    NextAddress(h.blocks, unit, k);
    forall x | !Private(h, head, x) ensures Peek(m', x) == Peek(m, x) {
      assert !InPrivate(h.blocks[k], x) && !InPrivate(h.blocks[k + 1], x);
      PrivateHeader(h, head, unit, k + 1, x);
    }
  }

  lemma PrivateHeader(h: Heap, head: int, unit: nat, k: nat, x: int)
    requires unit == 4 || unit == 8
    requires Tiled(h.blocks, unit) && k < |h.blocks| && !Private(h, head, x)
    ensures !(h.blocks[k].addr <= x < h.blocks[k].addr + HEADER)
  {
    assert BlockOk(h.blocks[k], unit);
    assert !InPrivate(h.blocks[k], x);
  }

  // ---- Single header stores ----

  /** A store into a header leaves the links alone. */
  lemma HeaderStoreLinks(m: Memory, h: Heap, head: int, unit: nat, k: nat, offset: int, w: Words.Word)
    requires unit == 4 || unit == 8
    requires Tiled(h.blocks, unit) && Listed(h.blocks, h.list) && HeadApart(head, h.blocks) && LinksIn(m, head, h.list)
    requires k < |h.blocks| && (offset == 0 || offset == 4)
    ensures LinksIn(SetWord(m, h.blocks[k].addr + offset, w), head, h.list)
  {
    hide Word, SetWord, Peek, Tiled, Listed, InLinks;
    var m' := SetWord(m, h.blocks[k].addr + offset, w);
    Stored(m, h.blocks[k].addr + offset, w);
    forall x | InLinks(head, h.list, x) ensures Peek(m', x) == Peek(m, x) {
      if h.blocks[k].addr <= x < h.blocks[k].addr + HEADER { HeadersNotLinks(h, head, unit, k, x); }
    }
    LinksKept(m, m', head, h.list);
  }

  lemma HeaderStoreFrame(m: Memory, h: Heap, head: int, unit: nat, k: nat, offset: int, w: Words.Word)
    requires unit == 4 || unit == 8
    requires Tiled(h.blocks, unit) && k < |h.blocks| && (offset == 0 || offset == 4)
    ensures forall x :: !Private(h, head, x) ==> Peek(SetWord(m, h.blocks[k].addr + offset, w), x) == Peek(m, x)
  {
    hide Word, SetWord, Peek, Tiled, Private;
    Stored(m, h.blocks[k].addr + offset, w);
    forall x | !Private(h, head, x) ensures Peek(SetWord(m, h.blocks[k].addr + offset, w), x) == Peek(m, x) {
      PrivateHeader(h, head, unit, k, x);
    }
  }

  /** Setting the one `prevfree` that was out of step. */
  lemma FixPrevFree(m: Memory, bs: seq<Block>, unit: nat, k: nat)
    requires unit == 4 || unit == 8
    requires Tiled(bs, unit) && k < |bs| && HeadersBut(m, bs, k) && 0 <= PrevFree(bs, k) < 0x1_0000_0000
    ensures HeadersBut(SetWord(m, bs[k].addr, PrevFree(bs, k)), bs, -1)
  {
    hide Word, SetWord, Peek, Tiled, PrevFree;
    var m' := SetWord(m, bs[k].addr + 0, PrevFree(bs, k));
    forall j | 0 <= j < |bs| ensures HeaderIn(m', bs, j, -1) {
      HeaderStore(m, bs, unit, k, 0, PrevFree(bs, k), j);
      assert HeaderIn(m, bs, j, k);
    }
  }

  /** Setting the size of block `k` for its new kind puts only the `prevfree` of the next block out of step. */
  lemma RetagHeaders(m: Memory, bs: seq<Block>, unit: nat, k: nat, kind: Kind)
    requires unit == 4 || unit == 8
    requires Tiled(bs, unit) && k < |bs| && HeadersBut(m, bs, -1) && 0 <= Code(bs[k].(kind := kind)) < 0x1_0000_0000
    ensures HeadersBut(SetWord(m, bs[k].addr + 4, Code(bs[k].(kind := kind))), Retag(bs, k, kind), k + 1)
  {
    hide Word, SetWord, Peek, Tiled;
    var w, r := Code(bs[k].(kind := kind)), Retag(bs, k, kind);
    var m' := SetWord(m, bs[k].addr + 4, w);
    var next := k + 1;
    forall j | 0 <= j < |r| ensures HeaderIn(m', r, j, next) {
      HeaderStore(m, bs, unit, k, 4, w, j);
      assert HeaderIn(m, bs, j, -1);
    }
  }

  lemma MergeHeaders(m: Memory, bs: seq<Block>, unit: nat, k: nat, skip: int)
    requires unit == 4 || unit == 8
    requires Tiled(bs, unit) && k + 1 < |bs| && bs[k].kind == Free && HeadersBut(m, bs, skip)
    requires skip == -1 || skip == k + 1
    requires 0 <= bs[k].size + bs[k + 1].size < 0x1_0000_0000
    ensures HeadersBut(SetWord(m, bs[k].addr + 4, bs[k].size + bs[k + 1].size), Merge(bs, k), k + 1)
  {
    hide Word, SetWord, Peek, Tiled, Merge;
    var w, r := bs[k].size + bs[k + 1].size, Merge(bs, k);
    var m' := SetWord(m, bs[k].addr + 4, w);
    var next := k + 1;
    forall j | 0 <= j < |r| ensures HeaderIn(m', r, j, next) {
      var j' := if j <= k then j else j + 1;
      HeaderStore(m, bs, unit, k, 4, w, j');
      assert HeaderIn(m, bs, j', skip);
      if j > k + 1 { assert r[j - 1] == bs[j]; }
    }
  }

  /** Taking a node out of the list touches no header and nothing of a caller's. */
  lemma UnlinkHeaders(m: Memory, h: Heap, head: int, unit: nat, i: nat, skip: int)
    requires unit == 4 || unit == 8
    requires Tiled(h.blocks, unit) && Listed(h.blocks, h.list) && HeadApart(head, h.blocks)
    requires HeadersBut(m, h.blocks, skip) && LinksIn(m, head, h.list) && i < |h.list|
    ensures var m' := Unlink(m, h.list[i]);
            && HeadersBut(m', h.blocks, skip) && LinksIn(m', head, Without(h.list, h.list[i]))
            && forall x :: !Private(h, head, x) ==> Peek(m', x) == Peek(m, x)
  {
    hide Word, SetWord, Peek, Tiled, Unlink, InLinks, Private;
    var m' := Unlink(m, h.list[i]);
    FreeNodesApart(h, head, unit);
    UnlinkAt(m, head, h.list, i);
    WithoutAt(h.list, i);
    forall k, x | 0 <= k < |h.blocks| && h.blocks[k].addr <= x < h.blocks[k].addr + HEADER
      ensures Peek(m', x) == Peek(m, x)
    {
      HeadersNotLinks(h, head, unit, k, x);
    }
    HeadersKept(m, m', h.blocks, skip);
    forall x | !Private(h, head, x) ensures Peek(m', x) == Peek(m, x) {
      if InLinks(head, h.list, x) { LinksArePrivate(h, head, unit, x); }
    }
  }

  lemma MergeHeadApart(bs: seq<Block>, unit: nat, k: nat, head: int)
    requires unit == 4 || unit == 8
    requires Tiled(bs, unit) && k + 1 < |bs| && bs[k].kind != End && HeadApart(head, bs)
    ensures HeadApart(head, Merge(bs, k))
  {
    hide Merge, Tiled;
    BlocksApart(bs, unit, k, k + 1);
    NextAddress(bs, unit, k);
  }

  // ---- The branch of bget that takes a whole block ----

  function TakeMem(m: Memory, b: int, size: int): Memory
    requires 0 < size < LIMIT
  {
    SetWord(SetWord(Unlink(m, b), b + 4, 0x1_0000_0000 - size), b + size, 0)
  }

  lemma TakeRepresents(m: Memory, h: Heap, head: int, unit: nat, k: nat, i: nat)
    requires unit == 4 || unit == 8
    requires Inv(h, unit) && Represents(m, head, h) && k + 1 < |h.blocks| && h.blocks[k].kind == Free
    requires i < |h.list| && h.list[i] == h.blocks[k].addr && h.blocks[k].size < LIMIT && 0 < h.blocks[k].size
    ensures var m' := TakeMem(m, h.blocks[k].addr, h.blocks[k].size);
            && Represents(m', head, Heap(Retag(h.blocks, k, Used), Without(h.list, h.blocks[k].addr)))
            && forall x :: !Private(h, head, x) ==> Peek(m', x) == Peek(m, x)
  {
    hide Word, SetWord, Peek, Tiled, Listed, Coalesced, Unlink, Private, HeadersBut, LinksIn;
    var b, w := h.blocks[k], 0x1_0000_0000 - h.blocks[k].size;
    var h' := Heap(Retag(h.blocks, k, Used), Without(h.list, b.addr));
    UnlinkHeaders(m, h, head, unit, i, -1);
    RetagTiled(h.blocks, k, Used, unit);
    AddressIsUnique(h.blocks, unit, k);
    TakenListed(h.blocks, k, h.list);
    var m1 := Unlink(m, b.addr);
    var m2 := SetWord(m1, b.addr + 4, w);
    RetagHeaders(m1, h.blocks, unit, k, Used);
    HeaderStoreLinks(m1, h', head, unit, k, 4, w);
    HeaderStoreFrame(m1, h, head, unit, k, 4, w);
    NextAddress(h.blocks, unit, k);
    FixPrevFree(m2, h'.blocks, unit, k + 1);
    HeaderStoreLinks(m2, h', head, unit, k + 1, 0, 0);
    HeaderStoreFrame(m2, h, head, unit, k + 1, 0, 0);
  }

  // ---- brel in memory ----

  /**
   The stores of the first half of brel; `prev` is the free block before, of `room` bytes, or
   there is none and `room` is 0.
   */
  function FreedMem(m: Memory, head: int, b: int, size: int, room: int): Memory
    requires 0 <= head < 0x1_0000_0000 && 0 <= b < 0x1_0000_0000 && 0 <= room && 0 <= size
    requires room + size < 0x1_0000_0000
  {
    if room != 0 then SetWord(m, b - room + 4, room + size) else SetWord(LinkLast(m, head, b), b + 4, size)
  }

  lemma PrevAddress(bs: seq<Block>, unit: nat, k: nat)
    requires unit == 4 || unit == 8
    requires Tiled(bs, unit) && 0 < k < |bs| && bs[k - 1].kind != End
    ensures bs[k - 1].addr == bs[k].addr - bs[k - 1].size && bs[k - 1].size >= LINKED
  {
    NextAddress(bs, unit, k - 1);
    assert BlockOk(bs[k - 1], unit);
  }

  lemma LinkLastHeaders(m: Memory, h: Heap, head: int, unit: nat, k: nat)
    requires unit == 4 || unit == 8
    requires Inv(h, unit) && Represents(m, head, h) && k < |h.blocks| && h.blocks[k].kind == Used
    requires 0 <= h.blocks[k].addr < 0x1_0000_0000
    ensures var m' := LinkLast(m, head, h.blocks[k].addr);
            && HeadersBut(m', h.blocks, -1) && LinksIn(m', head, h.list + [h.blocks[k].addr])
            && forall x :: !Private(h, head, x) && !(h.blocks[k].addr <= x < h.blocks[k].addr + h.blocks[k].size) ==>
                   Peek(m', x) == Peek(m, x)
  {
    hide Word, SetWord, Peek, Tiled, LinkLast, InLinks, Private;
    var b := h.blocks[k];
    var m' := LinkLast(m, head, b.addr);
    FreeNodesApart(h, head, unit);
    UsedNodeApart(h, head, unit, k);
    LinkLastAt(m, head, h.list, b.addr);
    forall j, x | 0 <= j < |h.blocks| && h.blocks[j].addr <= x < h.blocks[j].addr + HEADER
      ensures Peek(m', x) == Peek(m, x)
    {
      HeadersNotLinks(h, head, unit, j, x);
      if j != k { BlocksApart(h.blocks, unit, j, k); }
    }
    HeadersKept(m, m', h.blocks, -1);
    forall x | !Private(h, head, x) && !(b.addr <= x < b.addr + b.size) ensures Peek(m', x) == Peek(m, x) {
      if InLinks(head, h.list, x) { LinksArePrivate(h, head, unit, x); }
      UsedRoom(h, unit, k);
    }
  }

  lemma UsedRoom(h: Heap, unit: nat, k: nat)
    requires unit == 4 || unit == 8
    requires Tiled(h.blocks, unit) && k < |h.blocks| && h.blocks[k].kind != End
    ensures h.blocks[k].size >= LINKED && 0 < h.blocks[k].addr && h.blocks[k].addr + h.blocks[k].size < 0x1_0000_0000
    ensures h.blocks[k].size < LIMIT
  {
    assert BlockOk(h.blocks[k], unit);
  }

  lemma UsedNodeApart(h: Heap, head: int, unit: nat, k: nat)
    requires unit == 4 || unit == 8
    requires Tiled(h.blocks, unit) && Listed(h.blocks, h.list) && HeadApart(head, h.blocks)
    requires k < |h.blocks| && h.blocks[k].kind == Used
    ensures Spaced(h.blocks[k].addr, head) && forall i :: 0 <= i < |h.list| ==> Spaced(h.blocks[k].addr, h.list[i])
  {
    UsedRoom(h, unit, k);
    forall i | 0 <= i < |h.list| ensures Spaced(h.blocks[k].addr, h.list[i]) {
      var l := BlockAt(h, i);
      BlocksApart(h.blocks, unit, k, l);
    }
  }

  /** After the first half of brel only the `prevfree` after the freed block is out of step. */
  lemma FreedRepresents(m: Memory, h: Heap, head: int, unit: nat, k: nat)
    requires unit == 4 || unit == 8
    requires Inv(h, unit) && Represents(m, head, h) && k < |h.blocks| && h.blocks[k].kind == Used
    ensures 0 < h.blocks[k].addr < 0x1_0000_0000 && 0 < h.blocks[k].size
    ensures 0 <= PrevFree(h.blocks, k) && PrevFree(h.blocks, k) + h.blocks[k].size < 0x1_0000_0000
    ensures var f, j := Freed(h, k), FreedAt(h, k);
            var m' := FreedMem(m, head, h.blocks[k].addr, h.blocks[k].size, PrevFree(h.blocks, k));
            && HeadersBut(m', f.blocks, j + 1) && LinksIn(m', head, f.list) && HeadApart(head, f.blocks)
            && forall x :: !Private(f, head, x) ==> Peek(m', x) == Peek(m, x)
  {
    hide Word, SetWord, Peek, Tiled, Listed, Coalesced, LinkLast, Private, HeadersBut, LinksIn, Merge;
    UsedRoom(h, unit, k);
    FreedHalf(h, k, unit);
    if k > 0 && h.blocks[k - 1].kind == Free {
      JoinBefore(m, h, head, unit, k);
    } else {
      JoinNone(m, h, head, unit, k);
    }
  }

  lemma JoinBefore(m: Memory, h: Heap, head: int, unit: nat, k: nat)
    requires unit == 4 || unit == 8
    requires Inv(h, unit) && Represents(m, head, h) && 0 < k < |h.blocks| && h.blocks[k].kind == Used
    requires h.blocks[k - 1].kind == Free
    ensures 0 < h.blocks[k - 1].size && h.blocks[k - 1].addr == h.blocks[k].addr - h.blocks[k - 1].size
    ensures h.blocks[k - 1].size + h.blocks[k].size < 0x1_0000_0000 && 0 <= h.blocks[k].size
    ensures var m' := SetWord(m, h.blocks[k - 1].addr + 4, h.blocks[k - 1].size + h.blocks[k].size);
            var f := Freed(h, k);
            && HeadersBut(m', f.blocks, k) && LinksIn(m', head, f.list) && HeadApart(head, f.blocks)
            && forall x :: !Private(f, head, x) ==> Peek(m', x) == Peek(m, x)
  {
    hide Word, SetWord, Peek, Tiled, Listed, Coalesced, Private, HeadersBut, LinksIn, Merge, HalfCoalesced;
    PrevAddress(h.blocks, unit, k);
    UsedRoom(h, unit, k);
    UsedRoom(h, unit, k - 1);
    FreedHalf(h, k, unit);
    MergeHeadApart(h.blocks, unit, k - 1, head);
    MergeHeaders(m, h.blocks, unit, k - 1, -1);
    HeaderStoreLinks(m, Freed(h, k), head, unit, k - 1, 4, h.blocks[k - 1].size + h.blocks[k].size);
    HeaderStoreFrame(m, Freed(h, k), head, unit, k - 1, 4, h.blocks[k - 1].size + h.blocks[k].size);
  }

  lemma JoinNone(m: Memory, h: Heap, head: int, unit: nat, k: nat)
    requires unit == 4 || unit == 8
    requires Inv(h, unit) && Represents(m, head, h) && k < |h.blocks| && h.blocks[k].kind == Used
    requires k == 0 || h.blocks[k - 1].kind != Free
    ensures 0 < h.blocks[k].addr < 0x1_0000_0000 && 0 <= h.blocks[k].size < LIMIT
    ensures var m' := SetWord(LinkLast(m, head, h.blocks[k].addr), h.blocks[k].addr + 4, h.blocks[k].size);
            var f := Freed(h, k);
            && HeadersBut(m', f.blocks, k + 1) && LinksIn(m', head, f.list) && HeadApart(head, f.blocks)
            && forall x :: !Private(f, head, x) ==> Peek(m', x) == Peek(m, x)
  {
    hide Word, SetWord, Peek, Tiled, Listed, Coalesced, LinkLast, Private, HeadersBut, LinksIn, HalfCoalesced;
    UsedRoom(h, unit, k);
    FreedHalf(h, k, unit);
    LinkLastHeaders(m, h, head, unit, k);
    var m1 := LinkLast(m, head, h.blocks[k].addr);
    RetagHeaders(m1, h.blocks, unit, k, Free);
    HeaderStoreLinks(m1, Freed(h, k), head, unit, k, 4, h.blocks[k].size);
    HeaderStoreFrame(m1, Freed(h, k), head, unit, k, 4, h.blocks[k].size);
    forall x | !Private(Freed(h, k), head, x) ensures Peek(m1, x) == Peek(m, x) {
      FreedPrivate(h, head, k, x);
    }
  }

  lemma FreedPrivate(h: Heap, head: int, k: nat, x: int)
    requires k < |h.blocks| && h.blocks[k].kind == Used && (k == 0 || h.blocks[k - 1].kind != Free)
    requires !Private(Freed(h, k), head, x)
    ensures !Private(h, head, x) || h.blocks[k].addr <= x < h.blocks[k].addr + HEADER
    ensures !(h.blocks[k].addr <= x < h.blocks[k].addr + h.blocks[k].size)
  {
    var f := Freed(h, k);
    assert !InPrivate(f.blocks[k], x);
    forall j | 0 <= j < |h.blocks| && j != k ensures !InPrivate(h.blocks[j], x) {
      assert f.blocks[j] == h.blocks[j];
    }
  }

  lemma AbsorbedRepresents(m: Memory, h: Heap, head: int, unit: nat, k: nat, i: nat)
    requires unit == 4 || unit == 8
    requires Tiled(h.blocks, unit) && Listed(h.blocks, h.list) && HalfCoalesced(h.blocks, k)
    requires k + 1 < |h.blocks| && h.blocks[k].kind == Free && h.blocks[k + 1].kind == Free
    requires HeadersBut(m, h.blocks, k + 1) && LinksIn(m, head, h.list) && HeadApart(head, h.blocks)
    requires i < |h.list| && h.list[i] == h.blocks[k + 1].addr
    ensures 0 <= h.blocks[k].size + h.blocks[k + 1].size < 0x1_0000_0000
    ensures var r := Absorbed(h, k);
            var m' := SetWord(Unlink(m, h.blocks[k + 1].addr), h.blocks[k].addr + 4,
              h.blocks[k].size + h.blocks[k + 1].size);
            && HeadersBut(m', r.blocks, k + 1) && LinksIn(m', head, r.list) && HeadApart(head, r.blocks)
            && forall x :: !Private(r, head, x) ==> Peek(m', x) == Peek(m, x)
  {
    hide Word, SetWord, Peek, Tiled, Listed, Coalesced, Unlink, Private, HeadersBut, LinksIn, HalfCoalesced, Merge,
         Without;
    UsedRoom(h, unit, k);
    UsedRoom(h, unit, k + 1);
    AbsorbedHalf(h, k, unit);
    MergeHeadApart(h.blocks, unit, k, head);
    UnlinkHeaders(m, h, head, unit, i, k + 1);
    var r, m1 := Absorbed(h, k), Unlink(m, h.blocks[k + 1].addr);
    MergeHeaders(m1, h.blocks, unit, k, k + 1);
    HeaderStoreLinks(m1, r, head, unit, k, 4, h.blocks[k].size + h.blocks[k + 1].size);
    HeaderStoreFrame(m1, r, head, unit, k, 4, h.blocks[k].size + h.blocks[k + 1].size);
    forall x | !Private(r, head, x) ensures !Private(h, head, x) { MergePrivate(h, head, unit, k, x); }
  }

  lemma MergePrivate(h: Heap, head: int, unit: nat, k: nat, x: int)
    requires unit == 4 || unit == 8
    requires Tiled(h.blocks, unit) && k + 1 < |h.blocks| && h.blocks[k].kind == Free && h.blocks[k + 1].kind == Free
    requires !Private(Absorbed(h, k), head, x)
    ensures !Private(h, head, x)
  {
    hide Merge, Tiled;
    NextAddress(h.blocks, unit, k);
    UsedRoom(h, unit, k);
    UsedRoom(h, unit, k + 1);
    var r := Absorbed(h, k);
    forall j | 0 <= j < |h.blocks| ensures !InPrivate(h.blocks[j], x) {
      assert !InPrivate(r.blocks[if j <= k then j else j - 1], x);
    }
  }

  /** The last store of brel sets the `prevfree` after the block; then memory is right again. */
  lemma ReleasedRepresents(m: Memory, h: Heap, head: int, unit: nat, k: nat)
    requires unit == 4 || unit == 8
    requires Inv(h, unit) && HeadersBut(m, h.blocks, k + 1) && LinksIn(m, head, h.list) && HeadApart(head, h.blocks)
    requires k + 1 < |h.blocks| && h.blocks[k].kind == Free
    ensures 0 < h.blocks[k].size < LIMIT && h.blocks[k].addr + h.blocks[k].size == h.blocks[k + 1].addr
    ensures var m' := SetWord(m, h.blocks[k + 1].addr, h.blocks[k].size);
            Represents(m', head, h) && forall x :: !Private(h, head, x) ==> Peek(m', x) == Peek(m, x)
  {
    hide Word, SetWord, Peek, Tiled, Listed, Coalesced, Private, HeadersBut, LinksIn;
    UsedRoom(h, unit, k);
    NextAddress(h.blocks, unit, k);
    FixPrevFree(m, h.blocks, unit, k + 1);
    HeaderStoreLinks(m, h, head, unit, k + 1, 0, h.blocks[k].size);
    HeaderStoreFrame(m, h, head, unit, k + 1, 0, h.blocks[k].size);
  }

  // ---- bpool in memory ----

  function PoolMem(m: Memory, head: int, start: int, size: int): Memory
    requires 0 <= head < 0x1_0000_0000 && 0 <= start < 0x1_0000_0000 && 0 <= size < LIMIT
  {
    var m1 := SetWord(m, start, 0);
    var m2 := LinkLast(m1, head, start);
    var m3 := SetWord(m2, start + 4, size);
    var m4 := SetWord(m3, start + size, size);
    SetWord(m4, start + size + 4, 0x8000_0000)
  }

  predicate InRegion(p: Pool, x: int)
  {
    p.start <= x < p.start + p.len
  }

  /** A region that may be given to bpool: apart from the head and from every block. */
  ghost predicate RegionFree(h: Heap, head: int, p: Pool)
  {
    && (head + LINKED <= p.start || p.start + p.len <= head)
    && forall k :: 0 <= k < |h.blocks| ==> Apart(h.blocks[k], Block(p, p.start, p.len, Free))
  }

  lemma RegionNotLinks(h: Heap, head: int, unit: nat, p: Pool, x: int)
    requires unit == 4 || unit == 8
    requires Tiled(h.blocks, unit) && Listed(h.blocks, h.list) && RegionFree(h, head, p) && InRegion(p, x)
    ensures !InLinks(head, h.list, x)
    ensures forall k :: 0 <= k < |h.blocks| ==> !(h.blocks[k].addr <= x < h.blocks[k].addr + HEADER)
  {
    forall k | 0 <= k < |h.blocks| ensures !(h.blocks[k].addr <= x < h.blocks[k].addr + h.blocks[k].size) {
      assert Apart(h.blocks[k], Block(p, p.start, p.len, Free));
    }
    forall k | 0 <= k < |h.blocks| ensures !(h.blocks[k].addr <= x < h.blocks[k].addr + HEADER) {
      assert BlockOk(h.blocks[k], unit);
    }
    forall i | 0 <= i < |h.list| ensures !(h.list[i] + 8 <= x < h.list[i] + LINKED) {
      var l := BlockAt(h, i);
      assert BlockOk(h.blocks[l], unit);
    }
  }

  lemma RegionNodeApart(h: Heap, head: int, unit: nat, p: Pool)
    requires unit == 4 || unit == 8
    requires Tiled(h.blocks, unit) && Listed(h.blocks, h.list) && RegionFree(h, head, p) && PoolOk(p, unit)
    ensures Spaced(p.start, head) && forall i :: 0 <= i < |h.list| ==> Spaced(p.start, h.list[i])
  {
    forall i | 0 <= i < |h.list| ensures Spaced(p.start, h.list[i]) {
      var l := BlockAt(h, i);
      assert BlockOk(h.blocks[l], unit) && Apart(h.blocks[l], Block(p, p.start, p.len, Free));
    }
  }

  /** The first two steps of bpool: clear `prevfree` and chain the block. */
  lemma PoolLinked(m: Memory, h: Heap, head: int, unit: nat, p: Pool)
    requires unit == 4 || unit == 8
    requires Inv(h, unit) && Represents(m, head, h) && PoolOk(p, unit) && RegionFree(h, head, p)
    ensures var m' := LinkLast(SetWord(m, p.start, 0), head, p.start);
            && HeadersBut(m', h.blocks, -1) && LinksIn(m', head, h.list + [p.start]) && Word(m', p.start) == 0
            && forall x :: !InLinks(head, h.list, x) && !InRegion(p, x) ==> Peek(m', x) == Peek(m, x)
  {
    hide Word, SetWord, Peek, Tiled, Listed, Coalesced, LinkLast, InLinks, RegionFree;
    var m1 := SetWord(m, p.start, 0);
    var m' := LinkLast(m1, head, p.start);
    Stored(m, p.start, 0);
    forall x | InLinks(head, h.list, x) ensures Peek(m1, x) == Peek(m, x) {
      if InRegion(p, x) { RegionNotLinks(h, head, unit, p, x); }
    }
    LinksKept(m, m1, head, h.list);
    FreeNodesApart(h, head, unit);
    RegionNodeApart(h, head, unit, p);
    LinkLastAt(m1, head, h.list, p.start);
    forall k, x | 0 <= k < |h.blocks| && h.blocks[k].addr <= x < h.blocks[k].addr + HEADER
      ensures Peek(m', x) == Peek(m, x)
    {
      HeadersNotLinks(h, head, unit, k, x);
      if InRegion(p, x) { RegionNotLinks(h, head, unit, p, x); }
    }
    HeadersKept(m, m', h.blocks, -1);
    forall x | p.start <= x < p.start + 4 ensures Peek(m', x) == Peek(m1, x) {
      RegionNotLinks(h, head, unit, p, x);
    }
    WordSame(m1, m', p.start);
  }

  lemma PoolHeaders(m: Memory, h: Heap, unit: nat, p: Pool, j: nat)
    requires unit == 4 || unit == 8
    requires Tiled(h.blocks, unit) && Tiled(AddPool(h, p).blocks, unit) && PoolOk(p, unit)
    requires HeadersBut(m, h.blocks, -1) && Word(m, p.start) == 0 && j < |h.blocks| + 2
    ensures var size := p.len - HEADER;
            var m3 := SetWord(m, p.start + 4, size);
            var m4 := SetWord(m3, p.start + size, size);
            HeaderIn(SetWord(m4, p.start + size + 4, 0x8000_0000), AddPool(h, p).blocks, j, -1)
  {
    hide Word, SetWord, Peek, Tiled;
    var size, n, r := p.len - HEADER, |h.blocks|, AddPool(h, p).blocks;
    var m3 := SetWord(m, p.start + 4, size);
    var m4 := SetWord(m3, p.start + size, size);
    HeaderStore(m, r, unit, n, 4, size, j);
    HeaderStore(m3, r, unit, n + 1, 0, size, j);
    HeaderStore(m4, r, unit, n + 1, 4, 0x8000_0000, j);
    LastIsEnd(h.blocks, unit);
    if j < n {
      assert HeaderIn(m, h.blocks, j, -1);
      assert r[j] == h.blocks[j];
    }
  }

  lemma LastIsEnd(bs: seq<Block>, unit: nat)
    requires unit == 4 || unit == 8
    requires Tiled(bs, unit)
    ensures |bs| > 0 ==> bs[|bs| - 1].kind == End
  {
  }

  /** bpool puts the region at the end of the free list and leaves all else alone. */
  lemma PoolRepresents(m: Memory, h: Heap, head: int, unit: nat, p: Pool)
    requires unit == 4 || unit == 8
    requires Inv(h, unit) && Represents(m, head, h) && PoolOk(p, unit) && RegionFree(h, head, p)
    ensures var m' := PoolMem(m, head, p.start, p.len - HEADER);
            && Represents(m', head, AddPool(h, p))
            && forall x :: !Private(h, head, x) && !InRegion(p, x) ==> Peek(m', x) == Peek(m, x)
  {
    hide Word, SetWord, Peek, Tiled, Listed, Coalesced, LinkLast, InLinks, HeaderIn, LinksIn, Private;
    var size, n, r := p.len - HEADER, |h.blocks|, AddPool(h, p);
    AddPoolInv(h, p, unit);
    PoolLinked(m, h, head, unit, p);
    var m2 := LinkLast(SetWord(m, p.start, 0), head, p.start);
    var m3 := SetWord(m2, p.start + 4, size);
    var m4 := SetWord(m3, p.start + size, size);
    var m5 := SetWord(m4, p.start + size + 4, 0x8000_0000);
    forall j | 0 <= j < |r.blocks| ensures HeaderIn(m5, r.blocks, j, -1) { PoolHeaders(m2, h, unit, p, j); }
    HeaderStoreLinks(m2, r, head, unit, n, 4, size);
    HeaderStoreLinks(m3, r, head, unit, n + 1, 0, size);
    HeaderStoreLinks(m4, r, head, unit, n + 1, 4, 0x8000_0000);
    Stored(m2, p.start + 4, size);
    Stored(m3, p.start + size, size);
    Stored(m4, p.start + size + 4, 0x8000_0000);
    forall x | !Private(h, head, x) && !InRegion(p, x) ensures Peek(m5, x) == Peek(m, x) {
      if InLinks(head, h.list, x) { LinksArePrivate(h, head, unit, x); }
    }
  }
}
