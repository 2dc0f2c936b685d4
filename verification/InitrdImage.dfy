/**
 From the builder's nodes to the image and from the image to the nodes the kernel
 walks: the address arithmetic of mkinitrd's second loop and of initrd_init, the
 bytes behind the nodes, and initrd_read (tools/src/mkinitrd/mkinitrd.c,
 kernel/initrd.c).

 `root` is where the builder had its nodes and `unit` the size of a node; the
 kernel finds the image at `base`.
 */
module InitrdImage {
  import opened Values
  import opened Paths
  import opened Initrd
  import opened InitrdBuild

  const HEADER: int := 8
  const WORDS: int := 0x1_0000_0000

  /** A node as it lies in memory, with addresses for links and 0 for null. */
  datatype Raw = Raw(name: string, dir: bool, length: int, data: int, ptr: int, next: int, parent: int, readable: bool)

  /** The address of node `i` in an array of nodes at `first`. */
  function Link(first: int, unit: nat, i: int): int
  {
    if i == -1 then 0 else first + unit * i
  }

  /** What the builder has in memory for an entry. */
  function RawOf(e: Entry, root: int, unit: nat): Raw
  {
    Raw(e.name, e.dir, e.length, e.data,
        Link(root, unit, e.ptr), Link(root, unit, e.next), Link(root, unit, e.parent), false)
  }

  function Wrapped(x: int): int
  {
    x % WORDS
  }

  function InImage(link: int, root: int): int
  {
    if link != 0 then Wrapped(link - root + HEADER) else 0
  }

  /** One turn of mkinitrd's relocation loop. */
  function Relocated(r: Raw, root: int, offset: int): Raw
  {
    r.(data := if r.length != 0 then Wrapped(r.data + offset) else r.data,
       ptr := InImage(r.ptr, root), parent := InImage(r.parent, root), next := InImage(r.next, root))
  }

  function InMemory(link: int, base: int): int
  {
    if link != 0 then Wrapped(link + base) else 0
  }

  /** One turn of the loop of initrd_init. */
  function Loaded(r: Raw, base: int): Raw
  {
    r.(ptr := InMemory(r.ptr, base), next := InMemory(r.next, base), parent := InMemory(r.parent, base),
       data := if r.length > 0 then Wrapped(r.data + base) else r.data, readable := r.readable || r.length > 0)
  }

  /** mkinitrd: turn pointers into offsets from the start of the image. */
  method Relocate(nodes: array<Raw>, count: nat, root: int, unit: nat)
    requires count <= nodes.Length
    modifies nodes
    ensures forall i :: 0 <= i < count ==> nodes[i] == Relocated(old(nodes[i]), root, HEADER + unit * count)
    ensures forall i :: count <= i < nodes.Length ==> nodes[i] == old(nodes[i])
  {
    hide Wrapped;
    var offset := HEADER + unit * count;
    for i := 0 to count
      invariant forall k :: 0 <= k < i ==> nodes[k] == Relocated(old(nodes[k]), root, offset)
      invariant forall k :: i <= k < nodes.Length ==> nodes[k] == old(nodes[k])
    {
      if nodes[i].length != 0 {
        nodes[i] := nodes[i].(data := Wrapped(nodes[i].data + offset));
      }
      if nodes[i].ptr != 0 {
        nodes[i] := nodes[i].(ptr := Wrapped(nodes[i].ptr - root + HEADER));
      }
      if nodes[i].parent != 0 {
        nodes[i] := nodes[i].(parent := Wrapped(nodes[i].parent - root + HEADER));
      }
      if nodes[i].next != 0 {
        nodes[i] := nodes[i].(next := Wrapped(nodes[i].next - root + HEADER));
      }
    }
  }

  /** initrd_init: turn offsets into pointers. */
  method Load(nodes: array<Raw>, count: nat, base: int)
    requires count <= nodes.Length
    modifies nodes
    ensures forall i :: 0 <= i < count ==> nodes[i] == Loaded(old(nodes[i]), base)
  {
    hide Wrapped;
    for i := 0 to count
      invariant forall k :: 0 <= k < i ==> nodes[k] == Loaded(old(nodes[k]), base)
      invariant forall k :: i <= k < nodes.Length ==> nodes[k] == old(nodes[k])
    {
      if nodes[i].ptr != 0 {
        nodes[i] := nodes[i].(ptr := Wrapped(nodes[i].ptr + base));
      }
      if nodes[i].next != 0 {
        nodes[i] := nodes[i].(next := Wrapped(nodes[i].next + base));
      }
      if nodes[i].parent != 0 {
        nodes[i] := nodes[i].(parent := Wrapped(nodes[i].parent + base));
      }
      if nodes[i].length > 0 {
        nodes[i] := nodes[i].(data := Wrapped(nodes[i].data + base), readable := true);
      }
    }
  }

  // ---- Links ----

  lemma InsideArray(unit: nat, i: nat, count: nat)
    requires i < count
    ensures 0 <= unit * i <= unit * (count - 1) <= unit * count
  {
    MoreIsMore(unit, i, count - 1);
    MoreIsMore(unit, count - 1, count);
  }

  lemma MoreIsMore(unit: nat, i: nat, j: nat)
    requires i <= j
    ensures 0 <= unit * i <= unit * j
  {
    assert unit * j == unit * i + unit * (j - i);
  }

  lemma WrappedIs(x: int)
    requires 0 <= x < WORDS
    ensures Wrapped(x) == x
  {
  }

  /** A link that goes through the image comes out as the address of the same node. */
  lemma LinkSurvives(root: int, unit: nat, base: int, i: int, count: nat)
    requires 0 < root && 0 <= base && base + HEADER + unit * count < WORDS && -1 <= i < count
    ensures InMemory(InImage(Link(root, unit, i), root), base) == Link(base + HEADER, unit, i)
  {
    hide Wrapped;
    if i >= 0 {
      InsideArray(unit, i, count);
      WrappedIs(HEADER + unit * i);
      WrappedIs(HEADER + unit * i + base);
      assert Link(root, unit, i) - root + HEADER == HEADER + unit * i;
    }
  }

  /** Different nodes have different addresses, and no node is at 0. */
  lemma AddressesDiffer(first: int, unit: nat, i: nat, j: nat)
    requires 0 < first && 0 < unit && i < j
    ensures 0 < Link(first, unit, i) < Link(first, unit, j)
  {
    MoreIsMore(unit, i + 1, j);
    MoreIsMore(unit, 0, i);
    assert unit * (i + 1) == unit * i + unit;
  }

  /** A node of the builder, through the image, in the kernel's memory. */
  function InKernel(e: Entry, root: int, unit: nat, count: nat, base: int): Raw
  {
    Loaded(Relocated(RawOf(e, root, unit), root, HEADER + unit * count), base)
  }

  lemma NodeSurvives(e: Entry, root: int, unit: nat, count: nat, base: int)
    requires 0 < root && 0 <= base && base + HEADER + unit * count < WORDS
    requires e.length > 0 ==> 0 <= e.data && base + HEADER + unit * count + e.data < WORDS
    requires -1 <= e.ptr < count && -1 <= e.next < count && -1 <= e.parent < count
    ensures var r := InKernel(e, root, unit, count, base); var first := base + HEADER;
            && r.name == e.name && r.dir == e.dir && r.length == e.length && (r.readable <==> e.length > 0)
            && r.ptr == Link(first, unit, e.ptr) && r.next == Link(first, unit, e.next)
            && r.parent == Link(first, unit, e.parent)
            && (e.length > 0 ==> r.data == first + unit * count + e.data)
  {
    hide InMemory, InImage, Link, Wrapped;
    MoreIsMore(unit, 0, count);
    LinkSurvives(root, unit, base, e.ptr, count);
    LinkSurvives(root, unit, base, e.next, count);
    LinkSurvives(root, unit, base, e.parent, count);
    if e.length > 0 { DataSurvives(e.data, HEADER + unit * count, base); }
  }

  lemma DataSurvives(data: int, offset: int, base: int)
    requires 0 <= data && 0 <= offset && 0 <= base && base + offset + data < WORDS
    ensures Wrapped(Wrapped(data + offset) + base) == base + offset + data
  {
    WrappedIs(data + offset);
    WrappedIs(data + offset + base);
  }

  lemma LinksInRange(t: Trie, m: nat)
    requires TrieOk(t) && m < |t.entries|
    ensures -1 <= t.entries[m].ptr < |t.entries| && -1 <= t.entries[m].next < |t.entries|
    ensures -1 <= t.entries[m].parent < |t.entries|
  {
    KidsInRange(t, m);
    assert KidsOk(t, m);
    if m > 0 {
      assert PlaceOk(t, m);
      var p := t.entries[m].parent;
      KidsInRange(t, p);
      var i :| 0 <= i < |t.kids[p]| && t.kids[p][i] == m;
      IsKid(t, p, i);
    }
  }

  // ---- The bytes ----

  function Blob(fs: seq<Source>): seq<Byte>
  {
    if fs == [] then [] else Blob(fs[..|fs| - 1]) + fs[|fs| - 1].bytes
  }

  /** The last loop of mkinitrd: the files one after the other. */
  method WriteFiles(fs: seq<Source>) returns (blob: seq<Byte>)
    ensures blob == Blob(fs)
  {
    blob := [];
    var i := 0;
    while i < |fs|
      invariant 0 <= i <= |fs| && blob == Blob(fs[..i])
    {
      assert fs[..i + 1][..i] == fs[..i];
      blob := blob + fs[i].bytes;
      i := i + 1;
    }
    assert fs[..i] == fs;
  }

  lemma {:induction false} BlobAt(fs: seq<Source>, i: nat)
    requires i < |fs|
    ensures |Blob(fs)| == Offset(fs, |fs|) >= Offset(fs, i) + |fs[i].bytes|
    ensures Blob(fs)[Offset(fs, i)..Offset(fs, i) + |fs[i].bytes|] == fs[i].bytes
    decreases |fs|
  {
    var n := |fs| - 1;
    var less := fs[..n];
    assert fs == less + [fs[n]];
    OffsetPrefix(less, fs[n], i);
    OffsetPrefix(less, fs[n], n);
    if i < n {
      BlobAt(less, i);
    } else {
      BlobSize(less);
    }
  }

  lemma {:induction false} BlobSize(fs: seq<Source>)
    ensures |Blob(fs)| == Offset(fs, |fs|)
  {
    if fs != [] {
      var n := |fs| - 1;
      BlobSize(fs[..n]);
      assert fs == fs[..n] + [fs[n]];
      OffsetPrefix(fs[..n], fs[n], n);
    }
  }

  // ---- initrd_read ----

  function Peek(mem: map<int, Byte>, a: int): Byte
  {
    if a in mem then mem[a] else 0
  }

  /** The size initrd_read settles on, in 32-bit arithmetic. */
  function ReadSize(length: int, offset: int, size: int): int
  {
    if offset > length then 0 else if Wrapped(offset + size) > length then length - offset else size
  }

  /** What a read should give: the part of the request inside the file. */
  function Clipped(length: int, offset: int, size: int): int
  {
    if offset > length then 0 else if offset + size > length then length - offset else size
  }

  method Read(node: Raw, offset: nat, size: nat, mem: map<int, Byte>, buffer: array<Byte>) returns (n: nat)
    requires 0 <= node.length < WORDS && offset < WORDS && size < WORDS
    requires ReadSize(node.length, offset, size) <= buffer.Length
    modifies buffer
    ensures n == ReadSize(node.length, offset, size)
    ensures forall j :: 0 <= j < n ==> buffer[j] == Peek(mem, node.data + offset + j)
  {
    if offset > node.length { return 0; }
    n := size;
    if Wrapped(offset + size) > node.length {
      n := node.length - offset;
    }
    for j := 0 to n
      invariant forall k :: 0 <= k < j ==> buffer[k] == Peek(mem, node.data + offset + k)
    {
      buffer[j] := Peek(mem, node.data + offset + j);
    }
  }

  /** A read stays inside the file exactly when the end of the request does not wrap round to a place inside it. */
  lemma ReadIsClipped(length: int, offset: int, size: int)
    requires 0 <= length < WORDS && 0 <= offset < WORDS && 0 <= size < WORDS
    ensures ReadSize(length, offset, size) == Clipped(length, offset, size) <==>
            offset > length || offset + size < WORDS || offset + size - WORDS > length
  {
    if offset + size >= WORDS { assert Wrapped(offset + size) == offset + size - WORDS; }
  }

  /** Ten bytes, from the fifth on, asked for almost everything: the size is taken as it is. */
  lemma ReadCanOverrun()
    ensures ReadSize(10, 5, 0xFFFF_FFFB) == 0xFFFF_FFFB && Clipped(10, 5, 0xFFFF_FFFB) == 5
  {
  }

  // ---- Reading back ----

  /** The bytes of the files lie behind the nodes. */
  ghost predicate Holds(mem: map<int, Byte>, from: int, blob: seq<Byte>)
  {
    forall j :: 0 <= j < |blob| ==> Peek(mem, from + j) == blob[j]
  }

  /** A read of the node takes the part of the request that is inside the file, and finds its bytes there. */
  ghost predicate ReadsBack(node: Raw, bytes: seq<Byte>, mem: map<int, Byte>, offset: int, size: int)
    requires 0 <= offset
  {
    && ReadSize(node.length, offset, size) == Clipped(|bytes|, offset, size)
    && forall k :: offset <= k < |bytes| && k < offset + Clipped(|bytes|, offset, size) ==>
         Peek(mem, node.data + k) == bytes[k]
  }

  lemma BytesThere(fs: seq<Source>, mem: map<int, Byte>, from: int, i: nat, k: nat)
    requires Holds(mem, from, Blob(fs)) && i < |fs| && k < |fs[i].bytes|
    ensures Peek(mem, from + Offset(fs, i) + k) == fs[i].bytes[k]
  {
    hide Blob, Peek;
    BlobAt(fs, i);
    var blob, bytes, at_ := Blob(fs), fs[i].bytes, Offset(fs, i);
    assert blob[at_ + k] == blob[at_..at_ + |bytes|][k];
    assert Peek(mem, from + (at_ + k)) == blob[at_ + k];
  }

  /** A node that has a file's length and data address reads back as the file. */
  lemma NodeReadsBack(fs: seq<Source>, mem: map<int, Byte>, from: int, i: nat, node: Raw, offset: nat, size: nat)
    requires Holds(mem, from, Blob(fs)) && i < |fs| && offset + size < WORDS && node.length == |fs[i].bytes| < WORDS
    requires fs[i].bytes != [] ==> node.data == from + Offset(fs, i)
    ensures ReadsBack(node, fs[i].bytes, mem, offset, size)
  {
    hide Holds, Blob, Peek, ReadSize;
    var bytes := fs[i].bytes;
    ReadIsClipped(node.length, offset, size);
    forall k | offset <= k < |bytes| && k < offset + Clipped(|bytes|, offset, size)
      ensures Peek(mem, node.data + k) == bytes[k]
    {
      BytesThere(fs, mem, from, i, k);
    }
  }

  lemma SizeInFile(fs: seq<Source>, i: nat)
    requires i < |fs|
    ensures Offset(fs, i) + |fs[i].bytes| <= Offset(fs, |fs|)
  {
    BlobAt(fs, i);
  }
}
