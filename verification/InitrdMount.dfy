/** The image as the kernel walks it: nodes at addresses, joined by the pointers that initrd_init left. */
module InitrdMount {

  // `WalkTo` is the lookup of vfs_finddir and vfs_open on these nodes: from the mounted
  // root, follow the pointer to the first child and compare names along the sibling
  // pointers. The theorems say that whatever well-formed files went into the image and
  // wherever it was loaded, this walk finds exactly those files, and reading gives their
  // bytes.

  import opened Values
  import opened Paths
  import opened Initrd
  import opened InitrdBuild
  import opened InitrdImage

  /** The nodes in memory, by address. */
  type Memory = map<int, Raw>

  // ---- Looking up ----

  /** The loop of vfs_finddir along the siblings; a list that came back to a node would never end. */
  function Along(mem: Memory, a: int, name: string): (r: int)
    ensures r != 0 ==> r in mem && mem[r].name == name
    decreases mem.Keys
  {
    if a !in mem || a == 0 then 0
    else if mem[a].name == name then a
    else Along(mem - {a}, mem[a].next, name)
  }

  function Lookup(mem: Memory, dir: int, name: string): (r: int)
    ensures r != 0 ==> r in mem && mem[r].name == name
  {
    if dir in mem then Along(mem, mem[dir].ptr, name) else 0
  }

  /** Where the names lead from the node at `a`, 0 if nowhere. */
  function WalkTo(mem: Memory, a: int, names: seq<string>): int
    decreases |names|
  {
    if names == [] || a == 0 then a else WalkTo(mem, Lookup(mem, a, names[0]), names[1..])
  }

  // ---- The loaded image ----

  /** All nodes after mkinitrd's relocation and initrd_init. */
  function LoadedImage(t: Trie, root: int, unit: nat, base: int): (r: seq<Raw>)
    ensures |r| == |t.entries|
    ensures forall m :: 0 <= m < |r| ==> r[m] == InKernel(t.entries[m], root, unit, |r|, base)
  {
    seq(|t.entries|, m requires 0 <= m < |t.entries| => InKernel(t.entries[m], root, unit, |t.entries|, base))
  }

  lemma AllDiffer(first: int, unit: nat, n: nat)
    requires 0 < first && 0 < unit
    ensures forall i, j :: 0 <= i < j < n ==> Link(first, unit, i) != Link(first, unit, j)
  {
    hide Link;
    forall i, j | 0 <= i < j < n ensures Link(first, unit, i) != Link(first, unit, j) {
      AddressesDiffer(first, unit, i, j);
    }
  }

  /** An array of nodes at `first`. */
  function Placed(nodes: seq<Raw>, first: int, unit: nat): (mem: Memory)
    requires 0 < first && 0 < unit
    ensures forall i :: 0 <= i < |nodes| ==> Link(first, unit, i) in mem && mem[Link(first, unit, i)] == nodes[i]
  {
    AllDiffer(first, unit, |nodes|);
    map i | 0 <= i < |nodes| :: Link(first, unit, i) := nodes[i]
  }

  /** Where the tree `t` was built, how large its nodes are, and where the image is. */
  datatype Place = Place(root: int, unit: nat, base: int)

  /** The nodes and all data they point to lie below the top of memory. */
  ghost predicate Fits(t: Trie, p: Place)
  {
    && 0 < p.root && 0 < p.unit && 0 <= p.base && p.base + HEADER + p.unit * |t.entries| < WORDS
    && forall m :: 0 <= m < |t.entries| && t.entries[m].length > 0 ==>
         0 <= t.entries[m].data && p.base + HEADER + p.unit * |t.entries| + t.entries[m].data < WORDS
  }

  function At(p: Place, m: int): int
  {
    Link(p.base + HEADER, p.unit, m)
  }

  /** Node `m` lies at its address, with its links and data turned into addresses. */
  predicate NodeAt(t: Trie, p: Place, mem: Memory, m: nat)
    requires m < |t.entries|
  {
    var e := t.entries[m];
    && At(p, m) != 0 && At(p, m) in mem
    && var r := mem[At(p, m)];
    && r.name == e.name && r.dir == e.dir && r.length == e.length && (r.readable <==> e.length > 0)
    && r.ptr == At(p, e.ptr) && r.next == At(p, e.next) && r.parent == At(p, e.parent)
    && (e.length > 0 ==> r.data == p.base + HEADER + p.unit * |t.entries| + e.data)
  }

  function MemoryOf(t: Trie, p: Place): Memory
    requires 0 <= p.base && 0 < p.unit
  {
    Placed(LoadedImage(t, p.root, p.unit, p.base), p.base + HEADER, p.unit)
  }

  lemma NodeIsAt(t: Trie, p: Place, m: nat)
    requires TrieOk(t) && Fits(t, p) && m < |t.entries|
    ensures NodeAt(t, p, MemoryOf(t, p), m)
  {
    hide TrieOk, InKernel, Placed;
    LinksInRange(t, m);
    NodeSurvives(t.entries[m], p.root, p.unit, |t.entries|, p.base);
    AddressesDiffer(p.base + HEADER, p.unit, m, m + 1);
  }

  // ---- The kernel's walk ----

  /** The children from position `i` on lie in memory as they are in the tree. */
  ghost predicate KidsLie(t: Trie, p: Place, mem: Memory, list: seq<nat>, i: nat)
    requires forall k :: 0 <= k < |list| ==> list[k] < |t.entries|
  {
    forall k :: i <= k < |list| ==> KidLies(t, p, mem, list, k)
  }

  predicate KidLies(t: Trie, p: Place, mem: Memory, list: seq<nat>, k: nat)
    requires k < |list| && list[k] < |t.entries|
  {
    && At(p, list[k]) != 0 && At(p, list[k]) in mem
    && mem[At(p, list[k])].name == t.entries[list[k]].name
    && mem[At(p, list[k])].next == At(p, Nth(list, k + 1))
  }

  /** Going along the sibling pointers finds what going through the children finds. */
  lemma {:induction false} AlongKids(t: Trie, p: Place, mem: Memory, list: seq<nat>, i: nat, name: string)
    requires forall k :: 0 <= k < |list| ==> list[k] < |t.entries|
    requires Unrepeated(list) && i <= |list| && KidsLie(t, p, mem, list, i) && 0 <= p.base && 0 < p.unit
    ensures Along(mem, At(p, Nth(list, i)), name) == At(p, FindKid(t, list[i..], name))
    decreases |list| - i
  {
    if i < |list| {
      assert KidLies(t, p, mem, list, i);
      var a := At(p, list[i]);
      assert list[i..][1..] == list[i + 1..];
      if mem[a].name != name {
        forall k | i + 1 <= k < |list| ensures KidLies(t, p, mem - {a}, list, k) {
          assert KidLies(t, p, mem, list, k);
          PlacesDiffer(p, list[i], list[k]);
        }
        AlongKids(t, p, mem - {a}, list, i + 1, name);
      }
    }
  }

  lemma PlacesDiffer(p: Place, m: nat, n: nat)
    requires 0 <= p.base && 0 < p.unit && m != n
    ensures At(p, m) != At(p, n)
  {
    if m < n {
      AddressesDiffer(p.base + HEADER, p.unit, m, n);
    } else {
      AddressesDiffer(p.base + HEADER, p.unit, n, m);
    }
  }

  /** The children of a node lie in the loaded image, chained from the node. */
  lemma KidsThere(t: Trie, p: Place, n: nat)
    requires TrieOk(t) && Fits(t, p) && n < |t.entries|
    ensures forall i :: 0 <= i < |t.kids[n]| ==> t.kids[n][i] < |t.entries|
    ensures Unrepeated(t.kids[n]) && KidsLie(t, p, MemoryOf(t, p), t.kids[n], 0)
    ensures At(p, n) in MemoryOf(t, p) && MemoryOf(t, p)[At(p, n)].ptr == At(p, Nth(t.kids[n], 0)) && At(p, -1) == 0
  {
    hide TrieOk, MemoryOf, Fits, At;
    Positive(t, p);
    Sizes(t);
    OldKids(t, n);
    NodeIsAt(t, p, n);
    Nowhere(p, map[], []);
    forall k | 0 <= k < |t.kids[n]| ensures KidLies(t, p, MemoryOf(t, p), t.kids[n], k) {
      NodeIsAt(t, p, t.kids[n][k]);
      IsKid(t, n, k);
    }
  }

  /** Looking a name up in the loaded image finds the node with one name more, or nothing. */
  lemma LookupFinds(t: Trie, p: Place, n: nat, name: string)
    requires TrieOk(t) && Fits(t, p) && n < |t.entries|
    ensures forall i :: 0 <= i < |t.kids[n]| ==> t.kids[n][i] < |t.entries|
    ensures Lookup(MemoryOf(t, p), At(p, n), name) == At(p, FindKid(t, t.kids[n], name))
  {
    hide TrieOk, MemoryOf, FindKid, Along, Fits, At;
    Positive(t, p);
    Sizes(t);
    KidsThere(t, p, n);
    AlongKids(t, p, MemoryOf(t, p), t.kids[n], 0, name);
    assert t.kids[n][0..] == t.kids[n];
  }

  lemma Positive(t: Trie, p: Place)
    requires Fits(t, p)
    ensures 0 <= p.base && 0 < p.unit && 0 < p.root
  {
  }

  /** If a node has names, their every prefix has a node. */
  lemma {:induction false} PrefixThere(t: Trie, m: nat, j: nat) returns (k: nat)
    requires TrieOk(t) && m < |t.entries| && j <= |t.at[m]|
    ensures k < |t.entries| && t.at[k] == t.at[m][..j]
    decreases |t.at[m]|
  {
    k := m;
    if j < |t.at[m]| {
      OldPlace(t, m);
      k := PrefixThere(t, t.entries[m].parent, j);
    }
  }

  /** Node `m`, or no node for -1, is where `names` lead. */
  ghost predicate LeadTo(t: Trie, names: seq<string>, m: int)
  {
    if m == -1 then forall k :: 0 <= k < |t.entries| && k < |t.at| ==> t.at[k] != names
    else 0 <= m < |t.entries| && m < |t.at| && t.at[m] == names
  }

  /** No names go on from where there is no node. */
  lemma NoFurther(t: Trie, n: nat, names: seq<string>)
    requires TrieOk(t) && n < |t.entries| && names != [] && FindKidIn(t, n, names[0]) == -1
    ensures LeadTo(t, t.at[n] + names, -1)
  {
    hide TrieOk, FindKid;
    Sizes(t);
    OldKids(t, n);
    NotThere(t, n, names[0]);
    assert (t.at[n] + names)[..|t.at[n]| + 1] == t.at[n] + [names[0]];
    forall m | 0 <= m < |t.entries| ensures t.at[m] != t.at[n] + names {
      if t.at[m] == t.at[n] + names {
        var k := PrefixThere(t, m, |t.at[n]| + 1);
      }
    }
  }

  ghost function FindKidIn(t: Trie, n: nat, name: string): int
    requires TrieOk(t) && n < |t.entries|
  {
    OldKids(t, n);
    FindKid(t, t.kids[n], name)
  }

  /** Walking names from a node of the loaded image ends at the node with these names, or nowhere if there is none. */
  lemma {:induction false} WalkFinds(t: Trie, p: Place, n: nat, names: seq<string>) returns (m: int)
    requires TrieOk(t) && Fits(t, p) && n < |t.entries|
    ensures LeadTo(t, t.at[n] + names, m) && WalkTo(MemoryOf(t, p), At(p, n), names) == At(p, m)
    decreases |names|
  {
    hide TrieOk, MemoryOf, FindKid, Along, Fits, At, Lookup;
    Positive(t, p);
    Sizes(t);
    NodeIsAt(t, p, n);
    if names == [] {
      m := n;
      assert t.at[n] + names == t.at[n];
    } else {
      LookupFinds(t, p, n, names[0]);
      var next := FindKidIn(t, n, names[0]);
      if next == -1 {
        NoFurther(t, n, names);
        m := -1;
        Nowhere(p, MemoryOf(t, p), names[1..]);
      } else {
        OldKids(t, n);
        FindByNames(t, n, names[0], next);
        m := WalkFinds(t, p, next, names[1..]);
        assert t.at[n] + names == t.at[next] + names[1..];
      }
    }
  }

  lemma Nowhere(p: Place, mem: Memory, names: seq<string>)
    ensures At(p, -1) == 0 && WalkTo(mem, 0, names) == 0
  {
  }

  // ---- The loops ----

  /** The search loop of vfs_finddir. */
  method FindDir(mem: Memory, dir: int, name: string, ghost t: Trie, ghost p: Place, ghost n: nat) returns (a: int)
    requires TrieOk(t) && Fits(t, p) && n < |t.entries| && mem == MemoryOf(t, p) && dir == At(p, n)
    ensures a == Lookup(mem, dir, name)
  {
    hide TrieOk, MemoryOf, Along, Fits, At, Lookup;
    Sizes(t);
    ghost var list, i := t.kids[n], 0;
    KidsThere(t, p, n);
    LookupFinds(t, p, n, name);
    a := mem[dir].ptr;
    while a != 0 && mem[a].name != name
      invariant 0 <= i <= |list| && a == At(p, Nth(list, i))
      invariant i < |list| ==> KidLies(t, p, mem, list, i)
      invariant FindKid(t, list, name) == FindKid(t, list[i..], name)
      decreases |list| - i
    {
      assert list[i..][1..] == list[i + 1..];
      a := mem[a].next;
      i := i + 1;
    }
  }

  /** The walk of vfs_open over names without dots, from the mounted root at `first`. */
  method Open(mem: Memory, first: int, names: seq<string>, ghost t: Trie, ghost p: Place) returns (a: int)
    requires TrieOk(t) && Fits(t, p) && mem == MemoryOf(t, p) && first == At(p, 0)
    ensures a == WalkTo(mem, first, names)
  {
    hide TrieOk, MemoryOf, Fits, At, Lookup, FindKid;
    Sizes(t);
    ghost var n: nat := 0;
    a := first;
    var j := 0;
    while j < |names| && a != 0
      invariant 0 <= j <= |names| && WalkTo(mem, first, names) == WalkTo(mem, a, names[j..])
      invariant a != 0 ==> n < |t.entries| && a == At(p, n)
    {
      LookupFinds(t, p, n, names[j]);
      assert names[j..][1..] == names[j + 1..];
      a := FindDir(mem, a, names[j], t, p, n);
      n := KidNode(t, p, n, names[j]);
      j := j + 1;
    }
  }

  lemma KidNode(t: Trie, p: Place, n: nat, name: string) returns (m: nat)
    requires TrieOk(t) && Fits(t, p) && n < |t.entries|
    ensures Lookup(MemoryOf(t, p), At(p, n), name) != 0 ==>
            m < |t.entries| && Lookup(MemoryOf(t, p), At(p, n), name) == At(p, m)
  {
    hide TrieOk, MemoryOf, Fits, Lookup;
    LookupFinds(t, p, n, name);
    var r := FindKidIn(t, n, name);
    m := if r == -1 then 0 else r;
  }

  // ---- Files ----

  /** Nodes and bytes fit below the top of memory. */
  predicate ImageFits(fs: seq<Source>, count: nat, p: Place)
  {
    0 < p.root && 0 < p.unit && 0 <= p.base && p.base + HEADER + p.unit * count + Offset(fs, |fs|) < WORDS
  }

  lemma FilesFit(t: Trie, fs: seq<Source>, nodes: seq<nat>, p: Place)
    requires Built(t, fs, nodes) && ImageFits(fs, |t.entries|, p)
    ensures Fits(t, p)
  {
    hide Names, Offset, WellFormed;
    forall m | 0 <= m < |t.entries| && t.entries[m].length > 0
      ensures 0 <= t.entries[m].data && p.base + HEADER + p.unit * |t.entries| + t.entries[m].data < WORDS
    {
      assert Accounted(t, fs, nodes, m);
      var i :| 0 <= i < |nodes| && nodes[i] == m;
      assert IsFile(t, fs, i, nodes[i]);
      SizeInFile(fs, i);
    }
  }

  /** The bytes of file `i` in an image of `count` nodes. */
  function DataOf(fs: seq<Source>, count: nat, p: Place, i: nat): int
    requires i <= |fs|
  {
    p.base + HEADER + p.unit * count + Offset(fs, i)
  }

  /** The names of file `i` lead to a node of its size with the address of its bytes. */
  predicate Served(mem: Memory, fs: seq<Source>, count: nat, p: Place, i: nat)
    requires i < |fs|
  {
    var a := WalkTo(mem, p.base + HEADER, Names(fs[i].path));
    && a != 0 && a in mem && !mem[a].dir && mem[a].length == |fs[i].bytes|
    && (mem[a].readable <==> fs[i].bytes != [])
    && (fs[i].bytes != [] ==> mem[a].data == DataOf(fs, count, p, i))
  }

  lemma RootAt(p: Place)
    ensures At(p, 0) == p.base + HEADER
  {
  }

  /** Walking the path of a file in the loaded image ends at the file's node. */
  lemma FileFound(t: Trie, fs: seq<Source>, nodes: seq<nat>, p: Place, i: nat)
    requires Built(t, fs, nodes) && ImageFits(fs, |t.entries|, p) && i < |fs|
    ensures WalkTo(MemoryOf(t, p), p.base + HEADER, Names(fs[i].path)) == At(p, nodes[i])
    ensures Served(MemoryOf(t, p), fs, |t.entries|, p, i)
  {
    hide TrieOk, MemoryOf, Names, WalkTo, Fits, At, Accounted, Offset;
    var names := Names(fs[i].path);
    FilesFit(t, fs, nodes, p);
    Sizes(t);
    RootAt(p);
    RootNames(t);
    assert IsFile(t, fs, i, nodes[i]) && t.at[0] + names == names;
    var m := WalkFinds(t, p, 0, names);
    SameNames(t, m, nodes[i]);
    NodeIsAt(t, p, m);
  }

  ghost predicate OnTheWay(fs: seq<Source>, names: seq<string>)
  {
    names == [] || exists i :: 0 <= i < |fs| && names <= Names(fs[i].path)
  }

  ghost predicate Named(fs: seq<Source>, names: seq<string>)
  {
    exists i :: 0 <= i < |fs| && names == Names(fs[i].path)
  }

  /** Names lead somewhere exactly when they are on the way to a file, and to a file exactly when they are one's. */
  ghost predicate ServesOnly(mem: Memory, fs: seq<Source>, p: Place, names: seq<string>)
  {
    var a := WalkTo(mem, p.base + HEADER, names);
    && (a != 0 <==> OnTheWay(fs, names))
    && (a != 0 ==> a in mem && (mem[a].dir <==> !Named(fs, names)))
  }

  /** Every node is on the way to a file; it is a directory unless it is the file. */
  lemma NodeNames(t: Trie, fs: seq<Source>, nodes: seq<nat>, m: nat)
    requires Built(t, fs, nodes) && m < |t.entries|
    ensures OnTheWay(fs, t.at[m]) && (t.entries[m].dir <==> !Named(fs, t.at[m]))
  {
    hide TrieOk, Names, Offset;
    Sizes(t);
    RootNames(t);
    if m > 0 { assert Accounted(t, fs, nodes, m); }
    if m in nodes {
      var i :| 0 <= i < |nodes| && nodes[i] == m;
      assert IsFile(t, fs, i, nodes[i]);
    }
    if i :| 0 <= i < |fs| && t.at[m] == Names(fs[i].path) {
      assert IsFile(t, fs, i, nodes[i]) && WellFormed(fs[i].path);
      SameNames(t, m, nodes[i]);
    }
  }

  /** The loaded image serves the files and nothing else. */
  lemma NothingElse(t: Trie, fs: seq<Source>, nodes: seq<nat>, p: Place, names: seq<string>)
    requires Built(t, fs, nodes) && ImageFits(fs, |t.entries|, p)
    ensures ServesOnly(MemoryOf(t, p), fs, p, names)
  {
    hide TrieOk, MemoryOf, Names, WalkTo, Fits, At, Accounted, Offset, Named;
    FilesFit(t, fs, nodes, p);
    Sizes(t);
    RootAt(p);
    RootNames(t);
    assert t.at[0] + names == names;
    var m := WalkFinds(t, p, 0, names);
    if m != -1 {
      NodeNames(t, fs, nodes, m);
      NodeIsAt(t, p, m);
    } else {
      Nowhere(p, map[], []);
      if i :| 0 <= i < |fs| && names <= Names(fs[i].path) {
        assert IsFile(t, fs, i, nodes[i]) && Names(fs[i].path)[..|names|] == names;
        var k := PrefixThere(t, nodes[i], |names|);
      }
    }
  }

  /**
   Whatever well-formed files go into the image and wherever it is loaded, following the loaded
   pointers along the path of a file reaches its node, and reading there gives its bytes,
   clipped to its length.
   */
  lemma RoundTrip(
    t: Trie, fs: seq<Source>, nodes: seq<nat>, p: Place, mem: map<int, Byte>, i: nat, offset: nat, size: nat)
    requires Built(t, fs, nodes) && ImageFits(fs, |t.entries|, p) && i < |fs|
    requires Holds(mem, p.base + HEADER + p.unit * |t.entries|, Blob(fs)) && offset + size < WORDS
    ensures var kernel := MemoryOf(t, p); var a := WalkTo(kernel, p.base + HEADER, Names(fs[i].path));
            a != 0 && a in kernel && !kernel[a].dir && ReadsBack(kernel[a], fs[i].bytes, mem, offset, size)
  {
    hide Built, MemoryOf, Names, WalkTo, Blob, Holds, ReadsBack;
    FileFound(t, fs, nodes, p, i);
    SizeInFile(fs, i);
    var kernel := MemoryOf(t, p);
    MoreIsMore(p.unit, 0, |t.entries|);
    var a := WalkTo(kernel, p.base + HEADER, Names(fs[i].path));
    NodeReadsBack(fs, mem, p.base + HEADER + p.unit * |t.entries|, i, kernel[a], offset, size);
  }

  /** mkinitrd on a list of files, then initrd_init: the nodes the kernel has and the bytes behind them. */
  method MakeAndLoad(fs: seq<Source>, p: Place) returns (image: array<Raw>, blob: seq<Byte>)
    requires AllAddable(fs) && 0 <= p.base && 0 < p.unit
    ensures fresh(image) && blob == Blob(fs)
    ensures ImageFits(fs, image.Length, p) ==>
              var mem := Placed(image[..], p.base + HEADER, p.unit);
              && (forall i :: 0 <= i < |fs| ==> Served(mem, fs, image.Length, p, i))
              && (forall names :: ServesOnly(mem, fs, p, names))
  {
    hide AllAddable, Built, RawOf, Relocated, Loaded, Placed, Served, ServesOnly, Blob, Offset;
    var builder := new Builder();
    ghost var nodes;
    var count;
    nodes, count := builder.Build(fs);
    var entries := builder.entries;
    ghost var t := builder.Tree();
    image := new Raw[count](m requires 0 <= m < |entries| => RawOf(entries[m], p.root, p.unit));
    Relocate(image, count, p.root, p.unit);
    blob := WriteFiles(fs);
    Load(image, count, p.base);
    assert image[..] == LoadedImage(t, p.root, p.unit, p.base);
    assert Placed(image[..], p.base + HEADER, p.unit) == MemoryOf(t, p);
    if ImageFits(fs, count, p) {
      forall i | 0 <= i < |fs| ensures Served(MemoryOf(t, p), fs, count, p, i) { FileFound(t, fs, nodes, p, i); }
      forall names ensures ServesOnly(MemoryOf(t, p), fs, p, names) { NothingElse(t, fs, nodes, p, names); }
    }
  }

  // ---- How many nodes ----

  /** The names of the root, of every directory on the way to a file, and of the files. */
  ghost function Ways(fs: seq<Source>): set<seq<string>>
  {
    {[]} + set i, j | 0 <= i < |fs| && 0 <= j <= |Names(fs[i].path)| :: Names(fs[i].path)[..j]
  }

  lemma {:induction false} AllDistinct(list: seq<seq<string>>) returns (s: set<seq<string>>)
    requires forall m, n :: 0 <= m < n < |list| ==> list[m] != list[n]
    ensures |s| == |list| && forall x :: x in s <==> x in list
    decreases |list|
  {
    s := {};
    if list != [] {
      var n := |list| - 1;
      var less := AllDistinct(list[..n]);
      assert list == list[..n] + [list[n]];
      s := less + {list[n]};
    }
  }

  /** mkinitrd makes one node for each of these; the space it has is for five per file. */
  lemma NodeCount(t: Trie, fs: seq<Source>, nodes: seq<nat>)
    requires Built(t, fs, nodes)
    ensures |t.entries| == |Ways(fs)|
  {
    hide Names, Accounted, Offset, KidsOk, PlaceOk;
    var s := AllDistinct(t.at);
    RootNames(t);
    forall x ensures x in t.at <==> x in Ways(fs) {
      if x in t.at {
        var m :| 0 <= m < |t.at| && t.at[m] == x;
        NodeNames(t, fs, nodes, m);
        if i :| 0 <= i < |fs| && x <= Names(fs[i].path) {
          assert x == Names(fs[i].path)[..|x|];
        }
      }
      if i, j :| 0 <= i < |fs| && 0 <= j <= |Names(fs[i].path)| && x == Names(fs[i].path)[..j] {
        assert IsFile(t, fs, i, nodes[i]);
        var k := PrefixThere(t, nodes[i], j);
      }
    }
    assert s == Ways(fs);
  }

  /** One file alone needs a node more than its path has names: with five names there is one too many. */
  lemma OneFileCount(t: Trie, f: Source, nodes: seq<nat>)
    requires Built(t, [f], nodes)
    ensures |t.entries| == |Names(f.path)| + 1
    ensures |t.entries| <= 5 * |[f]| <==> |Names(f.path)| <= 4
  {
    hide Names, Built;
    var names := Names(f.path);
    var list := seq(|names| + 1, j requires 0 <= j <= |names| => names[..j]);
    var s := AllDistinct(list);
    NodeCount(t, [f], nodes);
    forall x ensures x in list <==> x in Ways([f]) {
      assert list[0] == [] && [f][0] == f;
      if j :| 0 <= j < |list| && list[j] == x { assert x == Names([f][0].path)[..j]; }
      if i, j :| 0 <= i < 1 && 0 <= j <= |Names([f][i].path)| && x == Names([f][i].path)[..j] { assert list[j] == x; }
    }
    assert s == Ways([f]);
  }

  /** A file with five names in its path is one that mkinitrd takes. */
  lemma DeepFile()
    ensures var f := Source("/a/b/c/d/e", []); AllAddable([f]) && Names(f.path) == ["a", "b", "c", "d", "e"]
  {
    hide Split, Cut, Leading;
    var names, rest := ["a", "b", "c", "d", "e"], "a/b/c/d/e";
    assert Strip("/a/b/c/d/e") == rest;
    SplitFirst("a", "b/c/d/e");
    SplitFirst("b", "c/d/e");
    SplitFirst("c", "d/e");
    SplitFirst("d", "e");
    SplitFirst("e", "");
    assert "a" + "/" + "b/c/d/e" == rest && "b" + "/" + "c/d/e" == "b/c/d/e";
    assert "c" + "/" + "d/e" == "c/d/e" && "d" + "/" + "e" == "d/e";
    LeadingAll(names);
    assert Split(rest) == names;
  }
}
