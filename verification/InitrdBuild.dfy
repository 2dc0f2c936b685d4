/**
 mkinitrd's loops (tools/src/mkinitrd/mkinitrd.c): directories are made on the way
 to a file, the file goes at the end of its directory.
 */
module InitrdBuild {
  import opened Values
  import opened Paths
  import opened Initrd

  /** One pair of arguments: where the file goes and what is in it. */
  datatype Source = Source(path: string, bytes: seq<Byte>)

  // ---- The name of a file ----

  function Last(parts: seq<string>): string
    requires parts != []
  {
    parts[|parts| - 1]
  }

  lemma {:induction false} LastOfSplit(s: string, p: nat)
    requires p <= |s| && (p == 0 || s[p - 1] == '/') && forall i :: p <= i < |s| ==> s[i] != '/'
    ensures Last(Split(s)) == s[p..]
    decreases |s|
  {
    hide Cut, Split;
    SplitUnfolds(s);
    var c := Cut(s);
    if c < |s| {
      var rest := s[c + 1..];
      LastOfSplit(rest, p - c - 1);
      assert rest[p - c - 1..] == s[p..];
    } else {
      assert s[0..] == s;
    }
  }

  lemma SplitUnfolds(s: string)
    ensures Split(s) == if Cut(s) == |s| then [s] else [s[..Cut(s)]] + Split(s[Cut(s) + 1..])
  {
    hide Cut;
  }

  lemma StripKeepsLast(path: string)
    requires Strip(path) != ""
    ensures Last(Split(path)) == Last(Split(Strip(path)))
  {
    if path[0] == '/' {
      CutIs(path, 0);
    }
  }

  /** filename: what follows the last slash. */
  method Filename(path: string) returns (r: string)
    ensures r == Last(Split(path))
  {
    hide Split, Cut;
    var p := 0;
    while p < |path|
      invariant p <= |path|
    {
      p := p + 1;
    }
    while p > 0 && path[p - 1] != '/'
      invariant 0 <= p <= |path| && forall i :: p <= i < |path| ==> path[i] != '/'
    {
      p := p - 1;
    }
    LastOfSplit(path, p);
    r := path[p..];
  }

  // ---- What the tree is after some files ----

  predicate ProperPrefix(a: seq<string>, b: seq<string>)
  {
    a < b
  }

  /** Nodes stay what they are; new ones are directories on the way to `names`. */
  ghost predicate Extends(t: Trie, u: Trie, names: seq<string>)
  {
    && TrieOk(t) && TrieOk(u) && |t.entries| <= |u.entries|
    && (forall k :: 0 <= k < |t.entries| ==> Same(t, u, k))
    && (forall k :: |t.entries| <= k < |u.entries| ==>
           u.entries[k].dir && u.entries[k].length == 0 && ProperPrefix(u.at[k], names))
  }

  predicate Same(t: Trie, u: Trie, k: nat)
    requires k < |t.entries| && k < |u.entries| && |t.at| == |t.entries| && |u.at| == |u.entries|
  {
    && u.at[k] == t.at[k] && u.entries[k].name == t.entries[k].name && u.entries[k].dir == t.entries[k].dir
    && u.entries[k].length == t.entries[k].length && u.entries[k].data == t.entries[k].data
  }

  lemma ExtendsAdded(t: Trie, u: Trie, names: seq<string>, n: nat, j: nat)
    requires Extends(t, u, names) && n < |u.entries| && j + 1 < |names| && u.at[n] == names[..j]
    requires forall k :: 0 <= k < |u.entries| ==> u.at[k] != u.at[n] + [names[j]]
    ensures Extends(t, Added(u, n, names[j], true, 0, 0), names)
    ensures Added(u, n, names[j], true, 0, 0).at[|u.entries|] == names[..j + 1]
  {
    hide Added;
    var r := Added(u, n, names[j], true, 0, 0);
    AddedOk(u, n, names[j], true, 0, 0);
    AddedEntry(u, n, names[j], true, 0, 0, 0);
    assert names[..j] + [names[j]] == names[..j + 1];
    hide TrieOk;
    forall k | 0 <= k < |t.entries| ensures Same(t, r, k) {
      AddedEntry(u, n, names[j], true, 0, 0, k);
      assert Same(t, u, k);
    }
    forall k | |t.entries| <= k < |r.entries|
      ensures r.entries[k].dir && r.entries[k].length == 0 && ProperPrefix(r.at[k], names)
    {
      if k < |u.entries| { AddedEntry(u, n, names[j], true, 0, 0, k); }
    }
  }

  // ---- The builder ----

  class Builder {
    var entries: seq<Entry>
    ghost var kids: seq<seq<nat>>
    ghost var at: seq<seq<string>>

    ghost function Tree(): Trie
      reads this
    {
      Trie(entries, kids, at)
    }

    constructor ()
      ensures Tree() == Root()
    {
      entries, kids, at := [Entry("", true, 0, 0, -1, -1, -1)], [[]], [[]];
    }

    /** The loop over the children of a node. */
    method Search(n: nat, name: string) returns (r: int)
      requires TrieOk(Tree()) && n < |entries|
      ensures (forall i :: 0 <= i < |kids[n]| ==> kids[n][i] < |entries|) && r == FindKid(Tree(), kids[n], name)
    {
      hide TrieOk;
      Sizes(Tree());
      OldKids(Tree(), n);
      ghost var i := 0;
      r := entries[n].ptr;
      while r != -1 && entries[r].name != name
        invariant 0 <= i <= |kids[n]| && r == Nth(kids[n], i)
        invariant FindKid(Tree(), kids[n], name) == FindKid(Tree(), kids[n][i..], name)
        decreases |kids[n]| - i
      {
        IsKid(Tree(), n, i);
        assert kids[n][i..][1..] == kids[n][i + 1..];
        r := entries[r].next;
        i := i + 1;
      }
    }

    /** A new node, behind the last child of `n`. */
    method Append(n: nat, name: string, dir: bool, length: nat, data: int) returns (m: nat)
      requires TrieOk(Tree()) && n < |entries|
      modifies this
      ensures old(TrieOk(Tree())) && Tree() == Added(old(Tree()), n, name, dir, length, data) && m == |old(entries)|
      ensures |entries| == m + 1
    {
      ghost var t := Tree();
      OldKids(t, n);
      m := |entries|;
      var link := entries[n].ptr;
      if link == -1 {
        entries := entries[n := entries[n].(ptr := m)];
      } else {
        ghost var i := 0;
        IsKid(t, n, 0);
        while entries[link].next != -1
          invariant Tree() == t
          invariant 0 <= i < |kids[n]| && link == kids[n][i] && 0 <= link < |entries|
          invariant entries[link].next == Nth(kids[n], i + 1)
          decreases |kids[n]| - i
        {
          IsKid(t, n, i + 1);
          link := entries[link].next;
          i := i + 1;
        }
        entries := entries[link := entries[link].(next := m)];
      }
      entries := entries + [Entry(name, dir, length, data, -1, -1, n)];
      kids := kids[n := kids[n] + [m]] + [[]];
      at := at + [at[n] + [name]];
    }

    /** The first loop of find_parent: how many components there are. */
    method Levels(path: string) returns (levels: nat)
      requires |path| <= MAX_PATH
      ensures levels == |Names(path)|
    {
      hide Names, Component;
      levels := 0;
      NamesAreComponents(path, 0);
      var p := GetPathLevel(path, levels);
      levels := levels + 1;
      while p != None
        invariant 1 <= levels <= |Names(path)| + 1
        invariant p == None <==> levels == |Names(path)| + 1
        decreases |Names(path)| + 1 - levels
      {
        NamesAreComponents(path, levels);
        p := GetPathLevel(path, levels);
        levels := levels + 1;
      }
      levels := levels - 1;
    }

    /** find_parent: the directory of a path, with the directories that were missing. */
    method FindParent(path: string) returns (node: nat, made: nat)
      requires TrieOk(Tree()) && |path| <= MAX_PATH
      modifies this
      ensures Extends(old(Tree()), Tree(), Names(path)) && made == |entries| - |old(entries)|
      ensures node < |entries| && at[node] == if Names(path) == [] then [] else Names(path)[..|Names(path)| - 1]
    {
      hide Names, Component, TrieOk;
      var levels := Levels(path);
      ghost var names, t := Names(path), Tree();
      ExtendsSelf(t, names);
      Sizes(t);
      RootNames(t);
      var i := 0;
      NamesAreComponents(path, 0);
      var p := GetPathLevel(path, i);
      i := i + 1;
      node, made := 0, 0;
      while p != None && i < levels
        invariant 1 <= i && (i <= |names| || (names == [] && i == 1)) && Extends(t, Tree(), names)
        invariant made == |entries| - |t.entries|
        invariant p == if i <= |names| then Some(names[i - 1]) else None
        invariant TrieOk(Tree()) && |at| == |entries| && node < |entries| && at[node] == names[..i - 1]
        decreases levels - i
      {
        var next := Search(node, p.value);
        ghost var j := i - 1;
        if next == -1 {
          NotThere(Tree(), node, p.value);
          ExtendsAdded(t, Tree(), names, node, j);
          next := Append(node, p.value, true, 0, 0);
          made := made + 1;
        } else {
          FindByNames(Tree(), node, p.value, next);
          assert names[..j] + [names[j]] == names[..j + 1];
        }
        Sizes(Tree());
        node := next;
        NamesAreComponents(path, i);
        p := GetPathLevel(path, i);
        i := i + 1;
      }
    }

    /** One turn of the first loop of main: `k` is the position of the file and `offset` where its bytes will be. */
    method AddFile(f: Source, offset: nat, ghost fs: seq<Source>, ghost nodes: seq<nat>) returns (node: nat, made: nat)
      requires Built(Tree(), fs, nodes) && offset == Offset(fs, |fs|) && Addable(fs, f)
      modifies this
      ensures Built(Tree(), fs + [f], nodes + [node]) && made == |entries| - |old(entries)|
    {
      hide Names, TrieOk, Split;
      ghost var t, names := Tree(), Names(f.path);
      var parent;
      parent, made := FindParent(f.path);
      ghost var u := Tree();
      FileName(f.path);
      FileIsNew(t, u, fs, nodes, f);
      var name := Filename(f.path);
      node := Append(parent, name, false, |f.bytes|, offset);
      made := made + 1;
      FileAdded(t, u, fs, nodes, f, parent);
    }

    /** The first loop of main over all pairs of arguments. */
    method Build(fs: seq<Source>) returns (ghost nodes: seq<nat>, count: nat)
      requires Tree() == Root() && AllAddable(fs)
      modifies this
      ensures Built(Tree(), fs, nodes) && count == |entries|
    {
      hide Built, Addable, Offset;
      nodes, count := [], 1;
      var i, offset := 0, 0;
      NothingBuilt();
      while i < |fs|
        invariant 0 <= i <= |fs| && Built(Tree(), fs[..i], nodes) && offset == Offset(fs[..i], i) && count == |entries|
      {
        assert Addable(fs[..i], fs[i]);
        var node, made := AddFile(fs[i], offset, fs[..i], nodes);
        nodes, count := nodes + [node], count + made;
        assert fs[..i] + [fs[i]] == fs[..i + 1];
        OffsetOne(fs, i);
        offset := offset + |fs[i].bytes|;
        i := i + 1;
      }
      assert fs[..i] == fs;
    }
  }

  lemma ExtendsSelf(t: Trie, names: seq<string>)
    requires TrieOk(t)
    ensures Extends(t, t, names)
  {
  }

  lemma RootNames(t: Trie)
    requires TrieOk(t)
    ensures t.at != [] && t.at[0] == [] && t.entries != [] && t.entries[0].dir
  {
  }

  /** If no child has the name, no node has the names. */
  lemma NotThere(t: Trie, n: nat, name: string)
    requires TrieOk(t) && n < |t.entries| && (forall i :: 0 <= i < |t.kids[n]| ==> t.kids[n][i] < |t.entries|)
    requires FindKid(t, t.kids[n], name) == -1
    ensures forall k :: 0 <= k < |t.entries| ==> t.at[k] != t.at[n] + [name]
  {
    hide TrieOk, FindKid;
    Sizes(t);
    forall k | 0 <= k < |t.entries| ensures t.at[k] != t.at[n] + [name] { FindByNames(t, n, name, k); }
  }

  // ---- Which lists of files ----

  /** Only names that a walk can follow, and a name at the end. */
  predicate WellFormed(path: string)
  {
    && |path| <= MAX_PATH && Names(path) != [] && Names(path) == Split(Strip(path))
    && forall i :: 0 <= i < |Names(path)| ==> Names(path)[i] != "." && Names(path)[i] != ".."
  }

  /** Neither path leads through the other or to the same place. */
  predicate Unrelated(a: Source, b: Source)
  {
    !(Names(a.path) <= Names(b.path)) && !(Names(b.path) <= Names(a.path))
  }

  ghost predicate Addable(fs: seq<Source>, f: Source)
  {
    WellFormed(f.path) && forall i :: 0 <= i < |fs| ==> Unrelated(fs[i], f)
  }

  ghost predicate AllAddable(fs: seq<Source>)
  {
    forall i :: 0 <= i < |fs| ==> Addable(fs[..i], fs[i])
  }

  /** The bytes of the files before position `i`. */
  function Offset(fs: seq<Source>, i: nat): nat
    requires i <= |fs|
  {
    if i == 0 then 0 else Offset(fs, i - 1) + |fs[i - 1].bytes|
  }

  /** Node `m` is file `i`. */
  predicate IsFile(t: Trie, fs: seq<Source>, i: nat, m: nat)
    requires i < |fs| && |t.at| == |t.entries|
  {
    && m < |t.entries| && t.at[m] == Names(fs[i].path)
    && !t.entries[m].dir && t.entries[m].length == |fs[i].bytes| && t.entries[m].data == Offset(fs, i)
  }

  /** A directory on the way to some file, or one of the files. */
  predicate Accounted(t: Trie, fs: seq<Source>, nodes: seq<nat>, m: nat)
    requires m < |t.entries| && |t.at| == |t.entries|
  {
    if t.entries[m].dir
    then t.entries[m].length == 0 && exists i :: 0 <= i < |fs| && ProperPrefix(t.at[m], Names(fs[i].path))
    else m in nodes
  }

  /** The tree holds exactly the files, at `nodes`, and the directories that lead to them. */
  ghost predicate Built(t: Trie, fs: seq<Source>, nodes: seq<nat>)
  {
    && TrieOk(t) && |nodes| == |fs|
    && (forall i :: 0 <= i < |fs| ==> IsFile(t, fs, i, nodes[i]))
    && (forall m :: 0 < m < |t.entries| ==> Accounted(t, fs, nodes, m))
    && (forall i :: 0 <= i < |fs| ==> WellFormed(fs[i].path))
  }

  lemma NothingBuilt()
    ensures Built(Root(), [], []) && Offset([], 0) == 0
  {
    RootOk();
  }

  lemma {:induction false} OffsetPrefix(fs: seq<Source>, f: Source, i: nat)
    requires i <= |fs|
    ensures Offset(fs + [f], i) == Offset(fs, i)
  {
    if i > 0 { OffsetPrefix(fs, f, i - 1); }
  }

  lemma OffsetOne(fs: seq<Source>, i: nat)
    requires i < |fs|
    ensures Offset(fs[..i + 1], i + 1) == Offset(fs[..i], i) + |fs[i].bytes|
  {
    assert fs[..i + 1] == fs[..i] + [fs[i]];
    OffsetPrefix(fs[..i], fs[i], i);
  }

  /** The parent's names and the file name are the names of the path. */
  lemma FileName(path: string)
    requires WellFormed(path)
    ensures Names(path)[..|Names(path)| - 1] + [Last(Split(path))] == Names(path)
  {
    hide Split, Names;
    NamesNotEmpty(path);
    StripKeepsLast(path);
  }

  lemma NamesNotEmpty(path: string)
    requires Names(path) != []
    ensures Strip(path) != ""
  {
  }

  lemma FileIsNew(t: Trie, u: Trie, fs: seq<Source>, nodes: seq<nat>, f: Source)
    requires Built(t, fs, nodes) && Extends(t, u, Names(f.path)) && Addable(fs, f)
    ensures forall k :: 0 <= k < |u.entries| ==> u.at[k] != Names(f.path)
  {
    hide TrieOk, Names;
    Sizes(t);
    Sizes(u);
    RootNames(t);
    forall k | 0 <= k < |u.entries| ensures u.at[k] != Names(f.path) {
      if 0 < k < |t.entries| {
        assert Same(t, u, k) && Accounted(t, fs, nodes, k);
        if t.entries[k].dir {
          var i :| 0 <= i < |fs| && ProperPrefix(t.at[k], Names(fs[i].path));
          assert Unrelated(fs[i], f);
        } else {
          var i :| 0 <= i < |nodes| && nodes[i] == k;
          assert IsFile(t, fs, i, nodes[i]) && Unrelated(fs[i], f);
        }
      } else if k == 0 {
        assert Same(t, u, k);
      }
    }
  }

  /** The files stay, and the new one is there. */
  lemma FileStays(t: Trie, u: Trie, fs: seq<Source>, nodes: seq<nat>, f: Source, parent: nat, name: string, i: nat)
    requires Built(t, fs, nodes) && Extends(t, u, Names(f.path)) && parent < |u.entries| && i <= |fs|
    requires u.at[parent] + [name] == Names(f.path)
    ensures var r := Added(u, parent, name, false, |f.bytes|, Offset(fs, |fs|));
            |r.at| == |r.entries| && IsFile(r, fs + [f], i, (nodes + [|u.entries|])[i])
  {
    hide TrieOk, Names, Added, WellFormed, Accounted;
    var at_ := Offset(fs, |fs|);
    Sizes(t);
    Sizes(u);
    AddedEntry(u, parent, name, false, |f.bytes|, at_, 0);
    OffsetPrefix(fs, f, i);
    if i < |fs| {
      assert IsFile(t, fs, i, nodes[i]);
      assert Same(t, u, nodes[i]);
      AddedEntry(u, parent, name, false, |f.bytes|, at_, nodes[i]);
    }
  }

  /** Every node is still a file or on the way to one. */
  lemma NodeStays(t: Trie, u: Trie, fs: seq<Source>, nodes: seq<nat>, f: Source, parent: nat, name: string, m: nat)
    requires Built(t, fs, nodes) && Extends(t, u, Names(f.path)) && parent < |u.entries| && 0 < m <= |u.entries|
    ensures var r := Added(u, parent, name, false, |f.bytes|, Offset(fs, |fs|));
            |r.at| == |r.entries| && m < |r.entries| && Accounted(r, fs + [f], nodes + [|u.entries|], m)
  {
    hide TrieOk, Names, Added, WellFormed, IsFile, Offset;
    var at_, gs, ns := Offset(fs, |fs|), fs + [f], nodes + [|u.entries|];
    Sizes(t);
    Sizes(u);
    AddedEntry(u, parent, name, false, |f.bytes|, at_, 0);
    if m == |u.entries| {
      assert ns[|nodes|] == m;
    } else {
      AddedEntry(u, parent, name, false, |f.bytes|, at_, m);
      if m < |t.entries| {
        assert Same(t, u, m) && Accounted(t, fs, nodes, m);
        OneFileMore(fs, nodes, f, |u.entries|, t.at[m], m);
      } else {
        assert gs[|fs|] == f;
      }
    }
  }

  lemma OneFileMore(fs: seq<Source>, nodes: seq<nat>, f: Source, node: nat, names: seq<string>, m: nat)
    ensures (exists i :: 0 <= i < |fs| && ProperPrefix(names, Names(fs[i].path))) ==>
              exists i :: 0 <= i < |fs + [f]| && ProperPrefix(names, Names((fs + [f])[i].path))
    ensures m in nodes ==> m in nodes + [node]
  {
    hide Names;
    if i :| 0 <= i < |fs| && ProperPrefix(names, Names(fs[i].path)) {
      assert (fs + [f])[i] == fs[i];
    }
  }

  /** The tree with file `f` at the end of its directory. */
  ghost function WithFile(u: Trie, fs: seq<Source>, f: Source, parent: nat): Trie
    requires TrieOk(u) && parent < |u.entries|
  {
    Added(u, parent, Last(Split(f.path)), false, |f.bytes|, Offset(fs, |fs|))
  }

  lemma FilesStay(t: Trie, u: Trie, fs: seq<Source>, nodes: seq<nat>, f: Source, parent: nat)
    requires Built(t, fs, nodes) && Extends(t, u, Names(f.path)) && parent < |u.entries|
    requires u.at[parent] + [Last(Split(f.path))] == Names(f.path)
    ensures var r, gs, ns := WithFile(u, fs, f, parent), fs + [f], nodes + [|u.entries|];
            |r.at| == |r.entries| && forall i :: 0 <= i < |gs| ==> IsFile(r, gs, i, ns[i])
  {
    hide TrieOk, Names, Split, Added, WellFormed, IsFile, Accounted, Offset;
    var r, gs, ns := WithFile(u, fs, f, parent), fs + [f], nodes + [|u.entries|];
    AddedEntry(u, parent, Last(Split(f.path)), false, |f.bytes|, Offset(fs, |fs|), 0);
    forall i | 0 <= i < |gs| ensures IsFile(r, gs, i, ns[i]) {
      FileStays(t, u, fs, nodes, f, parent, Last(Split(f.path)), i);
    }
  }

  lemma NodesStay(t: Trie, u: Trie, fs: seq<Source>, nodes: seq<nat>, f: Source, parent: nat)
    requires Built(t, fs, nodes) && Extends(t, u, Names(f.path)) && parent < |u.entries|
    ensures var r := WithFile(u, fs, f, parent);
            && |r.at| == |r.entries|
            && forall m :: 0 < m < |r.entries| ==> Accounted(r, fs + [f], nodes + [|u.entries|], m)
  {
    hide TrieOk, Names, Split, Added, WellFormed, IsFile, Accounted, Offset;
    var r := WithFile(u, fs, f, parent);
    AddedEntry(u, parent, Last(Split(f.path)), false, |f.bytes|, Offset(fs, |fs|), 0);
    forall m | 0 < m < |r.entries| ensures Accounted(r, fs + [f], nodes + [|u.entries|], m) {
      NodeStays(t, u, fs, nodes, f, parent, Last(Split(f.path)), m);
    }
  }

  lemma PathsStay(t: Trie, fs: seq<Source>, nodes: seq<nat>, f: Source)
    requires Built(t, fs, nodes) && WellFormed(f.path)
    ensures |nodes| == |fs| && forall i :: 0 <= i < |fs + [f]| ==> WellFormed((fs + [f])[i].path)
  {
    hide WellFormed, IsFile, Accounted, TrieOk;
  }

  lemma FileAdded(t: Trie, u: Trie, fs: seq<Source>, nodes: seq<nat>, f: Source, parent: nat)
    requires Built(t, fs, nodes) && Extends(t, u, Names(f.path)) && Addable(fs, f) && parent < |u.entries|
    requires u.at[parent] + [Last(Split(f.path))] == Names(f.path)
    requires forall k :: 0 <= k < |u.entries| ==> u.at[k] != Names(f.path)
    ensures Built(WithFile(u, fs, f, parent), fs + [f], nodes + [|u.entries|])
  {
    hide TrieOk, Names, Split, Added, WellFormed, IsFile, Accounted, Offset, Unrelated;
    FilesStay(t, u, fs, nodes, f, parent);
    NodesStay(t, u, fs, nodes, f, parent);
    PathsStay(t, fs, nodes, f);
    AddedOk(u, parent, Last(Split(f.path)), false, |f.bytes|, Offset(fs, |fs|));
  }
}
