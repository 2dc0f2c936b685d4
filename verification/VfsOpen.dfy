/**
 vfs_finddir, vfs_open, vfs_close and vfs_get_path with their loops (kernel/vfs.c),
 against the functions of module Vfs.
 */
module VfsOpen {
  import opened Values
  import opened Paths
  import opened Vfs

  class FileSystem {
    const tree: Tree
    var refs: map<nat, int>
    var cwd: nat

    ghost predicate Valid()
      reads this
    {
      Closed(tree) && cwd in tree.nodes && refs.Keys == tree.nodes.Keys
    }

    constructor (tree: Tree)
      requires Closed(tree)
      ensures Valid() && this.tree == tree && cwd == ROOT
    {
      this.tree := tree;
      cwd := ROOT;
      refs := map n | n in tree.nodes :: 0;
    }

    method Search(list: seq<nat>, name: string) returns (r: Option<nat>)
      requires forall i :: 0 <= i < |list| ==> list[i] in tree.nodes
      ensures r == FindIn(tree, list, name)
    {
      var i := 0;
      while i < |list| && tree.nodes[list[i]].name != name
        invariant i <= |list| && FindIn(tree, list, name) == FindIn(tree, list[i..], name)
      {
        assert list[i..][1..] == list[i + 1..];
        i := i + 1;
      }
      r := if i < |list| then Some(list[i]) else None;
    }

    /** vfs_finddir */
    method FindDir(n: nat, name: string) returns (r: Option<nat>)
      requires Valid() && n in tree.nodes && tree.nodes[n].directory
      ensures r == Lookup(tree, n, name)
    {
      r := Search(tree.nodes[n].children, name);
      if r.Some? { return; }
      if n == ROOT {
        r := Search(tree.mounted, name);
      }
    }

    /**
     vfs_open. The node found gains a reference; when a name is missing the directory that was to
     hold it gains one although nothing is returned.
     */
    method Open(path: string) returns (r: Option<nat>)
      requires Valid() && |path| <= MAX_PATH
      requires Walkable(tree, Start(cwd, path), Names(path))
      modifies `refs
      ensures Valid()
      ensures var o := Resolve(tree, cwd, path);
              refs == Counted(old(refs), o) && r == if o.Found? then Some(o.n) else None
    {
      hide Names, Component, Lookup, Closed;
      var node := Start(cwd, path);
      ghost var names := Names(path);
      RootIsNode(tree);
      ghost var outcome := Walk(tree, node, names);
      NamesAreComponents(path, 0);
      var i: nat := 0;
      var name := GetPathLevel(path, i);
      i := i + 1;
      if name == None {
        refs := refs[ROOT := refs[ROOT] + 1];
        return Some(ROOT);
      }
      NamedPathIsNotEmpty(path);
      while name != None
        invariant Valid() && node in tree.nodes && refs == old(refs) && 1 <= i <= |names| + 1
        invariant name == if i <= |names| then Some(names[i - 1]) else None
        invariant Walk(tree, node, names[i - 1..]) == outcome && Walkable(tree, node, names[i - 1..])
        decreases |names| + 1 - i
      {
        ghost var j := i;
        var stop: bool;
        node, i, name, stop := Dots(path, node, i, name, outcome);
        if stop { return None; }
        if name == None {
          refs := refs[node := refs[node] + 1];
          return Some(node);
        }
        var next := FindDir(node, name.value);
        if next == None {
          refs := refs[node := refs[node] + 1];
          return None;
        }
        LookupIsNode(tree, node, name.value);
        node := next.value;
        NamesAreComponents(path, i);
        name := GetPathLevel(path, i);
        i := i + 1;
        assert names[i - 2..][1..] == names[i - 1..];
      }
      refs := refs[node := refs[node] + 1];
      r := Some(node);
    }

    /** vfs_close, of a node that is not freed with its last reference. */
    method Close(n: nat)
      requires Valid() && n in tree.nodes
      modifies `refs
      ensures Valid() && refs == old(refs)[n := old(refs)[n] - 1]
    {
      refs := refs[n := refs[n] - 1];
    }

    /** The inner loop: step over `.` and climb with `..`. */
    method Dots(path: string, from: nat, i0: nat, name0: Option<string>, ghost outcome: Outcome)
      returns (node: nat, i: nat, name: Option<string>, stop: bool)
      requires Valid() && |path| <= MAX_PATH && from in tree.nodes && 1 <= i0 <= |Names(path)|
      requires name0 == Some(Names(path)[i0 - 1])
      requires Walk(tree, from, Names(path)[i0 - 1..]) == outcome && Walkable(tree, from, Names(path)[i0 - 1..])
      ensures stop ==> outcome == AboveRoot
      ensures !stop ==> && node in tree.nodes && i0 <= i <= |Names(path)| + 1
                        && name == (if i <= |Names(path)| then Some(Names(path)[i - 1]) else None)
                        && Walk(tree, node, Names(path)[i - 1..]) == outcome
                        && Walkable(tree, node, Names(path)[i - 1..])
                        && (name != None ==> name.value != "." && name.value != "..")
    {
      hide Names, Component, Lookup, Closed;
      ghost var names := Names(path);
      node, i, name, stop := from, i0, name0, false;
      while name != None && (name.value == "." || name.value == "..")
        invariant node in tree.nodes && i0 <= i <= |names| + 1
        invariant name == if i <= |names| then Some(names[i - 1]) else None
        invariant Walk(tree, node, names[i - 1..]) == outcome && Walkable(tree, node, names[i - 1..])
        decreases |names| + 1 - i
      {
        ParentIsNode(tree, node);
        if name.value == ".." {
          if node == ROOT {
            stop := true;
            return;
          }
          node := tree.nodes[node].parent;
        }
        NamesAreComponents(path, i);
        name := GetPathLevel(path, i);
        i := i + 1;
        assert names[i - 2..][1..] == names[i - 1..];
      }
    }

    /** vfs_get_path; `chain` is the way from the root to the node. */
    method GetPath(n: nat, ghost chain: seq<nat>) returns (path: string)
      requires Valid() && Chain(tree, chain) && chain[|chain| - 1] == n && |chain| <= MAX_PATH_NODES
      ensures path == PathOf(tree, chain)
    {
      hide Closed, NamesOf;
      if n == ROOT {
        RootIsFirst(tree, chain);
        return "/";
      }
      ghost var k := |chain| - 1;
      var nodes: seq<nat> := [];
      var node := n;
      ChainUnder(tree, chain, k);
      while node != ROOT
        invariant 0 <= k < |chain| && node == chain[k] && |nodes| + k == |chain| - 1
        invariant forall j :: 0 <= j < |nodes| ==> nodes[j] == chain[|chain| - 1 - j]
        decreases k
      {
        ChainUnder(tree, chain, k);
        nodes := nodes + [node];
        node := tree.nodes[node].parent;
        k := k - 1;
      }
      RootIsFirst(tree, chain[..k + 1]);
      path := Print(nodes, chain);
    }

    /** The loop that writes the names out, last collected first. */
    method Print(nodes: seq<nat>, ghost chain: seq<nat>) returns (path: string)
      requires Valid() && Chain(tree, chain) && |nodes| == |chain| - 1
      requires forall j :: 0 <= j < |nodes| ==> nodes[j] == chain[|chain| - 1 - j]
      ensures path == Joined(NamesOf(tree, chain[1..]))
    {
      hide Closed;
      path := "";
      var i := |nodes|;
      ghost var names := NamesOf(tree, chain[1..]);
      assert names[..0] == [];
      while i > 0
        invariant 0 <= i <= |nodes| && path == Joined(names[..|nodes| - i])
      {
        i := i - 1;
        ghost var k := |nodes| - 1 - i;
        assert nodes[i] == chain[1..][k] && nodes[i] in tree.nodes;
        JoinedOneMore(names, k);
        path := path + "/" + tree.nodes[nodes[i]].name;
      }
      assert names[..|nodes|] == names;
    }
  }

  lemma RootIsNode(t: Tree)
    requires Closed(t)
    ensures ROOT in t.nodes
  {
  }

  lemma ParentIsNode(t: Tree, n: nat)
    requires Closed(t) && n in t.nodes
    ensures t.nodes[n].parent in t.nodes
  {
  }

  lemma LookupIsNode(t: Tree, n: nat, name: string)
    requires Closed(t) && n in t.nodes && Lookup(t, n, name).Some?
    ensures Lookup(t, n, name).value in t.nodes
  {
  }

  lemma NamedPathIsNotEmpty(path: string)
    requires Names(path) != []
    ensures path != ""
  {
  }

  lemma ChainUnder(t: Tree, chain: seq<nat>, k: nat)
    requires Closed(t) && Chain(t, chain) && k < |chain|
    ensures chain[k] in t.nodes && chain[0] == ROOT
    ensures k > 0 ==> chain[k] != ROOT && t.nodes[chain[k]].parent == chain[k - 1]
  {
    if k > 0 { assert Under(t, chain[k - 1], chain[k - 1 + 1]); }
  }

  /** The root is only at the start of a chain. */
  lemma RootIsFirst(t: Tree, chain: seq<nat>)
    requires Closed(t) && Chain(t, chain) && chain[|chain| - 1] == ROOT
    ensures |chain| == 1
  {
    ChainUnder(t, chain, |chain| - 1);
  }

  lemma {:induction false} JoinedConcat(a: seq<string>, b: seq<string>)
    ensures Joined(a + b) == Joined(a) + Joined(b)
  {
    if a == [] {
      assert a + b == b;
    } else {
      assert (a + b)[0] == a[0] && (a + b)[1..] == a[1..] + b;
      JoinedConcat(a[1..], b);
    }
  }

  lemma JoinedOneMore(names: seq<string>, k: nat)
    requires k < |names|
    ensures Joined(names[..k + 1]) == Joined(names[..k]) + "/" + names[k]
  {
    assert names[..k + 1] == names[..k] + [names[k]];
    JoinedConcat(names[..k], [names[k]]);
    assert [names[k]][1..] == [];
  }
}
