/**
 Resolving a path to a node and printing the path of a node (kernel/vfs.c), on
 directories without driver hooks.
 */
module Vfs {
  import opened Values
  import opened Paths

  const MAX_PATH_NODES: nat := 64

  /** Children are in sibling-list order. */
  datatype Node = Node(name: string, parent: nat, children: seq<nat>, directory: bool)

  /** Node 0 is the root; `mounted` are the nodes of the file system mounted on it. */
  datatype Tree = Tree(nodes: map<nat, Node>, mounted: seq<nat>)

  const ROOT: nat := 0

  predicate Closed(t: Tree)
  {
    && ROOT in t.nodes
    && (forall n :: n in t.nodes ==> t.nodes[n].parent in t.nodes)
    && (forall n, i :: n in t.nodes && 0 <= i < |t.nodes[n].children| ==> t.nodes[n].children[i] in t.nodes)
    && (forall i :: 0 <= i < |t.mounted| ==> t.mounted[i] in t.nodes)
  }

  // ---- Looking a name up ----

  function FindIn(t: Tree, list: seq<nat>, name: string): (r: Option<nat>)
    requires forall i :: 0 <= i < |list| ==> list[i] in t.nodes
    ensures r.Some? ==> r.value in list && t.nodes[r.value].name == name
    ensures r.None? ==> forall i :: 0 <= i < |list| ==> t.nodes[list[i]].name != name
  {
    if list == [] then None else if t.nodes[list[0]].name == name then Some(list[0]) else FindIn(t, list[1..], name)
  }

  /** vfs_finddir: the node's own children come before what is mounted on the root. */
  function Lookup(t: Tree, n: nat, name: string): (r: Option<nat>)
    requires Closed(t) && n in t.nodes
    ensures r.Some? ==> r.value in t.nodes
  {
    var own := FindIn(t, t.nodes[n].children, name);
    if own.Some? || n != ROOT then own else FindIn(t, t.mounted, name)
  }

  /** Where a walk ends: at a node, at a directory without the next name, or above the root. */
  datatype Outcome = Found(n: nat) | Missing(last: nat) | AboveRoot

  function Walk(t: Tree, n: nat, names: seq<string>): (r: Outcome)
    requires Closed(t) && n in t.nodes
    ensures r.Found? ==> r.n in t.nodes
    ensures r.Missing? ==> r.last in t.nodes
    decreases |names|
  {
    if names == [] then Found(n)
    else if names[0] == ".." then (if n == ROOT then AboveRoot else Walk(t, t.nodes[n].parent, names[1..]))
    else if names[0] == "." then Walk(t, n, names[1..])
    else
      var next := Lookup(t, n, names[0]);
      if next.None? then Missing(n) else Walk(t, next.value, names[1..])
  }

  /** Every node the walk looks a name up in is a directory. */
  predicate Walkable(t: Tree, n: nat, names: seq<string>)
    requires Closed(t) && n in t.nodes
    decreases |names|
  {
    if names == [] then true
    else if names[0] == ".." then (n == ROOT || Walkable(t, t.nodes[n].parent, names[1..]))
    else if names[0] == "." then Walkable(t, n, names[1..])
    else
      t.nodes[n].directory &&
      var next := Lookup(t, n, names[0]);
      next.None? || Walkable(t, next.value, names[1..])
  }

  /** Where a path starts. */
  function Start(cwd: nat, path: string): nat
  {
    if path != "" && path[0] == '/' then ROOT else cwd
  }

  /** What vfs_open resolves to; a path without components is the root, whatever the working directory. */
  function Resolve(t: Tree, cwd: nat, path: string): (r: Outcome)
    requires Closed(t) && cwd in t.nodes
  {
    if Names(path) == [] then Found(ROOT) else Walk(t, Start(cwd, path), Names(path))
  }

  /**
   The reference counts after vfs_open: a node that is found gains one, and so does the directory
   without the name.
   */
  function Counted(refs: map<nat, int>, o: Outcome): map<nat, int>
    requires o.Found? ==> o.n in refs
    requires o.Missing? ==> o.last in refs
  {
    match o
    case Found(n) => refs[n := refs[n] + 1]
    case Missing(last) => refs[last := refs[last] + 1]
    case AboveRoot => refs
  }

  // ---- The two ways of a path ----

  /** `chain` goes from the root to a node, each one found under its name in the one before. */
  predicate Chain(t: Tree, chain: seq<nat>)
    requires Closed(t)
  {
    && chain != [] && chain[0] == ROOT
    && (forall i :: 0 <= i < |chain| ==> chain[i] in t.nodes)
    && (forall i :: 0 <= i < |chain| - 1 ==> Under(t, chain[i], chain[i + 1]))
  }

  /** `m` is a child of the directory `n`, the only one with its name, and the name can be part of a path. */
  predicate Under(t: Tree, n: nat, m: nat)
    requires Closed(t)
  {
    && n in t.nodes && m in t.nodes && m != ROOT
    && t.nodes[n].directory && t.nodes[m].parent == n && m in t.nodes[n].children
    && (forall i :: 0 <= i < |t.nodes[n].children| && t.nodes[t.nodes[n].children[i]].name == t.nodes[m].name ==>
           t.nodes[n].children[i] == m)
    && Plain(t.nodes[m].name) && t.nodes[m].name != "." && t.nodes[m].name != ".."
  }

  function NamesOf(t: Tree, chain: seq<nat>): (r: seq<string>)
    requires forall i :: 0 <= i < |chain| ==> chain[i] in t.nodes
    ensures |r| == |chain| && forall i :: 0 <= i < |chain| ==> r[i] == t.nodes[chain[i]].name
  {
    seq(|chain|, i requires 0 <= i < |chain| => t.nodes[chain[i]].name)
  }

  /** What vfs_get_path prints. */
  function PathOf(t: Tree, chain: seq<nat>): string
    requires Closed(t) && Chain(t, chain)
  {
    if |chain| == 1 then "/" else Joined(NamesOf(t, chain[1..]))
  }

  lemma LookupChild(t: Tree, n: nat, m: nat)
    requires Closed(t) && Under(t, n, m)
    ensures Lookup(t, n, t.nodes[m].name) == Some(m)
  {
  }

  lemma {:induction false} WalkChain(t: Tree, chain: seq<nat>, k: nat)
    requires Closed(t) && Chain(t, chain) && k < |chain|
    ensures Walk(t, chain[k], NamesOf(t, chain[k + 1..])) == Found(chain[|chain| - 1])
    ensures Walkable(t, chain[k], NamesOf(t, chain[k + 1..]))
    decreases |chain| - k
  {
    hide Closed, Lookup, NamesOf;
    if k + 1 < |chain| {
      assert Under(t, chain[k], chain[k + 1]);
      LookupChild(t, chain[k], chain[k + 1]);
      WalkChain(t, chain, k + 1);
      var names := NamesOf(t, chain[k + 1..]);
      assert names[0] == t.nodes[chain[k + 1]].name;
      assert names[1..] == NamesOf(t, chain[k + 2..]);
    }
  }

  /** Opening the printed path of a node finds the node. */
  lemma OpenThePath(t: Tree, chain: seq<nat>, cwd: nat)
    requires Closed(t) && Chain(t, chain) && cwd in t.nodes
    ensures Resolve(t, cwd, PathOf(t, chain)) == Found(chain[|chain| - 1])
    ensures Names(PathOf(t, chain)) == NamesOf(t, chain[1..]) && Walkable(t, ROOT, Names(PathOf(t, chain)))
  {
    hide Names, Joined, NamesOf, Closed, Under, Walk, Walkable, Plain;
    var names := NamesOf(t, chain[1..]);
    PlainNames(t, chain);
    NamesOfJoined(names);
    WalkChain(t, chain, 0);
    if |chain| == 1 {
      SlashHasNoNames();
    } else {
      JoinedStarts(names);
    }
  }

  lemma SlashHasNoNames()
    ensures Names("/") == []
  {
    assert Split(Strip("/")) == [""];
  }

  lemma JoinedStarts(names: seq<string>)
    requires names != []
    ensures Joined(names) != "" && Joined(names)[0] == '/'
  {
  }

  lemma PlainNames(t: Tree, chain: seq<nat>)
    requires Closed(t) && Chain(t, chain)
    ensures forall i :: 0 <= i < |chain[1..]| ==> Plain(NamesOf(t, chain[1..])[i])
  {
    forall i | 0 <= i < |chain[1..]| ensures Plain(NamesOf(t, chain[1..])[i]) {
      assert Under(t, chain[i], chain[i + 1]);
    }
  }

  // ---- Opens that fail ----

  /** The names before position `j` lead to the root, and then one climbs. */
  predicate ClimbsAt(t: Tree, n: nat, names: seq<string>, j: nat)
    requires Closed(t) && n in t.nodes && j < |names|
  {
    names[j] == ".." && Walk(t, n, names[..j]) == Found(ROOT)
  }

  /** The names before position `j` lead to a directory that does not have the next one. */
  predicate MissesAt(t: Tree, n: nat, names: seq<string>, j: nat, last: nat)
    requires Closed(t) && n in t.nodes && j < |names|
  {
    && names[j] != "." && names[j] != ".." && Walk(t, n, names[..j]) == Found(last)
    && last in t.nodes && Lookup(t, last, names[j]) == None
  }

  /** The node one name further, unless the name is missing or above the root. */
  function Next(t: Tree, n: nat, name: string): Option<nat>
    requires Closed(t) && n in t.nodes
  {
    if name == ".." then (if n == ROOT then None else Some(t.nodes[n].parent))
    else if name == "." then Some(n)
    else Lookup(t, n, name)
  }

  /** A walk of several names that gets past the first one. */
  lemma WalkOn(t: Tree, n: nat, names: seq<string>, j: nat)
    requires Closed(t) && n in t.nodes && 0 < j <= |names|
    ensures Next(t, n, names[0]).Some? ==>
              && Next(t, n, names[0]).value in t.nodes
              && Walk(t, n, names[..j]) == Walk(t, Next(t, n, names[0]).value, names[1..][..j - 1])
    ensures Next(t, n, names[0]).None? ==> !Walk(t, n, names[..j]).Found?
  {
    hide Lookup;
    assert names[..j][0] == names[0] && names[..j][1..] == names[1..][..j - 1];
  }

  /** Where a walk that fails has failed. */
  lemma {:induction false} WalkFails(t: Tree, n: nat, names: seq<string>)
    requires Closed(t) && n in t.nodes
    ensures Walk(t, n, names) == AboveRoot <==> exists j :: 0 <= j < |names| && ClimbsAt(t, n, names, j)
    ensures Walk(t, n, names).Missing? ==>
              exists j :: 0 <= j < |names| && MissesAt(t, n, names, j, Walk(t, n, names).last)
    decreases |names|
  {
    hide Lookup, Closed;
    if names != [] {
      var next := Next(t, n, names[0]);
      assert names[..0] == [];
      assert names[..|names|] == names && names[1..][..|names| - 1] == names[1..];
      NextIsNode(t, n, names[0]);
      if next.None? {
        if j :| 0 < j < |names| && ClimbsAt(t, n, names, j) { WalkOn(t, n, names, j); }
        if names[0] == ".." { assert ClimbsAt(t, n, names, 0); } else { assert MissesAt(t, n, names, 0, n); }
      } else {
        var m, rest := next.value, names[1..];
        WalkFails(t, m, rest);
        WalkOn(t, n, names, |names|);
        if j :| 0 <= j < |rest| && ClimbsAt(t, m, rest, j) {
          WalkOn(t, n, names, j + 1);
          assert ClimbsAt(t, n, names, j + 1);
        }
        if j :| 0 <= j < |names| && ClimbsAt(t, n, names, j) {
          if j > 0 { WalkOn(t, n, names, j); assert ClimbsAt(t, m, rest, j - 1); }
        }
        if Walk(t, m, rest).Missing? {
          var j :| 0 <= j < |rest| && MissesAt(t, m, rest, j, Walk(t, m, rest).last);
          WalkOn(t, n, names, j + 1);
          assert MissesAt(t, n, names, j + 1, Walk(t, n, names).last);
        }
      }
    }
  }

  lemma NextIsNode(t: Tree, n: nat, name: string)
    requires Closed(t) && n in t.nodes
    ensures Next(t, n, name).Some? ==> Next(t, n, name).value in t.nodes
    ensures ROOT in t.nodes
  {
  }

  /** An open that finds nothing leaves every reference count alone exactly when its path climbs above the root. */
  lemma FailedOpen(t: Tree, refs: map<nat, int>, cwd: nat, path: string)
    requires Closed(t) && cwd in t.nodes && refs.Keys == t.nodes.Keys && !Resolve(t, cwd, path).Found?
    ensures Counted(refs, Resolve(t, cwd, path)) == refs <==>
            exists j :: 0 <= j < |Names(path)| && ClimbsAt(t, Start(cwd, path), Names(path), j)
  {
    hide Names, Walk, ClimbsAt, MissesAt;
    WalkFails(t, Start(cwd, path), Names(path));
    var o := Resolve(t, cwd, path);
    if o.Missing? { assert Counted(refs, o)[o.last] == refs[o.last] + 1; }
  }

  /** A root without files, and the open of a file: nothing is returned and the root has a reference more. */
  lemma MissingNameIsCounted(refs: int)
    ensures var t := Tree(map[ROOT := Node("", ROOT, [], true)], []);
            && Closed(t) && Resolve(t, ROOT, "/x") == Missing(ROOT)
            && Counted(map[ROOT := refs], Resolve(t, ROOT, "/x")) == map[ROOT := refs + 1]
  {
    OneName("x");
  }

  lemma OneName(name: string)
    requires Plain(name)
    ensures Names("/" + name) == [name]
  {
    hide Names;
    NamesOfJoined([name]);
    assert Joined([name]) == "/" + name;
  }

  /** Only the empty path is not resolved from the directory it starts at, and only when that is not the root. */
  lemma EmptyPathOpens(t: Tree, cwd: nat, path: string)
    requires Closed(t) && cwd in t.nodes
    ensures Resolve(t, cwd, path) == Walk(t, Start(cwd, path), Names(path)) <==> path != "" || cwd == ROOT
  {
    hide Names;
    if path != "" && path[0] != '/' { RelativeHasName(path); }
    if path == "" { EmptyPath(); }
  }

  /** From a directory below the root, the empty path opens the root. */
  lemma EmptyPathLeaves()
    ensures var t := Tree(map[ROOT := Node("", ROOT, [1], true), 1 := Node("d", ROOT, [], true)], []);
            Closed(t) && Resolve(t, 1, "") == Found(ROOT) && Walk(t, Start(1, ""), Names("")) == Found(1)
  {
    EmptyPath();
  }

  lemma RelativeHasName(path: string)
    requires path != "" && path[0] != '/'
    ensures Names(path) != []
  {
  }

  // ---- Where names lead ----

  /** `m` is the first of the list with the name. */
  ghost predicate FirstNamed(t: Tree, list: seq<nat>, name: string, m: nat)
    requires forall i :: 0 <= i < |list| ==> list[i] in t.nodes
  {
    exists i :: && 0 <= i < |list| && list[i] == m && t.nodes[m].name == name
                && forall j :: 0 <= j < i ==> t.nodes[list[j]].name != name
  }

  predicate NoneNamed(t: Tree, list: seq<nat>, name: string)
    requires forall i :: 0 <= i < |list| ==> list[i] in t.nodes
  {
    forall i :: 0 <= i < |list| ==> t.nodes[list[i]].name != name
  }

  lemma {:induction false} FindInIsFirst(t: Tree, list: seq<nat>, name: string)
    requires forall i :: 0 <= i < |list| ==> list[i] in t.nodes
    ensures FindIn(t, list, name).None? <==> NoneNamed(t, list, name)
    ensures FindIn(t, list, name).Some? ==> FirstNamed(t, list, name, FindIn(t, list, name).value)
  {
    if list != [] && t.nodes[list[0]].name != name {
      FindInIsFirst(t, list[1..], name);
      if FindIn(t, list, name).Some? {
        var m := FindIn(t, list, name).value;
        var i :| && 0 <= i < |list[1..]| && list[1..][i] == m
                 && forall j :: 0 <= j < i ==> t.nodes[list[1..][j]].name != name;
        assert list[i + 1] == m;
        assert forall j :: 0 < j < i + 1 ==> t.nodes[list[j]].name == t.nodes[list[1..][j - 1]].name;
      }
    }
  }

  /**
   What vfs_finddir finds: the first child with the name; in the root, when no child has it, the first
   node of the mounted file system that does; and nothing else.
   */
  lemma LookupIs(t: Tree, n: nat, name: string)
    requires Closed(t) && n in t.nodes
    ensures var r := Lookup(t, n, name); var children := t.nodes[n].children;
            && (!NoneNamed(t, children, name) ==> r.Some? && FirstNamed(t, children, name, r.value))
            && (NoneNamed(t, children, name) && n == ROOT && !NoneNamed(t, t.mounted, name) ==>
                  r.Some? && FirstNamed(t, t.mounted, name, r.value))
            && (NoneNamed(t, children, name) && (n != ROOT || NoneNamed(t, t.mounted, name)) ==> r.None?)
  {
    hide FindIn, FirstNamed, NoneNamed;
    FindInIsFirst(t, t.nodes[n].children, name);
    FindInIsFirst(t, t.mounted, name);
  }

  /** Below the root `..` leads to the parent; `.` leads nowhere else. */
  lemma DotsLead(t: Tree, n: nat, names: seq<string>)
    requires Closed(t) && n in t.nodes
    ensures Walk(t, n, ["."] + names) == Walk(t, n, names)
    ensures Walk(t, n, [".."] + names) == if n == ROOT then AboveRoot else Walk(t, t.nodes[n].parent, names)
  {
    assert (["."] + names)[1..] == names && ([".."] + names)[1..] == names;
  }

  /** Going down to a child and up again is going nowhere. */
  lemma DownAndUp(t: Tree, n: nat, m: nat, names: seq<string>)
    requires Closed(t) && Under(t, n, m)
    ensures Walk(t, n, [t.nodes[m].name] + ([".."] + names)) == Walk(t, n, names)
  {
    hide Lookup, Closed;
    LookupChild(t, n, m);
    DotsLead(t, m, names);
    var all := [t.nodes[m].name] + ([".."] + names);
    assert all[0] == t.nodes[m].name && all[1..] == [".."] + names;
  }

  /** Opening a node and closing it again leaves every reference count as it was. */
  lemma OpenThenClose(t: Tree, refs: map<nat, int>, cwd: nat, path: string)
    requires Closed(t) && cwd in t.nodes && refs.Keys == t.nodes.Keys && Resolve(t, cwd, path).Found?
    ensures var n := Resolve(t, cwd, path).n; var after := Counted(refs, Resolve(t, cwd, path));
            n in after && after[n := after[n] - 1] == refs
  {
    hide Walk, Names;
  }
}
