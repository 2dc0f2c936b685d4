/**
 The tree that mkinitrd builds (tools/src/mkinitrd/mkinitrd.c): an array of nodes,
 each with a pointer to its first child, its next sibling and its parent.

 Links are positions in the array here, with -1 for null; module InitrdImage is
 about their addresses. `kids` and `at` are what the links mean: the children of
 a node in order, and the names on the way from the root to it.
 */
module Initrd {

  datatype Entry = Entry(name: string, dir: bool, length: nat, data: int, ptr: int, next: int, parent: int)

  datatype Trie = Trie(entries: seq<Entry>, kids: seq<seq<nat>>, at: seq<seq<string>>)

  /** Element `i` of a list, or null past its end. */
  function Nth(list: seq<nat>, i: nat): int
  {
    if i < |list| then list[i] else -1
  }

  predicate Unrepeated(list: seq<nat>)
  {
    forall i, j :: 0 <= i < j < |list| ==> list[i] != list[j]
  }

  /** The children of `n` are chained from its pointer, and know their parent. */
  predicate KidsOk(t: Trie, n: nat)
    requires n < |t.entries| && n < |t.kids|
  {
    && t.entries[n].ptr == Nth(t.kids[n], 0) && Unrepeated(t.kids[n])
    && forall i :: 0 <= i < |t.kids[n]| ==> KidOk(t, n, i)
  }

  predicate KidOk(t: Trie, n: nat, i: nat)
    requires n < |t.entries| && n < |t.kids| && i < |t.kids[n]|
  {
    var m := t.kids[n][i];
    0 < m < |t.entries| && t.entries[m].next == Nth(t.kids[n], i + 1) && t.entries[m].parent == n
  }

  /** A node other than the root is among its parent's children and continues its parent's names. */
  predicate PlaceOk(t: Trie, m: nat)
    requires m < |t.entries| && |t.kids| == |t.entries| && |t.at| == |t.entries|
  {
    var p := t.entries[m].parent;
    0 <= p < |t.entries| && m in t.kids[p] && t.at[m] == t.at[p] + [t.entries[m].name]
  }

  ghost predicate TrieOk(t: Trie)
  {
    && 0 < |t.entries| == |t.kids| == |t.at|
    && t.at[0] == [] && t.entries[0].parent == -1 && t.entries[0].next == -1
    && t.entries[0].dir && t.entries[0].length == 0
    && (forall n :: 0 <= n < |t.entries| ==> KidsOk(t, n))
    && (forall m :: 0 < m < |t.entries| ==> PlaceOk(t, m))
    && (forall m, n :: 0 <= m < n < |t.entries| ==> t.at[m] != t.at[n])
  }

  function Root(): Trie
  {
    Trie([Entry("", true, 0, 0, -1, -1, -1)], [[]], [[]])
  }

  lemma RootOk()
    ensures TrieOk(Root())
  {
  }

  // ---- Adding a node ----

  /** Chaining node `m` behind the last child of `n`. */
  function Chained(es: seq<Entry>, n: nat, kids: seq<nat>, m: int): seq<Entry>
    requires n < |es| && forall i :: 0 <= i < |kids| ==> kids[i] < |es|
  {
    if kids == [] then es[n := es[n].(ptr := m)] else es[kids[|kids| - 1] := es[kids[|kids| - 1]].(next := m)]
  }

  function Added(t: Trie, n: nat, name: string, dir: bool, length: nat, data: int): Trie
    requires TrieOk(t) && n < |t.entries|
  {
    KidsInRange(t, n);
    Trie(Chained(t.entries, n, t.kids[n], |t.entries|) + [Entry(name, dir, length, data, -1, -1, n)],
         t.kids[n := t.kids[n] + [|t.entries|]] + [[]],
         t.at + [t.at[n] + [name]])
  }

  lemma KidsInRange(t: Trie, n: nat)
    requires TrieOk(t) && n < |t.entries|
    ensures forall i :: 0 <= i < |t.kids[n]| ==> 0 < t.kids[n][i] < |t.entries|
  {
    assert KidsOk(t, n);
    forall i | 0 <= i < |t.kids[n]| ensures 0 < t.kids[n][i] < |t.entries| { assert KidOk(t, n, i); }
  }

  /** What adding a node changes in the others: one link. */
  lemma AddedEntry(t: Trie, n: nat, name: string, dir: bool, length: nat, data: int, k: nat)
    requires TrieOk(t) && n < |t.entries| && k < |t.entries|
    ensures var r := Added(t, n, name, dir, length, data); var e := t.entries[k];
            && |r.entries| == |r.kids| == |r.at| == |t.entries| + 1
            && r.entries[|t.entries|] == Entry(name, dir, length, data, -1, -1, n)
            && r.at[k] == t.at[k] && r.at[|t.entries|] == t.at[n] + [name]
            && r.kids[k] == (if k == n then t.kids[k] + [|t.entries|] else t.kids[k]) && r.kids[|t.entries|] == []
            && var last := t.kids[n] != [] && k == t.kids[n][|t.kids[n]| - 1];
            r.entries[k] == e.(ptr := if k == n && t.kids[n] == [] then |t.entries| else e.ptr,
                               next := if last then |t.entries| else e.next)
  {
    KidsInRange(t, n);
  }

  /** No node is child of two nodes. */
  lemma OneParent(t: Trie, n: nat, i: nat, k: nat, j: nat)
    requires TrieOk(t) && n < |t.entries| && k < |t.entries| && i < |t.kids[n]| && j < |t.kids[k]|
    requires t.kids[n][i] == t.kids[k][j]
    ensures n == k && i == j
  {
    assert KidsOk(t, n) && KidsOk(t, k);
    assert KidOk(t, n, i) && KidOk(t, k, j);
  }

  lemma AddedKid(t: Trie, n: nat, name: string, dir: bool, length: nat, data: int, k: nat, i: nat)
    requires TrieOk(t) && n < |t.entries| && k < |t.entries| && i < |t.kids[k]|
    ensures var r := Added(t, n, name, dir, length, data);
            k < |r.entries| && k < |r.kids| && i < |r.kids[k]| && KidOk(r, k, i)
  {
    hide Added, TrieOk;
    Sizes(t);
    KidsInRange(t, k);
    KidsInRange(t, n);
    var r, m := Added(t, n, name, dir, length, data), t.kids[k][i];
    AddedEntry(t, n, name, dir, length, data, k);
    AddedEntry(t, n, name, dir, length, data, m);
    IsKid(t, k, i);
    if t.kids[n] != [] && m == t.kids[n][|t.kids[n]| - 1] { OneParent(t, k, i, n, |t.kids[n]| - 1); }
  }

  lemma IsKid(t: Trie, n: nat, i: nat)
    requires TrieOk(t) && n < |t.entries| && i < |t.kids[n]|
    ensures KidOk(t, n, i)
  {
    assert KidsOk(t, n);
  }

  lemma AddedKids(t: Trie, n: nat, name: string, dir: bool, length: nat, data: int, k: nat)
    requires TrieOk(t) && n < |t.entries| && k <= |t.entries|
    ensures var r := Added(t, n, name, dir, length, data); k < |r.entries| && k < |r.kids| && KidsOk(r, k)
  {
    hide Added, TrieOk;
    Sizes(t);
    var r := Added(t, n, name, dir, length, data);
    AddedEntry(t, n, name, dir, length, data, n);
    if k < |t.entries| {
      AddedEntry(t, n, name, dir, length, data, k);
      OldKids(t, k);
      forall i | 0 <= i < |r.kids[k]| ensures KidOk(r, k, i) {
        if i < |t.kids[k]| { AddedKid(t, n, name, dir, length, data, k, i); }
      }
    }
  }

  lemma Sizes(t: Trie)
    requires TrieOk(t)
    ensures |t.kids| == |t.at| == |t.entries| > 0
  {
  }

  lemma OldKids(t: Trie, k: nat)
    requires TrieOk(t) && k < |t.entries|
    ensures t.entries[k].ptr == Nth(t.kids[k], 0) && Unrepeated(t.kids[k])
    ensures forall i :: 0 <= i < |t.kids[k]| ==> t.kids[k][i] < |t.entries|
  {
    assert KidsOk(t, k);
    KidsInRange(t, k);
  }

  lemma AddedPlace(t: Trie, n: nat, name: string, dir: bool, length: nat, data: int, m: nat)
    requires TrieOk(t) && n < |t.entries| && 0 < m <= |t.entries|
    ensures var r := Added(t, n, name, dir, length, data);
            m < |r.entries| && |r.kids| == |r.entries| && |r.at| == |r.entries| && PlaceOk(r, m)
  {
    hide Added, TrieOk;
    var r := Added(t, n, name, dir, length, data);
    AddedEntry(t, n, name, dir, length, data, n);
    if m < |t.entries| {
      OldPlace(t, m);
      AddedEntry(t, n, name, dir, length, data, m);
      AddedEntry(t, n, name, dir, length, data, t.entries[m].parent);
    }
  }

  lemma OldPlace(t: Trie, m: nat)
    requires TrieOk(t) && 0 < m < |t.entries|
    ensures PlaceOk(t, m) && |t.kids| == |t.entries| && |t.at| == |t.entries|
  {
  }

  /** A node with new names can be added under any node. */
  lemma AddedOk(t: Trie, n: nat, name: string, dir: bool, length: nat, data: int)
    requires TrieOk(t) && n < |t.entries| && forall k :: 0 <= k < |t.entries| ==> t.at[k] != t.at[n] + [name]
    ensures TrieOk(Added(t, n, name, dir, length, data))
  {
    hide Added, KidsOk, PlaceOk;
    var r := Added(t, n, name, dir, length, data);
    AddedEntry(t, n, name, dir, length, data, 0);
    RootIsNoKid(t, n);
    forall k | 0 <= k < |r.entries| ensures KidsOk(r, k) { AddedKids(t, n, name, dir, length, data, k); }
    forall m | 0 < m < |r.entries| ensures PlaceOk(r, m) { AddedPlace(t, n, name, dir, length, data, m); }
    forall m, k | 0 <= m < k < |r.entries| ensures r.at[m] != r.at[k] {
      AddedEntry(t, n, name, dir, length, data, m);
      if k < |t.entries| { AddedEntry(t, n, name, dir, length, data, k); }
    }
  }

  lemma RootIsNoKid(t: Trie, n: nat)
    requires TrieOk(t) && n < |t.entries|
    ensures t.kids[n] != [] ==> t.kids[n][|t.kids[n]| - 1] != 0
  {
    KidsInRange(t, n);
  }

  // ---- Finding a node ----

  /** The loop over siblings: the first with the name, or -1. */
  function FindKid(t: Trie, list: seq<nat>, name: string): (r: int)
    requires forall i :: 0 <= i < |list| ==> list[i] < |t.entries|
    ensures r == -1 ==> forall i :: 0 <= i < |list| ==> t.entries[list[i]].name != name
    ensures r != -1 ==> 0 <= r < |t.entries| && r in list && t.entries[r].name == name
  {
    if list == [] then -1 else if t.entries[list[0]].name == name then list[0] else FindKid(t, list[1..], name)
  }

  /** Looking a name up finds the node with one name more, if there is one. */
  lemma FindByNames(t: Trie, n: nat, name: string, m: nat)
    requires TrieOk(t) && n < |t.entries| && (forall i :: 0 <= i < |t.kids[n]| ==> t.kids[n][i] < |t.entries|)
    requires m < |t.entries|
    ensures FindKid(t, t.kids[n], name) == m <==> t.at[m] == t.at[n] + [name]
  {
    var r := FindKid(t, t.kids[n], name);
    if r != -1 {
      var i :| 0 <= i < |t.kids[n]| && t.kids[n][i] == r;
      IsKid(t, n, i);
      OldPlace(t, r);
      assert t.at[r] == t.at[n] + [name];
      if m != r && t.at[m] == t.at[n] + [name] { SameNames(t, m, r); }
    }
    if t.at[m] == t.at[n] + [name] {
      assert m != 0;
      OldPlace(t, m);
      var p := t.entries[m].parent;
      LastName(t.at[p], t.entries[m].name, t.at[n], name);
      SameNames(t, p, n);
      var j :| 0 <= j < |t.kids[p]| && t.kids[p][j] == m;
    }
  }

  lemma SameNames(t: Trie, m: nat, n: nat)
    requires TrieOk(t) && m < |t.entries| && n < |t.entries| && t.at[m] == t.at[n]
    ensures m == n
  {
  }

  lemma LastName(a: seq<string>, x: string, b: seq<string>, y: string)
    requires a + [x] == b + [y]
    ensures a == b && x == y
  {
    assert (a + [x])[..|a|] == a && (b + [y])[..|b|] == b;
    assert (a + [x])[|a|] == x && (b + [y])[|b|] == y;
  }
}
