/**
 Path strings: the component scanner that the kernel and the image builder share
 (kernel/vfs.c, tools/src/mkinitrd/mkinitrd.c), against splitting at slashes.
 */
module Paths {

  import opened Values

  const MAX_PATH: nat := 255

  /** Where the first slash is, or the end. */
  function Cut(s: string): (n: nat)
    ensures n <= |s| && (n < |s| ==> s[n] == '/') && forall i :: 0 <= i < n ==> s[i] != '/'
  {
    if s == "" || s[0] == '/' then 0 else 1 + Cut(s[1..])
  }

  function Split(s: string): (r: seq<string>)
    ensures |r| > 0
  {
    if Cut(s) == |s| then [s] else [s[..Cut(s)]] + Split(s[Cut(s) + 1..])
  }

  /** A path without its leading slash, if it has one. */
  function Strip(s: string): string
  {
    if s != "" && s[0] == '/' then s[1..] else s
  }

  /** Component `level` of a path: nothing past the last one, and nothing for an empty one. */
  function Component(path: string, level: nat): Option<string>
  {
    var parts := Split(Strip(path));
    if level < |parts| && parts[level] != "" then Some(parts[level]) else None
  }

  lemma {:induction false} CutIs(s: string, n: nat)
    requires n <= |s| && (n < |s| ==> s[n] == '/') && forall i :: 0 <= i < n ==> s[i] != '/'
    ensures Cut(s) == n
  {
    if n > 0 { CutIs(s[1..], n - 1); }
  }

  /** What the scan from `start` to `q` means for the components. */
  lemma SplitStep(path: string, start: nat, q: nat)
    requires start <= q <= |path| && Cut(path[start..]) == q - start
    ensures Split(path[start..])[0] == path[start..q]
    ensures q == |path| ==> |Split(path[start..])| == 1
    ensures q < |path| ==> Split(path[q + 1..]) == Split(path[start..])[1..]
  {
    hide Cut;
    assert path[start..][..q - start] == path[start..q];
    if q < |path| {
      assert path[start..][q - start + 1..] == path[q + 1..];
    } else {
      assert path[start..q] == path[start..];
    }
  }

  lemma DropOne(parts: seq<string>, k: nat)
    requires k < |parts|
    ensures parts[k..][0] == parts[k] && parts[k..][1..] == parts[k + 1..] && |parts[k..]| == |parts| - k
  {
  }

  /** vfs_get_path_level */
  method GetPathLevel(path: string, level: nat) returns (r: Option<string>)
    requires |path| <= MAX_PATH
    ensures r == Component(path, level)
  {
    hide Cut, Split;
    var p := 0;
    if path != "" && path[0] == '/' {
      p := 1;
    }
    ghost var parts := Split(Strip(path));
    assert path[p..] == Strip(path);
    var start, left := p, level;
    ghost var k := 0;
    while left > 0
      invariant start == p <= |path| && 0 <= left && k + left == level && k < |parts|
      invariant Split(path[p..]) == parts[k..]
      decreases left
    {
      p := SkipName(path, p);
      SplitStep(path, start, p);
      DropOne(parts, k);
      if p == |path| { return None; }
      p := p + 1;
      start := p;
      left, k := left - 1, k + 1;
    }
    p := SkipName(path, p);
    SplitStep(path, start, p);
    DropOne(parts, k);
    if p - start == 0 { return None; }
    r := CopyName(path, start, p);
  }

  /** The loop that copies a component out. */
  method CopyName(path: string, start: nat, end: nat) returns (r: Option<string>)
    requires start <= end <= |path|
    ensures r == Some(path[start..end])
  {
    var buf, i := "", start;
    while i < end
      invariant start <= i <= end && buf == path[start..i]
    {
      buf := buf + [path[i]];
      i := i + 1;
    }
    r := Some(buf);
  }

  /** The loop that runs to the next slash or to the end. */
  method SkipName(path: string, p: nat) returns (q: nat)
    requires p <= |path|
    ensures p <= q <= |path| && Cut(path[p..]) == q - p
    ensures q == |path| || path[q] == '/'
  {
    q := p;
    while q < |path| && path[q] != '/'
      invariant p <= q <= |path| && forall i :: p <= i < q ==> path[i] != '/'
    {
      q := q + 1;
    }
    CutIs(path[p..], q - p);
  }

  // ---- Lists of names ----

  /** The components a walk along the path sees: those before the first empty one. */
  function Leading(parts: seq<string>): (r: seq<string>)
    ensures |r| <= |parts| && r == parts[..|r|] && (forall i :: 0 <= i < |r| ==> r[i] != "")
    ensures |r| < |parts| ==> parts[|r|] == ""
  {
    if parts == [] || parts[0] == "" then [] else [parts[0]] + Leading(parts[1..])
  }

  function Names(path: string): seq<string>
  {
    Leading(Split(Strip(path)))
  }

  /** Up to the end of the walk, components are the names. */
  lemma NamesAreComponents(path: string, i: nat)
    requires i <= |Names(path)|
    ensures Component(path, i) == if i < |Names(path)| then Some(Names(path)[i]) else None
  {
  }

  /** A name that can be a component. */
  predicate Plain(name: string)
  {
    name != "" && forall i :: 0 <= i < |name| ==> name[i] != '/'
  }

  /** Names, each after a slash. */
  function Joined(names: seq<string>): string
  {
    if names == [] then "" else "/" + (names[0] + Joined(names[1..]))
  }

  lemma SplitFirst(first: string, rest: string)
    requires forall i :: 0 <= i < |first| ==> first[i] != '/'
    ensures Split(first) == [first] && Split(first + "/" + rest) == [first] + Split(rest)
  {
    hide Cut;
    CutIs(first, |first|);
    var s := first + "/" + rest;
    CutIs(s, |first|);
    assert s[|first| + 1..] == rest && s[..|first|] == first;
  }

  lemma {:induction false} SplitJoined(first: string, names: seq<string>)
    requires Plain(first) && forall i :: 0 <= i < |names| ==> Plain(names[i])
    ensures Split(first + Joined(names)) == [first] + names
    decreases |names|
  {
    hide Split, Cut;
    if names == [] {
      SplitFirst(first, "");
      assert first + Joined(names) == first;
    } else {
      var rest := names[0] + Joined(names[1..]);
      SplitFirst(first, rest);
      SplitJoined(names[0], names[1..]);
      assert first + Joined(names) == first + "/" + rest;
      assert [first] + names == [first] + ([names[0]] + names[1..]);
    }
  }

  lemma {:induction false} LeadingAll(names: seq<string>)
    requires forall i :: 0 <= i < |names| ==> names[i] != ""
    ensures Leading(names) == names
  {
    if names != [] { LeadingAll(names[1..]); }
  }

  /** Reading back a joined path gives the names. */
  lemma NamesOfJoined(names: seq<string>)
    requires forall i :: 0 <= i < |names| ==> Plain(names[i])
    ensures Names(Joined(names)) == names
  {
    hide Split, Cut, Leading;
    if names == [] {
      EmptyPath();
    } else {
      JoinedFirst(names);
      SplitJoined(names[0], names[1..]);
      LeadingAll(names);
      assert [names[0]] + names[1..] == names;
    }
  }

  /** An empty component ends the path: what follows two slashes is not looked at. */
  lemma EmptyComponentEnds(first: string, rest: string)
    requires Plain(first)
    ensures Names("/" + first + "//" + rest) == [first] && Names("//" + rest) == []
  {
    hide Cut, Split;
    var tail := "/" + rest;
    SplitFirst("", rest);
    assert "" + "/" + rest == tail;
    SplitFirst(first, tail);
    StripSlash(first + "/" + tail);
    assert "/" + (first + "/" + tail) == "/" + first + "//" + rest;
    StripSlash(tail);
    assert "/" + tail == "//" + rest;
    var parts := Split(first + "/" + tail);
    assert parts[0] == first && parts[1..] == Split(tail) && Split(tail)[0] == "";
  }

  lemma EmptyPath()
    ensures Names("") == []
  {
  }

  lemma StripSlash(t: string)
    ensures Strip("/" + t) == t
  {
  }

  lemma JoinedFirst(names: seq<string>)
    requires names != []
    ensures Strip(Joined(names)) == names[0] + Joined(names[1..])
  {
    hide Strip;
    StripSlash(names[0] + Joined(names[1..]));
  }
}
