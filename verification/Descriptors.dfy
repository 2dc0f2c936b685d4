/**
 Descriptor tables and the lifetime of pipes (kernel/io.c, vfs_close of
 kernel/vfs.c).

 `refs` holds the live pipe nodes with their reference counts, `freed` those that
 were freed. Descriptors may also name nodes that are not pipes; closing those
 never frees anything.
 */
module Descriptors {

  datatype Mode = Read | Write | Both

  datatype File = File(fd: int, node: int, mode: Mode, offset: int)

  /** The files in list order; a destroyed table has none. */
  datatype Table = Table(files: seq<File>, next: int, refs: nat)

  datatype World = World(tables: seq<Table>, refs: map<int, int>, freed: set<int>)

  // ---- Counting ----

  function Named(files: seq<File>, n: int): nat
  {
    if files == [] then 0 else Named(files[..|files| - 1], n) + if files[|files| - 1].node == n then 1 else 0
  }

  /** The descriptors that name node `n` over all tables. */
  function Count(tables: seq<Table>, n: int): nat
  {
    if tables == [] then 0 else Count(tables[..|tables| - 1], n) + Named(tables[|tables| - 1].files, n)
  }

  lemma {:induction false} NamedConcat(a: seq<File>, b: seq<File>, n: int)
    ensures Named(a + b, n) == Named(a, n) + Named(b, n)
    decreases |b|
  {
    if b == [] {
      assert a + b == a;
    } else {
      assert (a + b)[..|a + b| - 1] == a + b[..|b| - 1];
      NamedConcat(a, b[..|b| - 1], n);
    }
  }

  lemma NamedOne(f: File, n: int)
    ensures Named([f], n) == if f.node == n then 1 else 0
  {
    assert [f][..0] == [];
  }

  lemma NamedWithout(files: seq<File>, k: nat, n: int)
    requires k < |files|
    ensures Named(files[..k] + files[k + 1..], n) == Named(files, n) - if files[k].node == n then 1 else 0
  {
    hide Named;
    NamedConcat(files[..k], files[k + 1..], n);
    NamedConcat(files[..k] + [files[k]], files[k + 1..], n);
    NamedConcat(files[..k], [files[k]], n);
    NamedOne(files[k], n);
    assert files == files[..k] + [files[k]] + files[k + 1..];
  }

  lemma {:induction false} CountUpdate(tables: seq<Table>, t: nat, x: Table, n: int)
    requires t < |tables|
    ensures Count(tables[t := x], n) == Count(tables, n) - Named(tables[t].files, n) + Named(x.files, n)
    decreases |tables|
  {
    var l := |tables| - 1;
    if t < l {
      assert tables[t := x][..l] == tables[..l][t := x];
      CountUpdate(tables[..l], t, x, n);
    } else {
      assert tables[t := x][..l] == tables[..l];
    }
  }

  lemma CountAppend(tables: seq<Table>, x: Table, n: int)
    ensures Count(tables + [x], n) == Count(tables, n) + Named(x.files, n)
  {
    assert (tables + [x])[..|tables|] == tables;
  }

  // ---- Operations ----

  function WithFiles(w: World, t: nat, files: seq<File>): World
    requires t < |w.tables|
  {
    w.(tables := w.tables[t := w.tables[t].(files := files)])
  }

  /** vfs_close */
  function Released(w: World, n: int): World
  {
    if n !in w.refs then w
    else if w.refs[n] - 1 == 0 then w.(refs := w.refs - {n}, freed := w.freed + {n})
    else w.(refs := w.refs[n := w.refs[n] - 1])
  }

  function Retained(w: World, n: int): World
  {
    if n in w.refs then w.(refs := w.refs[n := w.refs[n] + 1]) else w
  }

  /** The first file with number `fd`, or the length. */
  function Find(files: seq<File>, fd: int): (k: nat)
    ensures k <= |files| && (k < |files| ==> files[k].fd == fd) && forall j :: 0 <= j < k ==> files[j].fd != fd
  {
    if files == [] then 0 else if files[0].fd == fd then 0 else 1 + Find(files[1..], fd)
  }

  predicate Open(w: World, t: nat, fd: int)
    requires t < |w.tables|
  {
    Find(w.tables[t].files, fd) < |w.tables[t].files|
  }

  /** close, of a descriptor that is open. */
  function Closed(w: World, t: nat, fd: int): World
    requires t < |w.tables| && Open(w, t, fd)
  {
    var files := w.tables[t].files;
    var k := Find(files, fd);
    Released(WithFiles(w, t, files[..k] + files[k + 1..]), files[k].node)
  }

  /** create_file_descriptor; a number of -1 asks for the next one. */
  function Created(w: World, t: nat, n: int, fd: int, mode: Mode, offset: int): World
    requires t < |w.tables|
  {
    var table := w.tables[t];
    w.(tables := w.tables[t := Table(table.files + [File(if fd == -1 then table.next else fd, n, mode, offset)],
                                     if fd == -1 then table.next + 1 else table.next, table.refs)])
  }

  /** pipe: a node no one has seen yet. */
  function Piped(w: World, t: nat, n: int): World
    requires t < |w.tables|
  {
    Created(Created(w.(refs := w.refs[n := 2]), t, n, -1, Read, 0), t, n, -1, Write, 0)
  }

  /** dup2; `old` is open and `new_` is another number. */
  function Duplicated(w: World, t: nat, old_: int, new_: int): World
    requires t < |w.tables| && Open(w, t, old_) && old_ != new_
  {
    var f := w.tables[t].files[Find(w.tables[t].files, old_)];
    var w1 := if Open(w, t, new_) then Closed(w, t, new_) else w;
    Created(Retained(w1, f.node), t, f.node, new_, f.mode, f.offset)
  }

  function RetainedAll(w: World, files: seq<File>): (r: World)
    ensures r.tables == w.tables && r.freed == w.freed
  {
    if files == [] then w else Retained(RetainedAll(w, files[..|files| - 1]), files[|files| - 1].node)
  }

  /** clone_descriptor_table */
  function Cloned(w: World, t: nat): World
    requires t < |w.tables|
  {
    var r := RetainedAll(w, w.tables[t].files);
    r.(tables := r.tables + [Table(w.tables[t].files, w.tables[t].next, 0)])
  }

  /** clone_descriptor_table when memory runs out after `k` descriptors: the copies go, the references stay. */
  function CloneFailed(w: World, t: nat, k: nat): World
    requires t < |w.tables| && k <= |w.tables[t].files|
  {
    RetainedAll(w, w.tables[t].files[..k])
  }

  /** open, of a node that is no pipe; vfs_open has counted it. */
  function Opened(w: World, t: nat, n: int): World
    requires t < |w.tables|
  {
    Created(w, t, n, -1, Both, 0)
  }

  /** pipe when memory runs out for its descriptors: only those in `made` exist, and both references. */
  function PipeCut(w: World, t: nat, n: int, made: seq<Mode>): World
    requires t < |w.tables| && |made| < 2
  {
    var w1 := w.(refs := w.refs[n := 2]);
    if made == [] then w1 else Created(w1, t, n, -1, made[0], 0)
  }

  /** dup2 when memory runs out: the reference is taken and no descriptor made. */
  function DupFailed(w: World, t: nat, old_: int, new_: int): World
    requires t < |w.tables| && Open(w, t, old_) && old_ != new_
  {
    Retained(if Open(w, t, new_) then Closed(w, t, new_) else w, w.tables[t].files[Find(w.tables[t].files, old_)].node)
  }

  /** The loop of destroy_descriptor_table: close the number of the first file until there is none. */
  function Emptied(w: World, t: nat): (r: World)
    requires t < |w.tables|
    decreases |w.tables[t].files|
  {
    if w.tables[t].files == [] then w else Emptied(Closed(w, t, w.tables[t].files[0].fd), t)
  }

  /** destroy_descriptor_table */
  function Destroyed(w: World, t: nat): World
    requires t < |w.tables|
  {
    if w.tables[t].refs == 0 then Emptied(w, t)
    else w.(tables := w.tables[t := w.tables[t].(refs := w.tables[t].refs - 1)])
  }

  // ---- What a program finds under a number ----

  /** The file with number `fd`, if it is open. */
  function Under(w: World, t: nat, fd: int): seq<File>
    requires t < |w.tables|
  {
    var files := w.tables[t].files;
    if Open(w, t, fd) then [files[Find(files, fd)]] else []
  }

  predicate OnlyOnce(files: seq<File>, fd: int)
  {
    forall i, j :: 0 <= i < j < |files| ==> !(files[i].fd == fd && files[j].fd == fd)
  }

  lemma FindIs(files: seq<File>, fd: int, k: nat)
    requires k <= |files| && (k < |files| ==> files[k].fd == fd) && forall j :: 0 <= j < k ==> files[j].fd != fd
    ensures Find(files, fd) == k
  {
  }

  lemma FindWithout(files: seq<File>, k: nat, fd: int)
    requires k < |files| && (files[k].fd != fd || OnlyOnce(files, fd))
    ensures var rest, i := files[..k] + files[k + 1..], Find(files, fd);
            Find(rest, fd) == if files[k].fd == fd then |rest| else if i < k then i else i - 1
  {
    hide Find;
    var rest, i := files[..k] + files[k + 1..], Find(files, fd);
    forall j | 0 <= j < |rest| ensures rest[j] == files[if j < k then j else j + 1] {}
    FindIs(rest, fd, if files[k].fd == fd then |rest| else if i < k then i else i - 1);
  }

  lemma FindAppended(files: seq<File>, f: File, fd: int)
    ensures Find(files + [f], fd) ==
            if Find(files, fd) < |files| then Find(files, fd) else if f.fd == fd then |files| else |files| + 1
  {
    hide Find;
    var all := files + [f];
    assert forall j :: 0 <= j < |files| ==> all[j] == files[j];
    FindIs(all, fd, if Find(files, fd) < |files| then Find(files, fd) else if f.fd == fd then |files| else |files| + 1);
  }

  /** close: the number is free again, if it was there once, and every other number gives what it gave. */
  lemma ClosedFinds(w: World, t: nat, fd: int, m: int)
    requires t < |w.tables| && Open(w, t, fd) && (m != fd || OnlyOnce(w.tables[t].files, fd))
    ensures t < |Closed(w, t, fd).tables|
    ensures Under(Closed(w, t, fd), t, m) == if m == fd then [] else Under(w, t, m)
  {
    hide Find;
    FindWithout(w.tables[t].files, Find(w.tables[t].files, fd), m);
  }

  lemma CreatedFinds(w: World, t: nat, n: int, fd: int, mode: Mode, offset: int, m: int)
    requires t < |w.tables|
    ensures var number := if fd == -1 then w.tables[t].next else fd;
            Under(Created(w, t, n, fd, mode, offset), t, m) ==
            if Open(w, t, m) then Under(w, t, m) else if m == number then [File(number, n, mode, offset)] else []
    ensures Created(w, t, n, fd, mode, offset).tables[t].next == w.tables[t].next + if fd == -1 then 1 else 0
  {
    hide Find;
    FindAppended(w.tables[t].files, File(if fd == -1 then w.tables[t].next else fd, n, mode, offset), m);
  }

  /**
   dup2, and dup with the next number: the new number gives the node, mode and offset of the old one,
   which stays, and every other number gives what it gave.
   */
  lemma DuplicatedFinds(w: World, t: nat, old_: int, new_: int, m: int)
    requires t < |w.tables| && Open(w, t, old_) && old_ != new_ && OnlyOnce(w.tables[t].files, new_)
    requires new_ == -1 ==> !Open(w, t, -1) && !Open(w, t, w.tables[t].next)
    ensures t < |Duplicated(w, t, old_, new_).tables|
    ensures var f, number := Under(w, t, old_)[0], if new_ == -1 then w.tables[t].next else new_;
            Under(Duplicated(w, t, old_, new_), t, m) ==
            if m == number then [File(number, f.node, f.mode, f.offset)] else Under(w, t, m)
  {
    hide Find, Created, Closed;
    var f := Under(w, t, old_)[0];
    var w1 := if Open(w, t, new_) then Closed(w, t, new_) else w;
    if Open(w, t, new_) {
      ClosedTables(w, t, new_);
      ClosedFinds(w, t, new_, m);
    }
    CreatedFrame(Retained(w1, f.node), t, f.node, new_, f.mode, f.offset);
    CreatedFinds(Retained(w1, f.node), t, f.node, new_, f.mode, f.offset, m);
  }

  /** pipe: the next two numbers, if they are free, are the reading and the writing end of the node. */
  lemma PipedFinds(w: World, t: nat, n: int, m: int)
    requires t < |w.tables| && !Open(w, t, w.tables[t].next) && !Open(w, t, w.tables[t].next + 1)
    requires w.tables[t].next >= 0
    ensures t < |Piped(w, t, n).tables|
    ensures var next := w.tables[t].next;
            Under(Piped(w, t, n), t, m) ==
            if m == next then [File(next, n, Read, 0)]
            else if m == next + 1 then [File(next + 1, n, Write, 0)]
            else Under(w, t, m)
  {
    hide Find;
    var w0 := w.(refs := w.refs[n := 2]);
    CreatedFinds(w0, t, n, -1, Read, 0, m);
    CreatedFinds(Created(w0, t, n, -1, Read, 0), t, n, -1, Write, 0, m);
  }

  /** fork: the child finds under every number what the parent finds there. */
  lemma ClonedFinds(w: World, t: nat, m: int)
    requires t < |w.tables|
    ensures var r := Cloned(w, t);
            && |r.tables| == |w.tables| + 1 && Under(r, |w.tables|, m) == Under(w, t, m) == Under(r, t, m)
            && r.tables[|w.tables|].next == w.tables[t].next && r.tables[|w.tables|].refs == 0
  {
    hide Find;
  }

  // ---- The invariant ----

  /** A live pipe has as many references as descriptors, and some; a freed one has no descriptor. */
  predicate NodeOk(w: World, n: int)
  {
    && (n in w.refs ==> w.refs[n] == Count(w.tables, n) > 0)
    && (n in w.freed ==> n !in w.refs && Count(w.tables, n) == 0)
  }

  ghost predicate Accounted(w: World)
  {
    forall n :: NodeOk(w, n)
  }

  lemma ClosedKeeps(w: World, t: nat, fd: int)
    requires Accounted(w) && t < |w.tables| && Open(w, t, fd)
    ensures Accounted(Closed(w, t, fd))
  {
    hide Named, Count, Find;
    var files := w.tables[t].files;
    var k := Find(files, fd);
    var r := Closed(w, t, fd);
    forall n ensures NodeOk(r, n) {
      assert NodeOk(w, n) && NodeOk(w, files[k].node);
      NamedWithout(files, k, n);
      CountUpdate(w.tables, t, w.tables[t].(files := files[..k] + files[k + 1..]), n);
    }
  }

  lemma CreatedCount(w: World, t: nat, n: int, fd: int, mode: Mode, offset: int, m: int)
    requires t < |w.tables|
    ensures Count(Created(w, t, n, fd, mode, offset).tables, m) == Count(w.tables, m) + if n == m then 1 else 0
  {
    var table := w.tables[t];
    var f := File(if fd == -1 then table.next else fd, n, mode, offset);
    NamedConcat(table.files, [f], m);
    NamedOne(f, m);
    CountUpdate(w.tables, t, Created(w, t, n, fd, mode, offset).tables[t], m);
  }

  lemma PipedKeeps(w: World, t: nat, n: int)
    requires Accounted(w) && t < |w.tables| && n !in w.refs && n !in w.freed && Count(w.tables, n) == 0
    ensures Accounted(Piped(w, t, n))
  {
    hide Count, Created;
    CreatedFrame(w.(refs := w.refs[n := 2]), t, n, -1, Read, 0);
    var w1 := Created(w.(refs := w.refs[n := 2]), t, n, -1, Read, 0);
    CreatedFrame(w1, t, n, -1, Write, 0);
    forall m ensures NodeOk(Piped(w, t, n), m) {
      assert NodeOk(w, m);
      CreatedCount(w.(refs := w.refs[n := 2]), t, n, -1, Read, 0, m);
      CreatedCount(w1, t, n, -1, Write, 0, m);
    }
  }

  lemma CreatedFrame(w: World, t: nat, n: int, fd: int, mode: Mode, offset: int)
    requires t < |w.tables|
    ensures var r := Created(w, t, n, fd, mode, offset);
            r.refs == w.refs && r.freed == w.freed && |r.tables| == |w.tables|
  {
  }

  /** A descriptor more for a node that has one already. */
  lemma SharedKeeps(w: World, t: nat, n: int, fd: int, mode: Mode, offset: int)
    requires Accounted(w) && t < |w.tables| && n !in w.freed
    ensures Accounted(Created(Retained(w, n), t, n, fd, mode, offset))
  {
    hide Count, Created;
    CreatedFrame(Retained(w, n), t, n, fd, mode, offset);
    forall m ensures NodeOk(Created(Retained(w, n), t, n, fd, mode, offset), m) {
      assert NodeOk(w, m);
      CreatedCount(Retained(w, n), t, n, fd, mode, offset, m);
    }
  }

  lemma {:induction false} MemberNamed(files: seq<File>, k: nat)
    requires k < |files|
    ensures Named(files, files[k].node) > 0
  {
    if k + 1 < |files| { MemberNamed(files[..|files| - 1], k); }
  }

  lemma {:induction false} MemberCounted(tables: seq<Table>, t: nat, n: int)
    requires t < |tables| && Named(tables[t].files, n) > 0
    ensures Count(tables, n) > 0
  {
    if t + 1 < |tables| { MemberCounted(tables[..|tables| - 1], t, n); }
  }

  /** Closing one number leaves the files with other numbers. */
  lemma OthersStay(w: World, t: nat, fd: int, k: nat)
    requires t < |w.tables| && Open(w, t, fd) && k < |w.tables[t].files| && w.tables[t].files[k].fd != fd
    ensures Count(Closed(w, t, fd).tables, w.tables[t].files[k].node) > 0
  {
    hide Named, Count, Find;
    var files := w.tables[t].files;
    var i := Find(files, fd);
    var rest := files[..i] + files[i + 1..];
    MemberNamed(rest, if k < i then k else k - 1);
    assert rest[if k < i then k else k - 1] == files[k];
    MemberCounted(Closed(w, t, fd).tables, t, files[k].node);
  }

  lemma DuplicatedKeeps(w: World, t: nat, old_: int, new_: int)
    requires Accounted(w) && t < |w.tables| && Open(w, t, old_) && old_ != new_
    ensures Accounted(Duplicated(w, t, old_, new_))
  {
    hide Named, Count, Find, Created, Closed;
    var k := Find(w.tables[t].files, old_);
    var f := w.tables[t].files[k];
    var w1 := if Open(w, t, new_) then Closed(w, t, new_) else w;
    MemberNamed(w.tables[t].files, k);
    MemberCounted(w.tables, t, f.node);
    if Open(w, t, new_) {
      ClosedKeeps(w, t, new_);
      OthersStay(w, t, new_, k);
      ClosedTables(w, t, new_);
    }
    assert NodeOk(w1, f.node);
    SharedKeeps(w1, t, f.node, new_, f.mode, f.offset);
  }

  lemma ClosedTables(w: World, t: nat, fd: int)
    requires t < |w.tables| && Open(w, t, fd)
    ensures |Closed(w, t, fd).tables| == |w.tables| && Closed(w, t, fd).tables[t].refs == w.tables[t].refs
  {
  }

  /** Copying descriptors adds one reference for each. */
  lemma {:induction false} RetainedAllRefs(w: World, files: seq<File>, n: int)
    ensures n in RetainedAll(w, files).refs <==> n in w.refs
    ensures n in w.refs ==> RetainedAll(w, files).refs[n] == w.refs[n] + Named(files, n)
  {
    if files != [] { RetainedAllRefs(w, files[..|files| - 1], n); }
  }

  lemma ClonedKeeps(w: World, t: nat)
    requires Accounted(w) && t < |w.tables|
    ensures Accounted(Cloned(w, t))
  {
    hide Named, Count, RetainedAll;
    var table := w.tables[t];
    forall n ensures NodeOk(Cloned(w, t), n) {
      assert NodeOk(w, n);
      RetainedAllRefs(w, table.files, n);
      CountAppend(w.tables, Table(table.files, table.next, 0), n);
      if Named(table.files, n) > 0 { MemberCounted(w.tables, t, n); }
    }
  }

  /**
   Running out of memory in the middle of a clone keeps the books exactly when no descriptor of a
   live pipe had been copied.
   */
  lemma CloneFailedKeeps(w: World, t: nat, k: nat)
    requires Accounted(w) && t < |w.tables| && k <= |w.tables[t].files|
    ensures Accounted(CloneFailed(w, t, k)) <==> forall j :: 0 <= j < k ==> w.tables[t].files[j].node !in w.refs
  {
    hide Named, Count, RetainedAll;
    var copied := w.tables[t].files[..k];
    var r := CloneFailed(w, t, k);
    if j :| 0 <= j < k && w.tables[t].files[j].node in w.refs {
      var n := w.tables[t].files[j].node;
      assert NodeOk(w, n);
      MemberNamed(copied, j);
      RetainedAllRefs(w, copied, n);
      assert !NodeOk(r, n);
    } else {
      forall n ensures NodeOk(r, n) {
        assert NodeOk(w, n);
        RetainedAllRefs(w, copied, n);
        if n in w.refs { NotNamed(copied, n); }
      }
    }
  }

  /** Running out of memory in dup2 keeps the books exactly when the descriptor is of no live pipe. */
  lemma DupFailedKeeps(w: World, t: nat, old_: int, new_: int)
    requires Accounted(w) && t < |w.tables| && Open(w, t, old_) && old_ != new_
    ensures Accounted(DupFailed(w, t, old_, new_)) <==> w.tables[t].files[Find(w.tables[t].files, old_)].node !in w.refs
  {
    hide Named, Count, Find, Closed;
    var k := Find(w.tables[t].files, old_);
    var f := w.tables[t].files[k];
    var w1 := if Open(w, t, new_) then Closed(w, t, new_) else w;
    MemberNamed(w.tables[t].files, k);
    MemberCounted(w.tables, t, f.node);
    assert NodeOk(w, f.node);
    if Open(w, t, new_) {
      ClosedKeeps(w, t, new_);
      OthersStay(w, t, new_, k);
      ClosedKnown(w, t, new_, f.node);
    }
    assert NodeOk(w1, f.node);
    if f.node in w.refs { assert !NodeOk(DupFailed(w, t, old_, new_), f.node); }
  }

  lemma ClosedKnown(w: World, t: nat, fd: int, n: int)
    requires t < |w.tables| && Open(w, t, fd)
    ensures n in Closed(w, t, fd).refs ==> n in w.refs
    ensures n in w.refs ==> n in Closed(w, t, fd).refs || n in Closed(w, t, fd).freed
  {
  }

  /** A pipe that does not get both descriptors has a reference too many. */
  lemma PipeCutLeaks(w: World, t: nat, n: int, made: seq<Mode>)
    requires t < |w.tables| && Count(w.tables, n) == 0 && |made| < 2
    ensures !Accounted(PipeCut(w, t, n, made))
  {
    hide Count, Created;
    var w1, r := w.(refs := w.refs[n := 2]), PipeCut(w, t, n, made);
    if made != [] {
      CreatedFrame(w1, t, n, -1, made[0], 0);
      CreatedCount(w1, t, n, -1, made[0], 0, n);
    }
    assert !NodeOk(r, n);
  }

  lemma {:induction false} NotNamed(files: seq<File>, n: int)
    requires forall j :: 0 <= j < |files| ==> files[j].node != n
    ensures Named(files, n) == 0
  {
    if files != [] { NotNamed(files[..|files| - 1], n); }
  }

  /** The loop of destroy always closes the file it stands on, even when numbers repeat. */
  lemma FirstIsFound(files: seq<File>)
    requires files != []
    ensures Find(files, files[0].fd) == 0
  {
  }

  lemma {:induction false} EmptiedKeeps(w: World, t: nat)
    requires Accounted(w) && t < |w.tables|
    ensures Accounted(Emptied(w, t)) && |Emptied(w, t).tables| == |w.tables| && Emptied(w, t).tables[t].files == []
    decreases |w.tables[t].files|
  {
    if w.tables[t].files != [] {
      var fd := w.tables[t].files[0].fd;
      FirstIsFound(w.tables[t].files);
      ClosedKeeps(w, t, fd);
      EmptiedKeeps(Closed(w, t, fd), t);
    }
  }

  lemma ClosedFirst(w: World, t: nat, n: int)
    requires Accounted(w) && t < |w.tables| && w.tables[t].files != []
    ensures var files := w.tables[t].files;
            && Open(w, t, files[0].fd)
            && Named(files[1..], n) == Named(files, n) - (if files[0].node == n then 1 else 0)
            && var r := Closed(w, t, files[0].fd);
            && r.tables == w.tables[t := w.tables[t].(files := files[1..])]
            && (n in r.refs <==> n in w.refs && w.refs[n] > if files[0].node == n then 1 else 0)
            && (n in r.refs ==> r.refs[n] == w.refs[n] - if files[0].node == n then 1 else 0)
  {
    hide Named;
    var files := w.tables[t].files;
    FirstIsFound(files);
    NamedWithout(files, 0, n);
    assert files[..0] + files[1..] == files[1..];
    assert NodeOk(w, n);
  }

  /**
   Each descriptor of the table is closed once: every other table stays, and a pipe loses as many
   references as it had here.
   */
  lemma {:induction false} EmptiedExactly(w: World, t: nat, n: int)
    requires Accounted(w) && t < |w.tables|
    ensures var r := Emptied(w, t);
            && r.tables == w.tables[t := w.tables[t].(files := [])]
            && (n in r.refs <==> n in w.refs && w.refs[n] > Named(w.tables[t].files, n))
            && (n in r.refs ==> r.refs[n] == w.refs[n] - Named(w.tables[t].files, n))
    decreases |w.tables[t].files|
  {
    hide Named, Count, Closed, Find;
    var files := w.tables[t].files;
    NoFilesNamed(n);
    if files == [] {
      assert w.tables[t].(files := []) == w.tables[t];
      assert NodeOk(w, n);
    } else {
      ClosedFirst(w, t, n);
      ClosedKeeps(w, t, files[0].fd);
      EmptiedExactly(Closed(w, t, files[0].fd), t, n);
    }
  }

  lemma NoFilesNamed(n: int)
    ensures Named([], n) == 0
  {
  }

  /** destroy: a table others still use loses one user and nothing else; the last one takes its descriptors with it. */
  lemma DestroyedExactly(w: World, t: nat, m: int)
    requires Accounted(w) && t < |w.tables|
    ensures var r := Destroyed(w, t);
            && |r.tables| == |w.tables|
            && (w.tables[t].refs > 0 ==>
                  Under(r, t, m) == Under(w, t, m) && r.tables[t].refs == w.tables[t].refs - 1 && r.refs == w.refs)
            && (w.tables[t].refs == 0 ==> Under(r, t, m) == [])
            && forall i :: 0 <= i < |w.tables| && i != t ==> r.tables[i] == w.tables[i]
  {
    if w.tables[t].refs == 0 { EmptiedExactly(w, t, 0); }
  }

  lemma DestroyedKeeps(w: World, t: nat)
    requires Accounted(w) && t < |w.tables|
    ensures Accounted(Destroyed(w, t)) && |Destroyed(w, t).tables| == |w.tables|
  {
    if w.tables[t].refs == 0 {
      EmptiedKeeps(w, t);
    } else {
      var x := w.tables[t].(refs := w.tables[t].refs - 1);
      forall n ensures NodeOk(Destroyed(w, t), n) {
        assert NodeOk(w, n);
        CountUpdate(w.tables, t, x, n);
      }
    }
  }

  // ---- Runs ----

  datatype Op =
    | DoOpen(t: nat, n: int)
    | DoPipe(t: nat, n: int)
    | DoPipeCut(t: nat, n: int, made: seq<Mode>)
    | DoDup(t: nat, oldfd: int, newfd: int)
    | DoDupFailed(t: nat, oldfd: int, newfd: int)
    | DoClose(t: nat, fd: int)
    | DoClone(t: nat)
    | DoCloneFailed(t: nat, k: nat)
    | DoDestroy(t: nat)

  /**
   What the source demands of its callers: descriptors that are open, dup2 onto another number, a
   new node for a pipe.
   */
  predicate Allowed(w: World, op: Op)
  {
    op.t < |w.tables| &&
    match op
    case DoOpen(t, n) => n !in w.refs && n !in w.freed
    case DoPipe(t, n) => n !in w.refs && n !in w.freed && Count(w.tables, n) == 0
    case DoPipeCut(t, n, made) => n !in w.refs && n !in w.freed && Count(w.tables, n) == 0 && |made| < 2
    case DoDup(t, oldfd, newfd) => Open(w, t, oldfd) && oldfd != newfd
    case DoDupFailed(t, oldfd, newfd) => Open(w, t, oldfd) && oldfd != newfd
    case DoClose(t, fd) => Open(w, t, fd)
    case DoCloneFailed(t, k) => k <= |w.tables[t].files|
    case _ => true
  }

  function Apply(w: World, op: Op): World
    requires Allowed(w, op)
  {
    match op
    case DoOpen(t, n) => Opened(w, t, n)
    case DoPipe(t, n) => Piped(w, t, n)
    case DoPipeCut(t, n, made) => PipeCut(w, t, n, made)
    case DoDup(t, oldfd, newfd) => Duplicated(w, t, oldfd, newfd)
    case DoDupFailed(t, oldfd, newfd) => DupFailed(w, t, oldfd, newfd)
    case DoClose(t, fd) => Closed(w, t, fd)
    case DoClone(t) => Cloned(w, t)
    case DoCloneFailed(t, k) => CloneFailed(w, t, k)
    case DoDestroy(t) => Destroyed(w, t)
  }

  /** An operation that memory runs out for after it took a reference to a pipe. */
  predicate Leaks(w: World, op: Op)
    requires Allowed(w, op)
  {
    match op
    case DoPipeCut(t, n, made) => true
    case DoDupFailed(t, oldfd, newfd) => w.tables[t].files[Find(w.tables[t].files, oldfd)].node in w.refs
    case DoCloneFailed(t, k) => exists j :: 0 <= j < k && w.tables[t].files[j].node in w.refs
    case _ => false
  }

  /** An operation keeps the books exactly when memory does not run out after it took a reference to a pipe. */
  lemma ApplyKeeps(w: World, op: Op)
    requires Accounted(w) && Allowed(w, op)
    ensures Accounted(Apply(w, op)) <==> !Leaks(w, op)
  {
    match op
    case DoOpen(t, n) => SharedKeeps(w, t, n, -1, Both, 0);
    case DoPipe(t, n) => PipedKeeps(w, t, n);
    case DoPipeCut(t, n, made) => PipeCutLeaks(w, t, n, made);
    case DoDup(t, oldfd, newfd) => DuplicatedKeeps(w, t, oldfd, newfd);
    case DoDupFailed(t, oldfd, newfd) => DupFailedKeeps(w, t, oldfd, newfd);
    case DoClose(t, fd) => ClosedKeeps(w, t, fd);
    case DoClone(t) => ClonedKeeps(w, t);
    case DoCloneFailed(t, k) => CloneFailedKeeps(w, t, k);
    case DoDestroy(t) => DestroyedKeeps(w, t);
  }

  /** One empty table, shared by any number of threads. */
  predicate Initial(w: World)
  {
    |w.tables| == 1 && w.tables[0].files == [] && w.tables[0].next == 0 && w.refs == map[] && w.freed == {}
  }

  ghost predicate Run(ws: seq<World>, ops: seq<Op>)
  {
    && |ws| == |ops| + 1 && Initial(ws[0])
    && forall i :: 0 <= i < |ops| ==> Allowed(ws[i], ops[i]) && ws[i + 1] == Apply(ws[i], ops[i])
  }

  /**
   In every run, up to any point, a pipe's count is the number of descriptors that name it, exactly
   when memory has not run out for an operation after it took a reference to a pipe.
   */
  lemma {:induction false} PipeLifetime(ws: seq<World>, ops: seq<Op>, n: nat)
    requires Run(ws, ops) && n <= |ops|
    ensures (forall i :: 0 <= i <= n ==> Accounted(ws[i])) <==> (forall i :: 0 <= i < n ==> !Leaks(ws[i], ops[i]))
    decreases n
  {
    hide Accounted, Apply, Leaks, Allowed;
    if n > 0 {
      PipeLifetime(ws, ops, n - 1);
      assert ws[n - 1 + 1] == Apply(ws[n - 1], ops[n - 1]);
      if Accounted(ws[n - 1]) { ApplyKeeps(ws[n - 1], ops[n - 1]); }
    } else {
      InitialAccounted(ws[0]);
    }
  }

  lemma InitialAccounted(w: World)
    requires Initial(w)
    ensures Accounted(w)
  {
    forall n ensures NodeOk(w, n) { NoFilesNamed(n); }
  }

  /** A pipe, and a fork that runs out of memory after one descriptor: three references for two descriptors. */
  lemma FailedCloneLeaks(n: int)
    ensures var w0 := World([Table([], 0, 0)], map[], {}); var w1 := Piped(w0, 0, n); var w2 := CloneFailed(w1, 0, 1);
            && Run([w0, w1, w2], [DoPipe(0, n), DoCloneFailed(0, 1)])
            && n in w2.refs && w2.refs[n] == 3 && Count(w2.tables, n) == 2
  {
    var w0 := World([Table([], 0, 0)], map[], {});
    var w1 := Piped(w0, 0, n);
    InitialAccounted(w0);
    assert NodeOk(w0, n);
    PipedKeeps(w0, 0, n);
    assert NodeOk(w1, n);
    var files := w1.tables[0].files;
    assert files == [File(0, n, Read, 0), File(1, n, Write, 0)];
    RetainedAllRefs(w1, files[..1], n);
    NamedOne(files[0], n);
    assert files[..1] == [files[0]];
    var ws, ops := [w0, w1, CloneFailed(w1, 0, 1)], [DoPipe(0, n), DoCloneFailed(0, 1)];
    assert ws[1] == Apply(ws[0], ops[0]) && ws[2] == Apply(ws[1], ops[1]);
  }

  /** A live pipe stays live as long as a descriptor names it, and is freed when none does. */
  lemma FreedAtLastClose(w: World, op: Op, n: int)
    requires Accounted(w) && Allowed(w, op) && !Leaks(w, op) && n in w.refs
    ensures n in Apply(w, op).refs <==> Count(Apply(w, op).tables, n) > 0
    ensures n in Apply(w, op).freed <==> Count(Apply(w, op).tables, n) == 0
  {
    hide Leaks;
    ApplyKeeps(w, op);
    assert NodeOk(w, n) && NodeOk(Apply(w, op), n);
    StaysKnown(w, op, n);
  }

  /** No operation forgets a pipe: it stays live or is freed. */
  lemma StaysKnown(w: World, op: Op, n: int)
    requires Allowed(w, op) && n in w.refs
    ensures n in Apply(w, op).refs || n in Apply(w, op).freed
  {
    hide Named, Count, Find;
    match op
    case DoClone(t) => RetainedAllRefs(w, w.tables[t].files, n);
    case DoCloneFailed(t, k) => RetainedAllRefs(w, w.tables[t].files[..k], n);
    case DoDestroy(t) => if w.tables[t].refs == 0 { EmptiedKnown(w, t, n); }
    case _ =>
  }

  lemma {:induction false} EmptiedKnown(w: World, t: nat, n: int)
    requires t < |w.tables| && (n in w.refs || n in w.freed)
    ensures n in Emptied(w, t).refs || n in Emptied(w, t).freed
    decreases |w.tables[t].files|
  {
    if w.tables[t].files != [] { EmptiedKnown(Closed(w, t, w.tables[t].files[0].fd), t, n); }
  }
}
