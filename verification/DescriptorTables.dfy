/**
 The operations of kernel/io.c on descriptor tables, step by step, each tied to
 the function of module Descriptors that says what it does.
 */
module DescriptorTables {
  import opened Descriptors

  class Kernel {
    var tables: seq<Table>
    var refs: map<int, int>
    var freed: set<int>

    ghost function State(): World
      reads this
    {
      World(tables, refs, freed)
    }

    constructor ()
      ensures State() == World([Table([], 0, 0)], map[], {})
    {
      tables, refs, freed := [Table([], 0, 0)], map[], {};
    }

    /** get_file_descriptor */
    method Lookup(t: nat, fd: int) returns (k: nat)
      requires t < |tables|
      ensures k == Find(tables[t].files, fd)
    {
      var files := tables[t].files;
      k := 0;
      while k < |files| && files[k].fd != fd
        invariant k <= |files| && forall j :: 0 <= j < k ==> files[j].fd != fd
      {
        k := k + 1;
      }
      FoundFirst(files, fd, k);
    }

    /** vfs_close on a pipe node, or on a node this model does not count. */
    method Release(n: int)
      modifies this
      ensures State() == Released(old(State()), n)
    {
      if n in refs {
        refs := refs[n := refs[n] - 1];
        if refs[n] == 0 {
          refs := refs - {n};
          freed := freed + {n};
        }
      }
    }

    /** close; -1 for a table without files. A number that is not open is the caller's mistake. */
    method Close(t: nat, fd: int) returns (r: int)
      requires t < |tables| && (tables[t].files == [] || Open(State(), t, fd))
      modifies this
      ensures r == if old(tables[t].files) == [] then -1 else 0
      ensures State() == if r == -1 then old(State()) else Closed(old(State()), t, fd)
    {
      hide Find;
      if tables[t].files == [] { return -1; }
      var k := Lookup(t, fd);
      var files := tables[t].files;
      var f := files[k];
      tables := tables[t := tables[t].(files := files[..k] + files[k + 1..])];
      Release(f.node);
      r := 0;
    }

    /** create_file_descriptor; -1 when there is no room for another descriptor. */
    method Create(t: nat, n: int, fd: int, mode: Mode, offset: int, room: bool) returns (r: int)
      requires t < |tables|
      modifies this`tables
      ensures State() == if room then Created(old(State()), t, n, fd, mode, offset) else old(State())
      ensures r == if !room then -1 else if fd == -1 then old(tables[t].next) else fd
    {
      if !room { return -1; }
      var table := tables[t];
      if fd == -1 {
        r := table.next;
        table := table.(next := table.next + 1);
      } else {
        r := fd;
      }
      tables := tables[t := table.(files := table.files + [File(r, n, mode, offset)])];
    }

    /** pipe; `node`, `first` and `second` say whether there is room for the pipe and for each descriptor. */
    method MakePipe(t: nat, n: int, node: bool, first: bool, second: bool) returns (r: int, reader: int, writer: int)
      requires t < |tables|
      modifies this
      ensures r == if node then 0 else -1
      ensures State() ==
              if !node then old(State())
              else if first && second then Piped(old(State()), t, n)
              else PipeCut(old(State()), t, n, if first then [Read] else if second then [Write] else [])
      ensures node && first && second ==> reader == old(tables[t].next) && writer == reader + 1
    {
      reader, writer := -1, -1;
      if !node { return -1, reader, writer; }
      refs := refs[n := 2];
      reader := Create(t, n, -1, Read, 0, first);
      writer := Create(t, n, -1, Write, 0, second);
      r := 0;
    }

    /** dup2; -1 when the old number is not open or there is no room. */
    method Dup2(t: nat, oldfd: int, newfd: int, room: bool) returns (r: int)
      requires t < |tables| && oldfd != newfd
      modifies this
      ensures State() ==
              if !Open(old(State()), t, oldfd) then old(State())
              else if room then Duplicated(old(State()), t, oldfd, newfd)
              else DupFailed(old(State()), t, oldfd, newfd)
      ensures r ==
              if !room || !Open(old(State()), t, oldfd) then -1
              else if newfd == -1 then old(tables[t].next)
              else newfd
    {
      hide Find;
      var k := Lookup(t, oldfd);
      if k == |tables[t].files| { return -1; }
      var f := tables[t].files[k];
      var j := Lookup(t, newfd);
      if j < |tables[t].files| {
        var c := Close(t, newfd);
      }
      if f.node in refs {
        refs := refs[f.node := refs[f.node] + 1];
      }
      r := Create(t, f.node, newfd, f.mode, f.offset, room);
    }

    /** clone_descriptor_table with room for `room` descriptors; -1 when that is not enough. */
    method CloneTable(t: nat, room: nat) returns (c: int)
      requires t < |tables|
      modifies this
      ensures if room < |old(tables[t].files)| then c == -1 && State() == CloneFailed(old(State()), t, room)
              else c == |old(tables)| && State() == Cloned(old(State()), t)
    {
      var source := tables[t];
      var copy: seq<File> := [];
      while |copy| < |source.files|
        invariant |copy| <= |source.files| && copy == source.files[..|copy|] && |copy| <= room
        invariant State() == RetainedAll(old(State()), copy)
        decreases |source.files| - |copy|
      {
        if |copy| == room { return -1; }
        var f := source.files[|copy|];
        if f.node in refs {
          refs := refs[f.node := refs[f.node] + 1];
        }
        assert (copy + [f])[..|copy|] == copy;
        copy := copy + [f];
      }
      assert copy == source.files;
      c := |tables|;
      tables := tables + [Table(copy, source.next, 0)];
    }

    /** destroy_descriptor_table */
    method DestroyTable(t: nat)
      requires t < |tables|
      modifies this
      ensures State() == Destroyed(old(State()), t)
    {
      if tables[t].refs == 0 {
        while tables[t].files != []
          invariant t < |tables|
          invariant Emptied(State(), t) == Emptied(old(State()), t)
          decreases |tables[t].files|
        {
          FirstIsFound(tables[t].files);
          var r := Close(t, tables[t].files[0].fd);
        }
      } else {
        tables := tables[t := tables[t].(refs := tables[t].refs - 1)];
      }
    }
  }

  lemma {:induction false} FoundFirst(files: seq<File>, fd: int, k: nat)
    requires k <= |files| && (k < |files| ==> files[k].fd == fd) && forall j :: 0 <= j < k ==> files[j].fd != fd
    ensures Find(files, fd) == k
  {
    if files != [] && files[0].fd != fd { FoundFirst(files[1..], fd, k - 1); }
  }
}
