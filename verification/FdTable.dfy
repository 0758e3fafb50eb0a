/** The descriptor operations of src/sched_fd.c on the tables, and the byte stream through a pipe. */
module FdTable {
  import opened Bytes
  import opened FdState

  const FD_OK := 0
  const FD_EBADF := -1
  const FD_EMFILE := -2
  const FD_EINVAL := -3
  const FD_EAGAIN := -5
  const FD_EPIPE := -6

  const O_NONBLOCK: nat := 0x800

  /** The bytes in a pipe, oldest first. */
  function RingOf(p: Pipe): (r: seq<u8>)
    requires |p.buf| == PIPE_CAP
    ensures |r| == p.len && forall i :: 0 <= i < |r| ==> r[i] == p.buf[(p.head + i) % PIPE_CAP]
  {
    seq(p.len, i requires 0 <= i < p.len => p.buf[(p.head + i) % PIPE_CAP])
  }

  function Min(a: nat, b: nat): (m: nat)
    ensures m <= a && m <= b && (m == a || m == b)
  {
    if a < b then a else b
  }

  function Taken(p: Pipe): Pipe
    requires p.len > 0
  {
    p.(head := (p.head + 1) % PIPE_CAP, len := p.len - 1)
  }

  function Put(p: Pipe, x: u8): Pipe
    requires |p.buf| == PIPE_CAP
  {
    p.(buf := p.buf[(p.head + p.len) % PIPE_CAP := x], len := p.len + 1)
  }

  /** Taking a byte removes the oldest one, across the end of the buffer too. */
  lemma TakenIsTail(p: Pipe)
    requires |p.buf| == PIPE_CAP && p.head < PIPE_CAP && 0 < p.len <= PIPE_CAP
    ensures RingOf(p)[0] == p.buf[p.head] && RingOf(Taken(p)) == RingOf(p)[1..]
  {
    var r, q := RingOf(p), RingOf(Taken(p));
    assert |q| == |r[1..]|;
    forall i | 0 <= i < |q|
      ensures q[i] == r[1..][i]
    {
      SlotAfter(p.head, i);
      assert r[1..][i] == r[i + 1];
    }
  }

  lemma SlotAfter(head: nat, i: nat)
    ensures ((head + 1) % PIPE_CAP + i) % PIPE_CAP == (head + (i + 1)) % PIPE_CAP
  {
  }

  /** Pipe q after `n` bytes were taken out of it. */
  ghost predicate Drained(q: Pipe, q': Pipe, n: nat)
  {
    && |q.buf| == PIPE_CAP && q' == q.(head := q'.head, len := q'.len) && q'.head < PIPE_CAP && q'.len + n == q.len <= PIPE_CAP
    && RingOf(q') == RingOf(q)[n..] && (n == 0 ==> q' == q)
  }

  lemma DrainedNext(q: Pipe, q': Pipe, n: nat)
    requires Drained(q, q', n) && q'.len > 0
    ensures Drained(q, Taken(q'), n + 1) && RingOf(q')[0] == RingOf(q)[n]
  {
    hide RingOf;
    TakenIsTail(q');
    TakeNext(RingOf(q), n);
  }

  /** Pipe q after `data` was put into it. */
  ghost predicate Filled(q: Pipe, q': Pipe, data: seq<u8>)
  {
    && |q.buf| == PIPE_CAP && q' == q.(buf := q'.buf, len := q'.len) && |q'.buf| == PIPE_CAP && q.head < PIPE_CAP
    && q'.len == q.len + |data| <= PIPE_CAP && RingOf(q') == RingOf(q) + data && (data == [] ==> q' == q)
  }

  lemma FilledNext(q: Pipe, q': Pipe, data: seq<u8>, x: u8)
    requires Filled(q, q', data) && q'.len < PIPE_CAP
    ensures Filled(q, Put(q', x), data + [x])
  {
    hide RingOf;
    PutIsAppend(q', x);
    assert RingOf(q) + (data + [x]) == RingOf(q) + data + [x];
  }

  lemma TakeNext(r: seq<u8>, n: nat)
    requires n < |r|
    ensures r[n..][1..] == r[n + 1..] && r[..n] + [r[n..][0]] == r[..n + 1]
  {
  }

  /** Storing a byte puts it behind the newest one and overwrites no byte in the pipe. */
  lemma PutIsAppend(p: Pipe, x: u8)
    requires |p.buf| == PIPE_CAP && p.head < PIPE_CAP && p.len < PIPE_CAP
    ensures RingOf(Put(p, x)) == RingOf(p) + [x]
  {
  }

  /** Whatever was written to a pipe and not yet read from it is in its ring, in order. */
  ghost predicate StreamOk(p: Pipe, sent: seq<u8>, received: seq<u8>)
  {
    |p.buf| == PIPE_CAP && (p.used ==> sent == received + RingOf(p))
  }

  ghost predicate StreamsOk(pipes: seq<Pipe>, sent: seq<seq<u8>>, received: seq<seq<u8>>)
  {
    && |pipes| == PIPE_MAX && |sent| == PIPE_MAX && |received| == PIPE_MAX
    && forall p: nat | p < PIPE_MAX :: StreamOk(pipes[p], sent[p], received[p])
  }

  /** Bytes taken out of ring p were received. */
  lemma StreamsAfterRead(a: seq<Pipe>, q: Pipe, sent: seq<seq<u8>>, received: seq<seq<u8>>, p: nat, n: nat)
    requires StreamsOk(a, sent, received) && p < PIPE_MAX && |q.buf| == PIPE_CAP && q.used == a[p].used
    requires |a[p].buf| == PIPE_CAP && n <= |RingOf(a[p])| && RingOf(q) == RingOf(a[p])[n..]
    ensures StreamsOk(a[p := q], sent, received[p := received[p] + RingOf(a[p])[..n]])
  {
    hide RingOf;
    var r := RingOf(a[p]);
    assert StreamOk(a[p], sent[p], received[p]);
    assert r == r[..n] + r[n..];
    assert received[p] + r == (received[p] + r[..n]) + r[n..];
    forall k: nat | k < PIPE_MAX && k != p
      ensures StreamOk(a[k], sent[k], received[k])
    {
    }
  }

  /** Bytes put into ring p were sent. */
  lemma StreamsAfterWrite(a: seq<Pipe>, q: Pipe, sent: seq<seq<u8>>, received: seq<seq<u8>>, p: nat, data: seq<u8>)
    requires StreamsOk(a, sent, received) && p < PIPE_MAX && |q.buf| == PIPE_CAP && q.used == a[p].used
    requires |a[p].buf| == PIPE_CAP && RingOf(q) == RingOf(a[p]) + data
    ensures StreamsOk(a[p := q], sent[p := sent[p] + data], received)
  {
    hide RingOf;
    assert StreamOk(a[p], sent[p], received[p]);
    assert received[p] + (RingOf(a[p]) + data) == (received[p] + RingOf(a[p])) + data;
    forall k: nat | k < PIPE_MAX && k != p
      ensures StreamOk(a[k], sent[k], received[k])
    {
    }
  }

  class FdTables {
    const tabs: array<Tab>
    const pipes: array<Pipe>
    /** All bytes written to each pipe and read from it in its present lifetime. */
    ghost var sent: seq<seq<u8>>
    ghost var received: seq<seq<u8>>

    ghost function Abs(): State
      reads tabs, pipes
    {
      State(tabs[..], pipes[..])
    }

    ghost predicate Valid()
      reads this, tabs, pipes
    {
      Inv(Abs()) && StreamsOk(pipes[..], sent, received)
    }

    constructor ()
      ensures Valid() && fresh(tabs) && fresh(pipes)
      ensures forall t: nat | t < MAX_TASKS :: TabShape(tabs[t]) && NoFds(tabs[t])
    {
      var noFiles := seq(MAX_FDS, _ => NO_OFILE);
      var noFds := seq(MAX_FDS, _ => NO_FD);
      var empty := seq(PIPE_CAP, _ => 0);
      tabs := new Tab[MAX_TASKS](_ => Tab(noFiles, noFds));
      pipes := new Pipe[PIPE_MAX](_ => Pipe(false, 0, 0, 0, 0, empty));
      sent, received := seq(PIPE_MAX, _ => []), seq(PIPE_MAX, _ => []);
      new;
      EmptyIsOk(Abs());
    }

    /** The open file a descriptor names, if it names one. */
    method OFileByFd(t: nat, fd: int) returns (ok: bool, o: nat)
      requires Inv(Abs()) && t < MAX_TASKS
      ensures ok <==> 0 <= fd < MAX_FDS && tabs[t].fds[fd].used
      ensures ok ==> o < MAX_FDS && tabs[t].fds[fd].ofile == o && tabs[t].ofiles[o].used
    {
      o := 0;
      if fd < 0 || fd >= MAX_FDS {
        return false, 0;
      }
      TabsOk(Abs(), t);
      var b := tabs[t];
      var e := b.fds[fd];
      if !e.used {
        return false, 0;
      }
      assert FdOk(b, fd) && OFileOk(b, e.ofile);
      ok, o := true, e.ofile;
    }

    /** The lowest free descriptor from `start` on. */
    method FindFreeFd(t: nat, start: nat) returns (fd: int)
      requires tabs.Length == MAX_TASKS && t < MAX_TASKS && TabShape(tabs[t])
      ensures fd >= 0 ==> start <= fd < MAX_FDS && !tabs[t].fds[fd].used && forall g: nat | start <= g < fd :: tabs[t].fds[g].used
      ensures fd < 0 ==> fd == -1 && forall g: nat | start <= g < MAX_FDS :: tabs[t].fds[g].used
    {
      var i := start;
      while i < MAX_FDS
        invariant forall g: nat | start <= g < i && g < MAX_FDS :: tabs[t].fds[g].used
      {
        if !tabs[t].fds[i].used {
          return i;
        }
        i := i + 1;
      }
      fd := -1;
    }

    /** The lowest free open-file entry other than `taken`. */
    method FindFreeOFile(t: nat, taken: int) returns (o: int)
      requires tabs.Length == MAX_TASKS && t < MAX_TASKS && TabShape(tabs[t])
      ensures o >= 0 ==> o < MAX_FDS && o != taken && !tabs[t].ofiles[o].used
      ensures o < 0 ==> o == -1 && forall g: nat | g < MAX_FDS && g != taken :: tabs[t].ofiles[g].used
    {
      for i := 0 to MAX_FDS
        invariant forall g: nat | g < i && g != taken :: tabs[t].ofiles[g].used
      {
        if i != taken && !tabs[t].ofiles[i].used {
          return i;
        }
      }
      o := -1;
    }

    method EndpointDec(kind: Kind, p: nat)
      requires pipes.Length == PIPE_MAX
      modifies pipes
      ensures pipes[..] == PipeDec(old(pipes[..]), kind, p)
    {
      if !IsPipe(kind) {
        return;
      }
      if p < PIPE_MAX && pipes[p].used {
        var q := pipes[p];
        if kind.PipeRead? {
          if q.readRefs != 0 {
            q := q.(readRefs := q.readRefs - 1);
          }
        } else if q.writeRefs != 0 {
          q := q.(writeRefs := q.writeRefs - 1);
        }
        if q.readRefs == 0 && q.writeRefs == 0 {
          q := q.(used := false, head := 0, len := 0);
        }
        pipes[p] := q;
      }
    }

    method EndpointInc(kind: Kind, p: nat)
      requires pipes.Length == PIPE_MAX
      modifies pipes
      ensures pipes[..] == PipeInc(old(pipes[..]), kind, p)
    {
      if !IsPipe(kind) {
        return;
      }
      if p < PIPE_MAX && pipes[p].used {
        if kind.PipeRead? {
          pipes[p] := pipes[p].(readRefs := pipes[p].readRefs + 1);
        } else {
          pipes[p] := pipes[p].(writeRefs := pipes[p].writeRefs + 1);
        }
      }
    }

    /** Closes a descriptor of a task. */
    method CloseSlotFd(t: nat, fd: int) returns (rc: int)
      requires Valid() && t < MAX_TASKS
      modifies tabs, pipes
      ensures Valid() && Inv(old(Abs()))
      ensures rc == if 0 <= fd < MAX_FDS && old(tabs[t]).fds[fd].used then FD_OK else FD_EBADF
      ensures rc == FD_OK ==> old(tabs[t]).fds[fd].ofile < MAX_FDS && Abs() == CloseFd(old(Abs()), t, fd)
      ensures rc == FD_OK ==> Closed(old(Abs()), Abs(), t, fd)
      ensures rc != FD_OK ==> Abs() == old(Abs())
    {
      ghost var s := Abs();
      var ok, o := OFileByFd(t, fd);
      if !ok {
        return FD_EBADF;
      }
      CloseKeeps(s, t, fd);
      CloseFrees(s, t, fd);
      var b := tabs[t];
      EndpointDec(b.ofiles[o].kind, b.ofiles[o].backend);
      var f := b.ofiles[o].(refs := if b.ofiles[o].refs != 0 then b.ofiles[o].refs - 1 else 0);
      if f.refs == 0 {
        f := NO_OFILE;
      }
      tabs[t] := Tab(b.ofiles[o := f], b.fds[fd := NO_FD]);
      assert Abs() == CloseFd(s, t, fd);
      rc := FD_OK;
    }

    /** Closes every descriptor of a task; nothing else is closed, and no pipe still in use is touched but for its counts. */
    method CloseAllFds(t: nat)
      requires Valid() && t < MAX_TASKS
      modifies tabs, pipes
      ensures Valid() && NoFds(tabs[t])
      ensures forall u: nat | u < MAX_TASKS && u != t :: tabs[u] == old(tabs[u])
      ensures RingsKept(old(pipes[..]), pipes[..])
    {
      hide Inv;
      Shaped(Abs());
      for i := 0 to MAX_FDS
        invariant Valid() && Shape(Abs())
        invariant forall g: nat | g < i :: !tabs[t].fds[g].used
        invariant forall u: nat | u < MAX_TASKS && u != t :: tabs[u] == old(tabs[u])
        invariant RingsKept(old(pipes[..]), pipes[..])
      {
        if tabs[t].fds[i].used {
          ghost var rc := CloseSlotFd(t, i);
          Shaped(Abs());
        }
      }
    }

    /** Closes exactly the descriptors of a task that are marked close-on-exec. */
    method CloseCloexec(t: nat) returns (closed: nat)
      requires Valid() && t < MAX_TASKS
      modifies tabs, pipes
      ensures Valid() && Shape(old(Abs())) && Shape(Abs())
      ensures forall g: nat | g < MAX_FDS ::
        tabs[t].fds[g] == if old(tabs[t]).fds[g].used && old(tabs[t]).fds[g].cloexec then NO_FD else old(tabs[t]).fds[g]
      ensures forall g: nat | g < MAX_FDS && tabs[t].fds[g].used && tabs[t].fds[g].ofile < MAX_FDS ::
        SameFile(tabs[t].ofiles[tabs[t].fds[g].ofile], old(tabs[t]).ofiles[tabs[t].fds[g].ofile])
      ensures forall u: nat | u < MAX_TASKS && u != t :: tabs[u] == old(tabs[u])
      ensures RingsKept(old(pipes[..]), pipes[..])
    {
      hide Inv;
      Shaped(Abs());
      closed := 0;
      ghost var b0 := tabs[t];
      for i := 0 to MAX_FDS
        invariant Valid() && Shape(Abs())
        invariant forall g: nat | g < i :: tabs[t].fds[g] == if b0.fds[g].used && b0.fds[g].cloexec then NO_FD else b0.fds[g]
        invariant forall g: nat | i <= g < MAX_FDS :: tabs[t].fds[g] == b0.fds[g]
        invariant forall o: nat | o < MAX_FDS && tabs[t].ofiles[o].used :: SameFile(tabs[t].ofiles[o], b0.ofiles[o])
        invariant forall u: nat | u < MAX_TASKS && u != t :: tabs[u] == old(tabs[u])
        invariant RingsKept(old(pipes[..]), pipes[..])
      {
        if tabs[t].fds[i].used && tabs[t].fds[i].cloexec {
          var rc := CloseSlotFd(t, i);
          if rc == FD_OK {
            closed := closed + 1;
          }
          Shaped(Abs());
        }
      }
      NamedInUse(Abs(), t);
    }

    /** Lets descriptor fd name open file o too. */
    method SetFd(t: nat, fd: nat, o: nat, cloexec: bool)
      requires Valid() && t < MAX_TASKS && fd < MAX_FDS && o < MAX_FDS && Inv(Attach(Abs(), t, fd, o, cloexec))
      modifies tabs, pipes
      ensures Valid() && Shape(old(Abs())) && Abs() == Attach(old(Abs()), t, fd, o, cloexec)
    {
      ghost var s := Abs();
      hide Inv;
      Shaped(s);
      var b := tabs[t];
      tabs[t] := Tab(b.ofiles[o := b.ofiles[o].(refs := b.ofiles[o].refs + 1)], b.fds[fd := FdEnt(true, o, cloexec)]);
      EndpointInc(b.ofiles[o].kind, b.ofiles[o].backend);
      assert Abs() == Attach(s, t, fd, o, cloexec);
    }

    /** Duplicates a descriptor to the lowest free one from minfd on: both then name the same open file. */
    method DupMin(t: nat, from: int, minfd: int, cloexec: bool) returns (fd: int)
      requires Valid() && t < MAX_TASKS
      modifies tabs, pipes
      ensures Valid() && Inv(old(Abs()))
      ensures minfd < 0 ==> fd == FD_EINVAL
      ensures minfd >= MAX_FDS ==> fd == FD_EBADF
      ensures 0 <= minfd < MAX_FDS && !(0 <= from < MAX_FDS && old(tabs[t]).fds[from].used) ==> fd == FD_EBADF
      ensures fd < 0 ==> Abs() == old(Abs())
      ensures fd == FD_EMFILE ==> 0 <= minfd && forall g: nat | minfd <= g < MAX_FDS :: tabs[t].fds[g].used
      ensures fd >= 0 ==> 0 <= minfd <= fd < MAX_FDS && !old(tabs[t]).fds[fd].used
      ensures fd >= 0 ==> forall g: nat | minfd <= g < fd :: old(tabs[t]).fds[g].used
      ensures fd >= 0 ==> 0 <= from < MAX_FDS && old(tabs[t]).fds[from].used && old(tabs[t]).fds[from].ofile < MAX_FDS
      ensures fd >= 0 ==> Abs() == Attach(old(Abs()), t, fd, old(tabs[t]).fds[from].ofile, cloexec)
      ensures fd >= 0 ==> SameTarget(old(Abs()), Abs(), t, from, fd, cloexec)
      ensures forall u: nat | u < MAX_TASKS && u != t :: tabs[u] == old(tabs[u])
      ensures RingsKept(old(pipes[..]), pipes[..])
      ensures fd >= 0 || fd == FD_EINVAL || fd == FD_EBADF || fd == FD_EMFILE
    {
      ghost var s := Abs();
      if minfd < 0 {
        return FD_EINVAL;
      }
      if minfd >= MAX_FDS {
        return FD_EBADF;
      }
      var ok, o := OFileByFd(t, from);
      if !ok {
        return FD_EBADF;
      }
      fd := FindFreeFd(t, minfd);
      if fd < 0 {
        return FD_EMFILE;
      }
      AttachKeeps(s, t, fd, from, cloexec);
      AttachNames(s, t, fd, from, cloexec);
      SetFd(t, fd, o, cloexec);
    }

    /** Makes descriptor `to` name the open file of `from`, closing what it named before, be it the same file or the other end of the same pipe. */
    method Dup2(t: nat, from: int, to: int) returns (rc: int)
      requires Valid() && t < MAX_TASKS
      modifies tabs, pipes
      ensures Valid() && Inv(old(Abs()))
      ensures !(0 <= to < MAX_FDS) ==> rc == FD_EINVAL
      ensures 0 <= to < MAX_FDS && !(0 <= from < MAX_FDS && old(tabs[t]).fds[from].used) ==> rc == FD_EBADF
      ensures 0 <= to < MAX_FDS && 0 <= from < MAX_FDS && old(tabs[t]).fds[from].used ==> rc == to
      ensures rc < 0 || from == to ==> Abs() == old(Abs())
      ensures rc >= 0 && from != to ==> SameTarget(old(Abs()), Abs(), t, from, to, false)
      ensures forall u: nat | u < MAX_TASKS && u != t :: tabs[u] == old(tabs[u])
      ensures RingsKept(old(pipes[..]), pipes[..])
    {
      ghost var s := Abs();
      if to < 0 || to >= MAX_FDS {
        return FD_EINVAL;
      }
      var ok, o := OFileByFd(t, from);
      if !ok {
        return FD_EBADF;
      }
      if from == to {
        return to;
      }
      hide Inv, CloseFd, Attach, SameTarget, RingsKept;
      Dup2Works(s, t, from, to);
      Shaped(s);
      if tabs[t].fds[to].used {
        ghost var crc := CloseSlotFd(t, to);
      }
      ghost var s1 := Abs();
      assert s1 == Vacated(s, t, to);
      Shaped(s1);
      SetFd(t, to, o, false);
      rc := to;
    }

    /** Finds a free descriptor and a free open-file entry and installs a new open file there. */
    method Install(t: nat, f: OFile) returns (fd: int)
      requires Valid() && t < MAX_TASKS && !IsPipe(f.kind)
      modifies tabs
      ensures Valid() && Inv(old(Abs()))
      ensures fd < 0 ==> fd == FD_EMFILE && Abs() == old(Abs())
      ensures fd < 0 ==> forall g: nat | g < MAX_FDS :: tabs[t].fds[g].used
      ensures fd >= 0 ==> fd < MAX_FDS && !old(tabs[t]).fds[fd].used && forall g: nat | g < fd :: old(tabs[t]).fds[g].used
      ensures fd >= 0 ==> Opened(old(Abs()), Abs(), t, fd, f)
    {
      ghost var s := Abs();
      fd := FindFreeFd(t, 0);
      if fd < 0 {
        return FD_EMFILE;
      }
      var o := FindFreeOFile(t, -1);
      OFileIsFree(s.tabs[t], fd, fd, -1);
      if o < 0 {
        return FD_EMFILE;
      }
      OpenKeeps(s, t, fd, o, f);
      var b := tabs[t];
      tabs[t] := Tab(b.ofiles[o := f.(used := true, refs := 1)], b.fds[fd := FdEnt(true, o, false)]);
      assert OpenedAt(s, Abs(), t, fd, f, o);
    }

    /** Opens one of the special files. */
    method OpenSpecial(t: nat, special: nat, flags: nat) returns (fd: int)
      requires Valid() && t < MAX_TASKS
      modifies tabs
      ensures Valid() && Inv(old(Abs()))
      ensures fd == FD_EINVAL <==> !(1 <= special <= 4)
      ensures fd == FD_EMFILE <==> 1 <= special <= 4 && forall g: nat | g < MAX_FDS :: old(tabs[t]).fds[g].used
      ensures fd < 0 ==> (fd == FD_EINVAL || fd == FD_EMFILE) && Abs() == old(Abs())
      ensures fd >= 0 ==> fd < MAX_FDS && !old(tabs[t]).fds[fd].used && forall g: nat | g < fd :: old(tabs[t]).fds[g].used
      ensures fd >= 0 ==> Opened(old(Abs()), Abs(), t, fd, OFile(true, 1, SpecialKind(special), 0, OpenFlags(flags), 0, 0, 0, false))
      ensures fd >= 0 ==> tabs[t].fds[fd].ofile < MAX_FDS && IsSpecial(tabs[t].ofiles[tabs[t].fds[fd].ofile], special, flags)
    {
      if special < 1 || special > 4 {
        return FD_EINVAL;
      }
      fd := Install(t, OFile(true, 1, SpecialKind(special), 0, OpenFlags(flags), 0, 0, 0, false));
    }

    /** Opens a regular file or directory. */
    method OpenRegular(t: nat, flags: nat, backend: nat, fileId: nat, size: nat, isDir: bool) returns (fd: int)
      requires Valid() && t < MAX_TASKS
      modifies tabs
      ensures Valid() && Inv(old(Abs()))
      ensures fd == FD_EINVAL <==> flags % 4 == 3
      ensures fd == FD_EMFILE <==> flags % 4 != 3 && forall g: nat | g < MAX_FDS :: old(tabs[t]).fds[g].used
      ensures fd < 0 ==> (fd == FD_EINVAL || fd == FD_EMFILE) && Abs() == old(Abs())
      ensures fd >= 0 ==> fd < MAX_FDS && !old(tabs[t]).fds[fd].used && forall g: nat | g < fd :: old(tabs[t]).fds[g].used
      ensures fd >= 0 ==>
        Opened(old(Abs()), Abs(), t, fd, OFile(true, 1, Regular, backend, OpenFlags(flags), fileId, size, 0, isDir))
    {
      if flags % 4 == 3 {
        return FD_EINVAL;
      }
      fd := Install(t, OFile(true, 1, Regular, backend, OpenFlags(flags), fileId, size, 0, isDir));
    }

    method AllocPipe() returns (p: int)
      requires pipes.Length == PIPE_MAX
      ensures p >= 0 ==> p < PIPE_MAX && !pipes[p].used
      ensures p < 0 ==> forall q: nat | q < PIPE_MAX :: pipes[q].used
    {
      for i := 0 to PIPE_MAX
        invariant forall q: nat | q < i :: pipes[q].used
      {
        if !pipes[i].used {
          return i;
        }
      }
      p := -1;
    }

    /** Opens a pipe: an empty one, with a descriptor on each end. */
    method OpenPipeEnds(t: nat) returns (rc: int, rfd: nat, wfd: nat)
      requires Valid() && t < MAX_TASKS
      modifies this, tabs, pipes
      ensures Valid() && Inv(old(Abs()))
      ensures rc != FD_OK ==> rc == FD_EMFILE && Abs() == old(Abs()) && sent == old(sent) && received == old(received)
      ensures rc != FD_OK ==> !TwoFree(tabs[t]) || forall p: nat | p < PIPE_MAX :: pipes[p].used
      ensures rc == FD_OK ==> rfd < wfd < MAX_FDS && forall g: nat | g <= wfd :: old(tabs[t]).fds[g].used <==> g != rfd && g != wfd
      ensures rc == FD_OK ==> |old(sent)| == PIPE_MAX && |old(received)| == PIPE_MAX
      ensures rc == FD_OK ==> exists p: nat, ro: nat, wo: nat :: PipeOpened(old(Abs()), Abs(), t, rfd, ro, wfd, wo, p) && sent == old(sent)[p := []] && received == old(received)[p := []]
    {
      rc, rfd, wfd := FD_EMFILE, 0, 0;
      ghost var s := Abs();
      var r := FindFreeFd(t, 0);
      if r < 0 {
        return;
      }
      var w := FindFreeFd(t, r + 1);
      if w < 0 {
        return;
      }
      var ro := FindFreeOFile(t, -1);
      OFileIsFree(s.tabs[t], r, w, -1);
      if ro < 0 {
        return;
      }
      var wo := FindFreeOFile(t, ro);
      OFileIsFree(s.tabs[t], r, w, ro);
      if wo < 0 {
        return;
      }
      var p := AllocPipe();
      if p < 0 {
        return;
      }
      OpenPipeKeeps(s, t, r, ro, w, wo, p);
      NewPipe(s, t, r, ro, w, wo, p);
      hide Inv, PipeOpened, TwoFree;
      pipes[p] := Pipe(true, 1, 1, 0, 0, pipes[p].buf);
      sent, received := sent[p := []], received[p := []];
      var b := tabs[t];
      tabs[t] := Tab(b.ofiles[ro := EndOf(PipeRead, p)][wo := EndOf(PipeWrite, p)], b.fds[r := FdEnt(true, ro, false)][w := FdEnt(true, wo, false)]);
      assert Abs() == OpenPipe(s, t, r, ro, w, wo, p);
      return FD_OK, r, w;
    }

    /** The standard descriptors of a new task. */
    method InitStdio(t: nat)
      requires Valid() && t < MAX_TASKS && NoFds(tabs[t])
      modifies tabs
      ensures Valid() && TabShape(tabs[t])
      ensures forall g: nat | g < MAX_FDS :: tabs[t].fds[g].used <==> g < 3
      ensures forall g: nat | g < 3 :: tabs[t].fds[g].ofile == g && tabs[t].ofiles[g].kind == [Stdin, Stdout, Stderr][g]
      ensures forall u: nat | u < MAX_TASKS && u != t :: tabs[u] == old(tabs[u])
    {
      ghost var s := Abs();
      ClearKeeps(s, t);
      tabs[t] := Tab(seq(MAX_FDS, _ => NO_OFILE), seq(MAX_FDS, _ => NO_FD));
      assert Abs() == s.(tabs := s.tabs[t := EmptyTab()]);
      for i := 0 to 3
        invariant Valid() && TabShape(tabs[t])
        invariant forall g: nat | g < MAX_FDS :: tabs[t].fds[g].used <==> g < i
        invariant forall g: nat | g < MAX_FDS :: tabs[t].ofiles[g].used <==> g < i
        invariant forall g: nat | g < i :: tabs[t].fds[g].ofile == g && tabs[t].ofiles[g].kind == [Stdin, Stdout, Stderr][g]
        invariant forall u: nat | u < MAX_TASKS && u != t :: tabs[u] == old(tabs[u])
      {
        ghost var s1 := Abs();
        var f := OFile(true, 1, [Stdin, Stdout, Stderr][i], 0, if i == 0 then 0 else 1, 0, 0, 0, false);
        OpenKeeps(s1, t, i, i, f);
        var b := tabs[t];
        tabs[t] := Tab(b.ofiles[i := f], b.fds[i := FdEnt(true, i, false)]);
        assert Abs() == Open(s1, t, i, i, f);
      }
    }

    /** Gives a child without descriptors the same ones as its parent. */
    method CloneTable(dst: nat, src: nat) returns (rc: int)
      requires Valid() && dst < MAX_TASKS && src < MAX_TASKS && dst != src && NoFds(tabs[dst])
      modifies tabs, pipes
      ensures Valid() && rc == FD_OK && tabs[dst] == tabs[src] == old(tabs[src])
      ensures forall u: nat | u < MAX_TASKS && u != dst :: tabs[u] == old(tabs[u])
      ensures RingsKept(old(pipes[..]), pipes[..]) && forall p: nat | p < PIPE_MAX :: pipes[p].used == old(pipes[p]).used
    {
      hide Inv, IsEnd, FdsBelow, EndsBelow, Counted, PipeInc, NoFds;
      ghost var s := Abs();
      Shaped(s);
      NamedInUse(s, src);
      var b := tabs[src];
      tabs[dst] := Tab(seq(MAX_FDS, o requires 0 <= o < MAX_FDS => b.ofiles[o].(refs := 0)), b.fds);
      NothingBelow(s, b, tabs[dst]);
      for i := 0 to MAX_FDS
        invariant Shape(Abs()) && Counted(s, b, i, tabs[dst], pipes[..])
        invariant tabs[dst].fds == b.fds
        invariant forall u: nat | u < MAX_TASKS && u != dst :: tabs[u] == old(tabs[u])
      {
        CountNext(s, src, i, tabs[dst], pipes[..]);
        if b.fds[i].used {
          var o := b.fds[i].ofile;
          tabs[dst] := tabs[dst].(ofiles := tabs[dst].ofiles[o := tabs[dst].ofiles[o].(refs := tabs[dst].ofiles[o].refs + 1)]);
          EndpointInc(b.ofiles[o].kind, b.ofiles[o].backend);
        }
      }
      assert Abs().tabs == s.tabs[dst := tabs[dst]];
      CloneCounted(s, Abs(), dst, src);
      Shaped(Abs());
      rc := FD_OK;
    }

    /** The pipe behind a descriptor of the wanted kind. */
    method PipeOfFd(t: nat, fd: int, kind: Kind) returns (ok: bool, p: nat)
      requires Inv(Abs()) && t < MAX_TASKS && IsPipe(kind)
      ensures Shape(Abs()) && p < PIPE_MAX
      ensures ok <==> IsOpenEnd(Abs(), t, fd, kind)
      ensures ok ==> p == PipeAt(Abs(), t, fd) && pipes[p].used
    {
      p := 0;
      var found, o := OFileByFd(t, fd);
      if !found {
        return false, 0;
      }
      var f := tabs[t].ofiles[o];
      if f.kind != kind {
        return false, 0;
      }
      EndInUse(Abs(), t, fd, kind, f.backend);
      ok, p := true, f.backend;
    }

    /** Takes the oldest byte out of pipe p. */
    method TakeByte(p: nat) returns (x: u8)
      requires pipes.Length == PIPE_MAX && p < PIPE_MAX
      requires |pipes[p].buf| == PIPE_CAP && pipes[p].head < PIPE_CAP && 0 < pipes[p].len <= PIPE_CAP
      modifies pipes
      ensures pipes[..] == old(pipes[..])[p := Taken(old(pipes[p]))] && |RingOf(old(pipes[p]))| > 0
      ensures x == RingOf(old(pipes[p]))[0] && RingOf(Taken(old(pipes[p]))) == RingOf(old(pipes[p]))[1..]
    {
      TakenIsTail(pipes[p]);
      x := pipes[p].buf[pipes[p].head];
      pipes[p] := pipes[p].(head := (pipes[p].head + 1) % PIPE_CAP, len := pipes[p].len - 1);
    }

    /** Puts a byte behind the newest one in pipe p. */
    method PutByte(p: nat, x: u8)
      requires pipes.Length == PIPE_MAX && p < PIPE_MAX
      requires |pipes[p].buf| == PIPE_CAP && pipes[p].head < PIPE_CAP && pipes[p].len < PIPE_CAP
      modifies pipes
      ensures pipes[..] == old(pipes[..])[p := Put(old(pipes[p]), x)]
      ensures RingOf(Put(old(pipes[p]), x)) == RingOf(old(pipes[p])) + [x]
    {
      PutIsAppend(pipes[p], x);
      var tail := (pipes[p].head + pipes[p].len) % PIPE_CAP;
      pipes[p] := pipes[p].(buf := pipes[p].buf[tail := x], len := pipes[p].len + 1);
    }

    /** Takes up to `len` bytes out of pipe p, oldest first. */
    method Drain(p: nat, dst: array<u8>, len: nat) returns (copied: nat)
      requires pipes.Length == PIPE_MAX && p < PIPE_MAX && len <= dst.Length
      requires |pipes[p].buf| == PIPE_CAP && pipes[p].head < PIPE_CAP && pipes[p].len <= PIPE_CAP
      modifies pipes, dst
      ensures Drained(old(pipes[p]), pipes[p], copied) && copied == Min(old(pipes[p]).len, len)
      ensures dst[..copied] == RingOf(old(pipes[p]))[..copied] && dst[copied..] == old(dst[copied..])
      ensures pipes[..] == old(pipes[..])[p := pipes[p]]
    {
      hide RingOf;
      ghost var q := pipes[p];
      ghost var r := RingOf(q);
      copied := 0;
      assert r[0..] == r;
      while copied < len && pipes[p].len != 0
        invariant copied <= len && Drained(q, pipes[p], copied)
        invariant forall k :: 0 <= k < dst.Length ==> dst[k] == if k < copied then r[k] else old(dst[k])
        invariant pipes[..] == old(pipes[..])[p := pipes[p]]
      {
        DrainedNext(q, pipes[p], copied);
        dst[copied] := TakeByte(p);
        copied := copied + 1;
      }
    }

    /** Puts as many bytes of `src` into pipe p as there is room for. */
    method Fill(p: nat, src: seq<u8>) returns (written: nat)
      requires pipes.Length == PIPE_MAX && p < PIPE_MAX
      requires |pipes[p].buf| == PIPE_CAP && pipes[p].head < PIPE_CAP && pipes[p].len <= PIPE_CAP
      modifies pipes
      ensures written == Min(PIPE_CAP - old(pipes[p]).len, |src|) && Filled(old(pipes[p]), pipes[p], src[..written])
      ensures pipes[..] == old(pipes[..])[p := pipes[p]]
    {
      hide RingOf, Put;
      ghost var q := pipes[p];
      written := 0;
      assert RingOf(q) + src[..0] == RingOf(q);
      while written < |src| && pipes[p].len < PIPE_CAP
        invariant written <= |src| && Filled(q, pipes[p], src[..written])
        invariant pipes[..] == old(pipes[..])[p := pipes[p]]
      {
        assert src[..written + 1] == src[..written] + [src[written]];
        FilledNext(q, pipes[p], src[..written], src[written]);
        PutByte(p, src[written]);
        written := written + 1;
      }
    }

    /** Reads from the pipe behind a descriptor. It returns 0 only when the pipe is empty and no task has its write end open. */
    method PipeReadFd(t: nat, fd: int, dst: array<u8>, len: nat) returns (rc: int)
      requires Valid() && t < MAX_TASKS && len <= dst.Length
      modifies this`received, pipes, dst
      ensures Valid() && Shape(old(Abs()))
      ensures len == 0 ==> rc == 0
      ensures len > 0 && !IsOpenEnd(old(Abs()), t, fd, PipeRead) ==> rc == FD_EBADF
      ensures rc <= 0 ==> Abs() == old(Abs()) && dst[..] == old(dst[..]) && received == old(received)
      ensures len > 0 && IsOpenEnd(old(Abs()), t, fd, PipeRead) ==>
        ReadsFrom(old(Abs()), Abs(), PipeAt(old(Abs()), t, fd), rc, len, dst[..len], old(received), received)
    {
      if len == 0 {
        return 0;
      }
      hide Inv, Ends, RingOf, IsEnd, StreamsOk;
      ghost var s := Abs();
      var ok, p := PipeOfFd(t, fd, PipeRead);
      if !ok {
        return FD_EBADF;
      }
      PipeFacts(s, p);
      var copied := Drain(p, dst, len);
      PipesOnly(s, Abs(), p);
      if copied != 0 {
        assert dst[..len][..copied] == dst[..copied];
        StreamsAfterRead(s.pipes, pipes[p], sent, received, p, copied);
        received := received[p := received[p] + dst[..copied]];
        return copied;
      }
      if pipes[p].writeRefs == 0 {
        return 0;
      }
      rc := FD_EAGAIN;
    }

    /** Writes to the pipe behind a descriptor. It fails with EPIPE exactly when no task has the read end open. */
    method PipeWriteFd(t: nat, fd: int, src: seq<u8>) returns (rc: int)
      requires Valid() && t < MAX_TASKS
      modifies this`sent, pipes
      ensures Valid() && Shape(old(Abs()))
      ensures src == [] ==> rc == 0
      ensures src != [] && !IsOpenEnd(old(Abs()), t, fd, PipeWrite) ==> rc == FD_EBADF
      ensures rc <= 0 ==> Abs() == old(Abs()) && sent == old(sent)
      ensures src != [] && IsOpenEnd(old(Abs()), t, fd, PipeWrite) ==>
        WritesTo(old(Abs()), Abs(), PipeAt(old(Abs()), t, fd), rc, src, old(sent), sent)
    {
      if |src| == 0 {
        return 0;
      }
      hide Inv, Ends, RingOf, IsEnd, StreamsOk;
      ghost var s := Abs();
      var ok, p := PipeOfFd(t, fd, PipeWrite);
      if !ok {
        return FD_EBADF;
      }
      PipeFacts(s, p);
      if pipes[p].readRefs == 0 {
        return FD_EPIPE;
      }
      var written := Fill(p, src);
      PipesOnly(s, Abs(), p);
      if written != 0 {
        StreamsAfterWrite(s.pipes, pipes[p], sent, received, p, src[..written]);
        sent := sent[p := sent[p] + src[..written]];
        return written;
      }
      rc := FD_EAGAIN;
    }
  }

  lemma EmptyIsOk(s: State)
    requires |s.tabs| == MAX_TASKS && |s.pipes| == PIPE_MAX
    requires forall t: nat | t < MAX_TASKS :: s.tabs[t] == Tab(seq(MAX_FDS, _ => NO_OFILE), seq(MAX_FDS, _ => NO_FD))
    requires forall p: nat | p < PIPE_MAX :: s.pipes[p] == Pipe(false, 0, 0, 0, 0, s.pipes[p].buf) && |s.pipes[p].buf| == PIPE_CAP
    ensures Inv(s)
  {
    forall t: nat, o: nat | t < MAX_TASKS && o < MAX_FDS
      ensures FdsOf(s.tabs[t], o) == {}
    {
    }
    forall p: nat, kind: Kind | p < PIPE_MAX
      ensures Ends(s, kind, p) == {}
    {
    }
  }

  /** An open file that differs at most in how many descriptors name it. */
  predicate SameFile(f: OFile, g: OFile) { f.(refs := 0) == g.(refs := 0) }

  /** The pipes still in use hold the same bytes. */
  ghost predicate RingsKept(a: seq<Pipe>, b: seq<Pipe>)
  {
    |a| == |b| && forall p: nat | p < |a| && b[p].used :: a[p].used && SameRing(a[p], b[p])
  }

  predicate SameRing(p: Pipe, q: Pipe) { p.head == q.head && p.len == q.len && p.buf == q.buf }

  /** Descriptor fd is free; no other descriptor differs, nor what any of them names, and pipes still in use hold the same bytes. */
  ghost predicate Closed(s: State, s': State, t: nat, fd: nat)
  {
    && Shape(s) && Shape(s') && t < MAX_TASKS && fd < MAX_FDS && !s'.tabs[t].fds[fd].used
    && (forall g: nat | g < MAX_FDS && g != fd :: s'.tabs[t].fds[g] == s.tabs[t].fds[g])
    && (forall o: nat | o < MAX_FDS && s'.tabs[t].ofiles[o].used :: SameFile(s'.tabs[t].ofiles[o], s.tabs[t].ofiles[o]))
    && (forall u: nat | u < MAX_TASKS && u != t :: s'.tabs[u] == s.tabs[u])
    && RingsKept(s.pipes, s'.pipes)
  }

  lemma CloseFrees(s: State, t: nat, fd: nat)
    requires Inv(s) && t < MAX_TASKS && fd < MAX_FDS && s.tabs[t].fds[fd].used && s.tabs[t].fds[fd].ofile < MAX_FDS
    ensures Closed(s, CloseFd(s, t, fd), t, fd)
  {
    hide Inv;
    Shaped(s);
  }

  lemma AttachNames(s: State, t: nat, fd: nat, from: nat, cloexec: bool)
    requires Inv(s) && t < MAX_TASKS && fd < MAX_FDS && from < MAX_FDS && !s.tabs[t].fds[fd].used
    requires s.tabs[t].fds[from].used && s.tabs[t].fds[from].ofile < MAX_FDS
    ensures var s' := Attach(s, t, fd, s.tabs[t].fds[from].ofile, cloexec);
      SameTarget(s, s', t, from, fd, cloexec) && RingsKept(s.pipes, s'.pipes)
  {
    hide Inv;
    Shaped(s);
  }

  /** Descriptor `to` names the open file `from` names, which is what it was but for its count; no other descriptor of the task differs. */
  ghost predicate SameTarget(s: State, s': State, t: nat, from: nat, to: nat, cloexec: bool)
  {
    && Shape(s) && Shape(s') && t < MAX_TASKS && from < MAX_FDS && to < MAX_FDS
    && s.tabs[t].fds[from].used && s.tabs[t].fds[from].ofile < MAX_FDS
    && s'.tabs[t].fds[to] == FdEnt(true, s.tabs[t].fds[from].ofile, cloexec)
    && (forall g: nat | g < MAX_FDS && g != to :: s'.tabs[t].fds[g] == s.tabs[t].fds[g])
    && SameFile(s'.tabs[t].ofiles[s.tabs[t].fds[from].ofile], s.tabs[t].ofiles[s.tabs[t].fds[from].ofile])
    && forall o: nat | o < MAX_FDS && s'.tabs[t].ofiles[o].used :: SameFile(s'.tabs[t].ofiles[o], s.tabs[t].ofiles[o])
  }

  lemma Shaped(s: State)
    requires Inv(s)
    ensures Shape(s) && forall p: nat | p < PIPE_MAX :: |s.pipes[p].buf| == PIPE_CAP
  {
    forall p: nat | p < PIPE_MAX
      ensures |s.pipes[p].buf| == PIPE_CAP
    {
      assert PipeOk(s, p);
    }
  }

  /** What the invariant says about one pipe. */
  lemma PipeFacts(s: State, p: nat)
    requires Inv(s) && p < PIPE_MAX
    ensures Shape(s) && |s.pipes[p].buf| == PIPE_CAP && s.pipes[p].head < PIPE_CAP && s.pipes[p].len <= PIPE_CAP
    ensures s.pipes[p].writeRefs == 0 <==> Ends(s, PipeWrite, p) == {}
    ensures s.pipes[p].readRefs == 0 <==> Ends(s, PipeRead, p) == {}
  {
    assert PipeOk(s, p);
  }

  lemma NamedInUse(s: State, t: nat)
    requires Inv(s) && t < MAX_TASKS
    ensures TabShape(s.tabs[t])
    ensures forall g: nat | g < MAX_FDS && s.tabs[t].fds[g].used :: s.tabs[t].fds[g].ofile < MAX_FDS && s.tabs[t].ofiles[s.tabs[t].fds[g].ofile].used
  {
    TabsOk(s, t);
    forall g: nat | g < MAX_FDS && s.tabs[t].fds[g].used
      ensures s.tabs[t].fds[g].ofile < MAX_FDS && s.tabs[t].ofiles[s.tabs[t].fds[g].ofile].used
    {
      assert FdOk(s.tabs[t], g);
    }
  }

  /** The state once descriptor fd is free. */
  function Vacated(s: State, t: nat, fd: nat): State
    requires t < |s.tabs| && fd < |s.tabs[t].fds| && (s.tabs[t].fds[fd].used ==> s.tabs[t].fds[fd].ofile < |s.tabs[t].ofiles|)
  {
    if s.tabs[t].fds[fd].used then CloseFd(s, t, fd) else s
  }

  lemma CloseKeepsOthers(s: State, t: nat, fd: nat, from: nat)
    requires Inv(s) && t < MAX_TASKS && fd < MAX_FDS && s.tabs[t].fds[fd].used && from < MAX_FDS && from != fd && s.tabs[t].fds[from].used
    ensures s.tabs[t].fds[fd].ofile < MAX_FDS && s.tabs[t].fds[from].ofile < MAX_FDS
    ensures var s' := CloseFd(s, t, fd);
      var o := s.tabs[t].fds[from].ofile;
      && Shape(s') && SameFile(s'.tabs[t].ofiles[o], s.tabs[t].ofiles[o]) && s'.tabs[t].ofiles[o].used && RingsKept(s.pipes, s'.pipes)
      && forall q: nat | q < MAX_FDS && s'.tabs[t].ofiles[q].used :: SameFile(s'.tabs[t].ofiles[q], s.tabs[t].ofiles[q])
  {
    TabsOk(s, t);
    var b := s.tabs[t];
    assert FdOk(b, fd) && FdOk(b, from);
    if b.fds[fd].ofile == b.fds[from].ofile {
      StillNamed(b, fd, from, b.fds[fd].ofile);
    }
  }

  /** Duplicating onto a descriptor, whatever it named before, keeps every count right and gives both descriptors one target. */
  lemma Dup2Works(s: State, t: nat, from: nat, to: nat)
    requires Inv(s) && t < MAX_TASKS && from < MAX_FDS && to < MAX_FDS && from != to && s.tabs[t].fds[from].used
    ensures s.tabs[t].fds[from].ofile < MAX_FDS && (s.tabs[t].fds[to].used ==> s.tabs[t].fds[to].ofile < MAX_FDS)
    ensures var s1 := Vacated(s, t, to);
      var o := s.tabs[t].fds[from].ofile;
      && Shape(s1) && Inv(Attach(s1, t, to, o, false))
      && SameTarget(s, Attach(s1, t, to, o, false), t, from, to, false)
      && RingsKept(s.pipes, Attach(s1, t, to, o, false).pipes)
  {
    TabsOk(s, t);
    assert FdOk(s.tabs[t], from) && FdOk(s.tabs[t], to);
    var s1 := Vacated(s, t, to);
    if s.tabs[t].fds[to].used {
      CloseKeeps(s, t, to);
      CloseKeepsOthers(s, t, to, from);
    }
    AttachKeeps(s1, t, to, from, false);
  }

  /** Free descriptor fd of task t came to name the new open file f, in a free entry, and nothing else differs. */
  ghost predicate Opened(s: State, s': State, t: nat, fd: nat, f: OFile)
  {
    exists o: nat :: OpenedAt(s, s', t, fd, f, o)
  }

  ghost predicate OpenedAt(s: State, s': State, t: nat, fd: nat, f: OFile, o: nat)
  {
    && Shape(s) && t < MAX_TASKS && fd < MAX_FDS && o < MAX_FDS && !s.tabs[t].ofiles[o].used
    && Shape(s') && s'.tabs[t].fds[fd] == FdEnt(true, o, false) && s'.tabs[t].ofiles[o] == f.(used := true, refs := 1)
    && (forall g: nat | g < MAX_FDS && g != fd :: s'.tabs[t].fds[g] == s.tabs[t].fds[g])
    && (forall k: nat | k < MAX_FDS && k != o :: s'.tabs[t].ofiles[k] == s.tabs[t].ofiles[k])
    && (forall u: nat | u < MAX_TASKS && u != t :: s'.tabs[u] == s.tabs[u]) && s'.pipes == s.pipes
  }

  /** A pipe was opened in free entries: an empty one, with one descriptor on each end, and nothing else differs. */
  ghost predicate PipeOpened(s: State, s': State, t: nat, rfd: nat, ro: nat, wfd: nat, wo: nat, p: nat)
  {
    && Shape(s) && t < MAX_TASKS && rfd < wfd < MAX_FDS && ro < MAX_FDS && wo < MAX_FDS && ro != wo && p < PIPE_MAX
    && !s.tabs[t].ofiles[ro].used && !s.tabs[t].ofiles[wo].used && !s.pipes[p].used
    && Shape(s') && s'.tabs[t].fds[rfd] == FdEnt(true, ro, false) && s'.tabs[t].fds[wfd] == FdEnt(true, wo, false)
    && s'.tabs[t].ofiles[ro] == OFile(true, 1, PipeRead, p, 0, 0, 0, 0, false)
    && s'.tabs[t].ofiles[wo] == OFile(true, 1, PipeWrite, p, 1, 0, 0, 0, false)
    && s'.pipes[p].used && s'.pipes[p].readRefs == 1 && s'.pipes[p].writeRefs == 1 && s'.pipes[p].len == 0
    && (forall g: nat | g < MAX_FDS && g != rfd && g != wfd :: s'.tabs[t].fds[g] == s.tabs[t].fds[g])
    && (forall k: nat | k < MAX_FDS && k != ro && k != wo :: s'.tabs[t].ofiles[k] == s.tabs[t].ofiles[k])
    && (forall u: nat | u < MAX_TASKS && u != t :: s'.tabs[u] == s.tabs[u])
    && (forall q: nat | q < PIPE_MAX && q != p :: s'.pipes[q] == s.pipes[q])
  }

  lemma NewPipe(s: State, t: nat, rfd: nat, ro: nat, wfd: nat, wo: nat, p: nat)
    requires Shape(s) && t < MAX_TASKS && rfd < wfd < MAX_FDS && ro < MAX_FDS && wo < MAX_FDS && ro != wo && p < PIPE_MAX
    requires !s.tabs[t].ofiles[ro].used && !s.tabs[t].ofiles[wo].used && !s.pipes[p].used
    ensures PipeOpened(s, OpenPipe(s, t, rfd, ro, wfd, wo, p), t, rfd, ro, wfd, wo, p)
  {
  }

  /** Two descriptors of the table are free. */
  ghost predicate TwoFree(b: Tab)
  {
    TabShape(b) && exists r: nat, w: nat :: r < w < MAX_FDS && !b.fds[r].used && !b.fds[w].used
  }

  /** An open special file is of the kind asked for, in the access mode asked for, non-blocking exactly if asked for. */
  predicate IsSpecial(f: OFile, special: nat, flags: nat)
  {
    && (special == 1 <==> f.kind == DevNull) && (special == 2 <==> f.kind == DevZero)
    && (special == 3 <==> f.kind == DevTty) && (special == 4 <==> f.kind == Socket)
    && f.status % 0x800 == flags % 4 && (f.status / 0x800 == if flags / 0x800 % 2 == 1 then 1 else 0)
  }

  function SpecialKind(special: nat): Kind
    requires 1 <= special <= 4
  {
    [DevNull, DevZero, DevTty, Socket][special - 1]
  }

  /** The access mode and the non-blocking bit of open flags. */
  function OpenFlags(flags: nat): nat { flags % 4 + (if flags / O_NONBLOCK % 2 == 1 then O_NONBLOCK else 0) }

  function EmptyTab(): Tab { Tab(seq(MAX_FDS, _ => NO_OFILE), seq(MAX_FDS, _ => NO_FD)) }

  /** Clearing a table that names nothing changes nothing that counts. */
  lemma ClearKeeps(s: State, t: nat)
    requires Inv(s) && t < MAX_TASKS && NoFds(s.tabs[t])
    ensures Inv(s.(tabs := s.tabs[t := EmptyTab()]))
  {
    var s' := s.(tabs := s.tabs[t := EmptyTab()]);
    forall o: nat | o < MAX_FDS
      ensures OFileOk(EmptyTab(), o)
    {
      assert FdsOf(EmptyTab(), o) == {};
    }
    forall u: nat | u < MAX_TASKS
      ensures TabOk(s'.tabs[u])
    {
      TabsOk(s, u);
    }
    forall p: nat | p < PIPE_MAX
      ensures PipeOk(s', p)
    {
      assert PipeOk(s, p);
      EndsAfter(s, s', t, 0, PipeRead, p);
      EndsAfter(s, s', t, 0, PipeWrite, p);
    }
  }

  // ---------- counting while a table is cloned ----------

  /** The first n descriptors of table b have been counted for the clone d. */
  ghost predicate Counted(s: State, b: Tab, n: nat, d: Tab, ps: seq<Pipe>)
  {
    && TabShape(b) && TabShape(d) && Shape(s) && d.fds == b.fds && |ps| == PIPE_MAX
    && (forall o: nat | o < MAX_FDS :: d.ofiles[o] == b.ofiles[o].(refs := |FdsBelow(b, n, o)|))
    && (forall p: nat | p < PIPE_MAX :: ps[p] == s.pipes[p].(
        readRefs := s.pipes[p].readRefs + |EndsBelow(b, n, PipeRead, p)|,
        writeRefs := s.pipes[p].writeRefs + |EndsBelow(b, n, PipeWrite, p)|))
  }

  lemma NothingBelow(s: State, b: Tab, d: Tab)
    requires Shape(s) && TabShape(b) && TabShape(d) && d.fds == b.fds
    requires forall o: nat | o < MAX_FDS :: d.ofiles[o] == b.ofiles[o].(refs := 0)
    ensures Counted(s, b, 0, d, s.pipes)
  {
    forall o: nat
      ensures FdsBelow(b, 0, o) == {}
    {
    }
    forall kind: Kind, p: nat
      ensures EndsBelow(b, 0, kind, p) == {}
    {
    }
  }

  lemma CountNext(s: State, src: nat, i: nat, d: Tab, ps: seq<Pipe>)
    requires Inv(s) && src < MAX_TASKS && i < MAX_FDS && Counted(s, s.tabs[src], i, d, ps)
    ensures var b := s.tabs[src];
      if b.fds[i].used then
        var o := b.fds[i].ofile;
        o < MAX_FDS && Counted(s, b, i + 1, d.(ofiles := d.ofiles[o := d.ofiles[o].(refs := d.ofiles[o].refs + 1)]), PipeInc(ps, b.ofiles[o].kind, b.ofiles[o].backend))
      else Counted(s, b, i + 1, d, ps)
  {
    hide FdsBelow, EndsBelow, OFileOk, PipeOk;
    var b := s.tabs[src];
    TabsOk(s, src);
    assert FdOk(b, i);
    forall o: nat | o < MAX_FDS
      ensures |FdsBelow(b, i + 1, o)| == |FdsBelow(b, i, o)| + (if Names(b, i, o) then 1 else 0)
    {
      FdsNext(b, i, o);
    }
    forall p: nat, kind: Kind | p < PIPE_MAX
      ensures |EndsBelow(b, i + 1, kind, p)| == |EndsBelow(b, i, kind, p)| + (if IsEnd(b, i, kind, p) then 1 else 0)
    {
      EndsNext(b, i, kind, p);
    }
    if b.fds[i].used && IsPipe(b.ofiles[b.fds[i].ofile].kind) {
      EndInUse(s, src, i, b.ofiles[b.fds[i].ofile].kind, b.ofiles[b.fds[i].ofile].backend);
    }
  }

  /** With every descriptor counted, the clone equals its original and all counts are right. */
  lemma CloneCounted(s: State, s': State, dst: nat, src: nat)
    requires Inv(s) && dst < MAX_TASKS && src < MAX_TASKS && dst != src && NoFds(s.tabs[dst])
    requires Shape(s') && s'.tabs == s.tabs[dst := s'.tabs[dst]] && Counted(s, s.tabs[src], MAX_FDS, s'.tabs[dst], s'.pipes)
    ensures s'.tabs[dst] == s.tabs[src] && Inv(s') && RingsKept(s.pipes, s'.pipes)
    ensures forall p: nat | p < PIPE_MAX :: s'.pipes[p].used == s.pipes[p].used
  {
    hide IsEnd, Ends;
    var b, d := s.tabs[src], s'.tabs[dst];
    TabsOk(s, src);
    forall o: nat | o < MAX_FDS
      ensures d.ofiles[o] == b.ofiles[o]
    {
      assert OFileOk(b, o);
      assert FdsBelow(b, MAX_FDS, o) == FdsOf(b, o);
    }
    assert d.ofiles == b.ofiles;
    assert d == b;
    forall u: nat | u < MAX_TASKS
      ensures TabOk(s'.tabs[u])
    {
      TabsOk(s, u);
    }
    forall p: nat | p < PIPE_MAX
      ensures PipeOk(s', p) && s'.pipes[p].used == s.pipes[p].used
    {
      assert PipeOk(s, p);
      EndsWithTab(s, s', dst, PipeRead, p, MAX_FDS);
      EndsWithTab(s, s', dst, PipeWrite, p, MAX_FDS);
      SomeEnd(s, src, p);
    }
  }

  /** A table can only add to the ends of a pipe in use. */
  lemma SomeEnd(s: State, src: nat, p: nat)
    requires Inv(s) && src < MAX_TASKS && p < PIPE_MAX
    ensures TabShape(s.tabs[src])
    ensures !s.pipes[p].used ==> EndsBelow(s.tabs[src], MAX_FDS, PipeRead, p) == {} && EndsBelow(s.tabs[src], MAX_FDS, PipeWrite, p) == {}
  {
    forall fd: nat, kind: Kind | fd < MAX_FDS && IsPipe(kind)
      ensures !s.pipes[p].used ==> !IsEnd(s.tabs[src], fd, kind, p)
    {
      if IsEnd(s.tabs[src], fd, kind, p) {
        EndInUse(s, src, fd, kind, p);
      }
    }
  }

  // ---------- reading and writing ----------

  /** The descriptor is open on the given kind of pipe end. */
  ghost predicate IsOpenEnd(s: State, t: nat, fd: int, kind: Kind)
    requires Shape(s) && t < MAX_TASKS
  {
    0 <= fd < MAX_FDS && IsEnd(s.tabs[t], fd, kind, PipeAt(s, t, fd))
  }

  /** The pipe such a descriptor is open on. */
  function PipeAt(s: State, t: nat, fd: int): nat
  {
    if t < |s.tabs| && 0 <= fd < |s.tabs[t].fds| && s.tabs[t].fds[fd].ofile < |s.tabs[t].ofiles| then s.tabs[t].ofiles[s.tabs[t].fds[fd].ofile].backend else 0
  }

  /** What a read of `len` > 0 bytes from pipe p does and returns. */
  ghost predicate ReadsFrom(s: State, s': State, p: nat, rc: int, len: nat, got: seq<u8>, received: seq<seq<u8>>, received': seq<seq<u8>>)
  {
    && Shape(s) && Shape(s') && p < PIPE_MAX && |s.pipes[p].buf| == PIPE_CAP && |s'.pipes[p].buf| == PIPE_CAP
    && |received| == PIPE_MAX && |got| == len
    && (rc > 0 <==> RingOf(s.pipes[p]) != [])
    && rc <= len && (rc > 0 ==> rc <= |RingOf(s.pipes[p])| && (rc == len || rc == |RingOf(s.pipes[p])|))
    && (rc > 0 ==> got[..rc] == RingOf(s.pipes[p])[..rc] && RingOf(s'.pipes[p]) == RingOf(s.pipes[p])[rc..])
    && (rc > 0 ==> received' == received[p := received[p] + got[..rc]])
    && (rc == 0 <==> RingOf(s.pipes[p]) == [] && Ends(s, PipeWrite, p) == {})
    && (rc < 0 ==> rc == FD_EAGAIN)
    && OnlyPipe(s, s', p)
  }

  /** What a write of src, not empty, to pipe p does and returns. */
  ghost predicate WritesTo(s: State, s': State, p: nat, rc: int, src: seq<u8>, sent: seq<seq<u8>>, sent': seq<seq<u8>>)
  {
    && Shape(s) && Shape(s') && p < PIPE_MAX && |s.pipes[p].buf| == PIPE_CAP && |s'.pipes[p].buf| == PIPE_CAP
    && |sent| == PIPE_MAX && rc <= |src| && s.pipes[p].len <= PIPE_CAP
    && (rc == FD_EPIPE <==> Ends(s, PipeRead, p) == {})
    && (rc > 0 ==> (rc == |src| || s'.pipes[p].len == PIPE_CAP) && RingOf(s'.pipes[p]) == RingOf(s.pipes[p]) + src[..rc])
    && (rc > 0 ==> sent' == sent[p := sent[p] + src[..rc]])
    && (rc == FD_EAGAIN <==> Ends(s, PipeRead, p) != {} && s.pipes[p].len == PIPE_CAP)
    && (rc <= 0 ==> rc == FD_EPIPE || rc == FD_EAGAIN)
    && OnlyPipe(s, s', p)
  }

  /** Nothing but the ring of pipe p differs. */
  ghost predicate OnlyPipe(s: State, s': State, p: nat)
  {
    && s'.tabs == s.tabs && |s.pipes| == |s'.pipes| && p < |s.pipes|
    && s'.pipes == s.pipes[p := s.pipes[p].(head := s'.pipes[p].head, len := s'.pipes[p].len, buf := s'.pipes[p].buf)]
  }

  lemma PipesOnly(s: State, s': State, p: nat)
    requires Inv(s) && OnlyPipe(s, s', p)
    requires |s'.pipes[p].buf| == PIPE_CAP && s'.pipes[p].head < PIPE_CAP && s'.pipes[p].len <= PIPE_CAP
    ensures Inv(s')
  {
    forall q: nat | q < PIPE_MAX
      ensures PipeOk(s', q)
    {
      assert PipeOk(s, q);
      assert Ends(s', PipeRead, q) == Ends(s, PipeRead, q) && Ends(s', PipeWrite, q) == Ends(s, PipeWrite, q);
    }
  }
}
