/** Descriptor tables, open files and pipe ends: who refers to what, and the reference counts kept for it. */
module FdState {
  import opened Bytes

  const MAX_TASKS: nat := 64
  const MAX_FDS: nat := 32
  const PIPE_MAX: nat := 16
  const PIPE_CAP: nat := 256

  datatype Kind = NoFile | Stdin | Stdout | Stderr | DevNull | DevZero | DevTty | Socket | Regular | PipeRead | PipeWrite

  /** An open file; `backend` is the pipe of a pipe end. */
  datatype OFile = OFile(used: bool, refs: nat, kind: Kind, backend: nat, status: nat, fileId: nat, fileSize: nat, fileOffset: nat, isDir: bool)

  datatype FdEnt = FdEnt(used: bool, ofile: nat, cloexec: bool)

  datatype Tab = Tab(ofiles: seq<OFile>, fds: seq<FdEnt>)

  datatype Pipe = Pipe(used: bool, readRefs: nat, writeRefs: nat, head: nat, len: nat, buf: seq<u8>)

  datatype State = State(tabs: seq<Tab>, pipes: seq<Pipe>)

  const NO_OFILE := OFile(false, 0, NoFile, 0, 0, 0, 0, 0, false)
  const NO_FD := FdEnt(false, 0xFFFF_FFFF, false)

  // ---------- who refers to what ----------

  ghost predicate Shape(s: State)
  {
    |s.tabs| == MAX_TASKS && |s.pipes| == PIPE_MAX && forall t: nat | t < MAX_TASKS :: TabShape(s.tabs[t])
  }

  predicate TabShape(b: Tab) { |b.ofiles| == MAX_FDS && |b.fds| == MAX_FDS }

  /** Descriptor fd names open file o. */
  predicate Names(b: Tab, fd: nat, o: nat)
    requires TabShape(b)
  {
    fd < MAX_FDS && b.fds[fd].used && b.fds[fd].ofile == o
  }

  /** The descriptors of a table that name open file o. */
  ghost function FdsOf(b: Tab, o: nat): set<nat>
    requires TabShape(b)
  {
    set fd: nat | fd < MAX_FDS && Names(b, fd, o)
  }

  /** Descriptor fd is one of the given end of pipe p. */
  predicate IsEnd(b: Tab, fd: nat, kind: Kind, p: nat)
    requires TabShape(b)
  {
    && fd < MAX_FDS && b.fds[fd].used && b.fds[fd].ofile < MAX_FDS
    && b.ofiles[b.fds[fd].ofile].kind == kind && b.ofiles[b.fds[fd].ofile].backend == p
  }

  /** All pairs of a task and a descriptor. */
  ghost function AllFds(): (r: set<(nat, nat)>)
    ensures forall x: (nat, nat) :: x in r <==> x.0 < MAX_TASKS && x.1 < MAX_FDS
  {
    set t: nat, fd: nat | t < MAX_TASKS && fd < MAX_FDS :: (t, fd)
  }

  /** All descriptors, over all tasks, on one end of pipe p. */
  ghost function Ends(s: State, kind: Kind, p: nat): set<(nat, nat)>
    requires Shape(s)
  {
    set x | x in AllFds() && IsEnd(s.tabs[x.0], x.1, kind, p)
  }

  // ---------- invariant ----------

  /** A descriptor in use names an open file in use. */
  predicate FdOk(b: Tab, fd: nat)
    requires TabShape(b) && fd < MAX_FDS
  {
    b.fds[fd].used ==> b.fds[fd].ofile < MAX_FDS && b.ofiles[b.fds[fd].ofile].used
  }

  /** An open file counts the descriptors that name it, and is free exactly when there are none. */
  ghost predicate OFileOk(b: Tab, o: nat)
    requires TabShape(b) && o < MAX_FDS
  {
    && b.ofiles[o].refs == |FdsOf(b, o)|
    && (b.ofiles[o].used <==> b.ofiles[o].refs > 0)
    && (!b.ofiles[o].used ==> b.ofiles[o] == NO_OFILE)
    && (b.ofiles[o].kind.PipeRead? || b.ofiles[o].kind.PipeWrite? ==> b.ofiles[o].backend < PIPE_MAX)
  }

  ghost predicate TabOk(b: Tab)
  {
    && TabShape(b)
    && (forall fd: nat | fd < MAX_FDS :: FdOk(b, fd))
    && (forall o: nat | o < MAX_FDS :: OFileOk(b, o))
  }

  /** A pipe counts the descriptors on each of its ends, and is free exactly when there are none. */
  ghost predicate PipeOk(s: State, p: nat)
    requires Shape(s) && p < PIPE_MAX
  {
    && s.pipes[p].readRefs == |Ends(s, PipeRead, p)| && s.pipes[p].writeRefs == |Ends(s, PipeWrite, p)|
    && (s.pipes[p].used <==> s.pipes[p].readRefs + s.pipes[p].writeRefs > 0)
    && |s.pipes[p].buf| == PIPE_CAP && s.pipes[p].head < PIPE_CAP && s.pipes[p].len <= PIPE_CAP
  }

  ghost predicate Inv(s: State)
  {
    && Shape(s)
    && (forall t: nat | t < MAX_TASKS :: TabOk(s.tabs[t]))
    && (forall p: nat | p < PIPE_MAX :: PipeOk(s, p))
  }

  // ---------- elementary changes ----------

  predicate IsPipe(k: Kind) { k.PipeRead? || k.PipeWrite? }

  /** One more descriptor on an end of pipe p. */
  function PipeInc(pipes: seq<Pipe>, kind: Kind, p: nat): seq<Pipe>
  {
    if IsPipe(kind) && p < |pipes| && pipes[p].used then
      pipes[p := if kind.PipeRead? then pipes[p].(readRefs := pipes[p].readRefs + 1) else pipes[p].(writeRefs := pipes[p].writeRefs + 1)]
    else pipes
  }

  function Less(n: nat): nat { if n > 0 then n - 1 else 0 }

  function Freed(p: Pipe): Pipe
  {
    if p.readRefs == 0 && p.writeRefs == 0 then p.(used := false, head := 0, len := 0) else p
  }

  /** One descriptor less on an end of pipe p; the last one frees the pipe. */
  function PipeDec(pipes: seq<Pipe>, kind: Kind, p: nat): seq<Pipe>
  {
    if IsPipe(kind) && p < |pipes| && pipes[p].used then
      pipes[p := Freed(if kind.PipeRead? then pipes[p].(readRefs := Less(pipes[p].readRefs)) else pipes[p].(writeRefs := Less(pipes[p].writeRefs)))]
    else pipes
  }

  function Dropped(o: OFile): OFile
  {
    if o.refs <= 1 then NO_OFILE else o.(refs := o.refs - 1)
  }

  /** Descriptor fd of task t is closed. */
  function CloseFd(s: State, t: nat, fd: nat): State
    requires t < |s.tabs| && fd < |s.tabs[t].fds| && s.tabs[t].fds[fd].ofile < |s.tabs[t].ofiles|
  {
    var b := s.tabs[t];
    var o := b.fds[fd].ofile;
    s.(
      tabs := s.tabs[t := Tab(b.ofiles[o := Dropped(b.ofiles[o])], b.fds[fd := NO_FD])],
      pipes := PipeDec(s.pipes, b.ofiles[o].kind, b.ofiles[o].backend))
  }

  /** Free descriptor fd of task t comes to name open file o. */
  function Attach(s: State, t: nat, fd: nat, o: nat, cloexec: bool): State
    requires t < |s.tabs| && fd < |s.tabs[t].fds| && o < |s.tabs[t].ofiles|
  {
    var b := s.tabs[t];
    s.(
      tabs := s.tabs[t := Tab(b.ofiles[o := b.ofiles[o].(refs := b.ofiles[o].refs + 1)], b.fds[fd := FdEnt(true, o, cloexec)])],
      pipes := PipeInc(s.pipes, b.ofiles[o].kind, b.ofiles[o].backend))
  }

  /** Free descriptor fd of task t comes to name a new open file in the free entry o. */
  function Open(s: State, t: nat, fd: nat, o: nat, f: OFile): State
    requires t < |s.tabs| && fd < |s.tabs[t].fds| && o < |s.tabs[t].ofiles|
  {
    var b := s.tabs[t];
    s.(tabs := s.tabs[t := Tab(b.ofiles[o := f.(used := true, refs := 1)], b.fds[fd := FdEnt(true, o, false)])])
  }

  // ---------- they keep the counts ----------

  lemma AddOne<T>(a: set<T>, b: set<T>, x: T)
    requires x !in a && b == a + {x}
    ensures |b| == |a| + 1
  {
  }

  /** Sets that agree on everything but x. */
  lemma CountBut<T(!new)>(a: set<T>, b: set<T>, x: T)
    requires forall y: T | y != x :: y in a <==> y in b
    ensures |a| - (if x in a then 1 else 0) == |b| - (if x in b then 1 else 0)
  {
    var rest := a - {x};
    assert rest == b - {x};
    if x in a {
      AddOne(rest, a, x);
    } else {
      assert rest == a;
    }
    if x in b {
      AddOne(rest, b, x);
    } else {
      assert rest == b;
    }
  }

  lemma FdsAfterClose(b: Tab, fd: nat, o: nat, q: nat, f: OFile)
    requires TabShape(b) && Names(b, fd, o) && o < MAX_FDS
    ensures var b' := Tab(b.ofiles[o := f], b.fds[fd := NO_FD]);
      |FdsOf(b', q)| == |FdsOf(b, q)| - (if q == o then 1 else 0)
  {
    var b' := Tab(b.ofiles[o := f], b.fds[fd := NO_FD]);
    if q == o {
      AddOne(FdsOf(b', q), FdsOf(b, q), fd);
    } else {
      assert FdsOf(b', q) == FdsOf(b, q);
    }
  }

  lemma FdsAfterAttach(b: Tab, fd: nat, o: nat, q: nat, f: OFile, cloexec: bool)
    requires TabShape(b) && fd < MAX_FDS && !b.fds[fd].used && o < MAX_FDS
    ensures var b' := Tab(b.ofiles[o := f], b.fds[fd := FdEnt(true, o, cloexec)]);
      |FdsOf(b', q)| == |FdsOf(b, q)| + (if q == o then 1 else 0)
  {
    var b' := Tab(b.ofiles[o := f], b.fds[fd := FdEnt(true, o, cloexec)]);
    if q == o {
      AddOne(FdsOf(b, q), FdsOf(b', q), fd);
    } else {
      assert FdsOf(b', q) == FdsOf(b, q);
    }
  }

  lemma CloseKeepsTab(b: Tab, fd: nat, o: nat)
    requires TabOk(b) && Names(b, fd, o)
    ensures o < MAX_FDS && b.ofiles[o].used && TabOk(Tab(b.ofiles[o := Dropped(b.ofiles[o])], b.fds[fd := NO_FD]))
  {
    assert FdOk(b, fd);
    var b' := Tab(b.ofiles[o := Dropped(b.ofiles[o])], b.fds[fd := NO_FD]);
    assert OFileOk(b, o);
    forall q: nat | q < MAX_FDS
      ensures OFileOk(b', q)
    {
      assert OFileOk(b, q);
      FdsAfterClose(b, fd, o, q, Dropped(b.ofiles[o]));
    }
    forall g: nat | g < MAX_FDS
      ensures FdOk(b', g)
    {
      assert FdOk(b, g);
      if b'.fds[g].used && b'.fds[g].ofile == o {
        StillNamed(b, fd, g, o);
      }
    }
  }

  lemma StillNamed(b: Tab, fd: nat, g: nat, o: nat)
    requires TabOk(b) && Names(b, fd, o) && Names(b, g, o) && g != fd && o < MAX_FDS
    ensures b.ofiles[o].refs >= 2
  {
    assert OFileOk(b, o);
    assert {fd, g} <= FdsOf(b, o);
    var rest := FdsOf(b, o) - {fd};
    assert g in rest;
    AddOne(rest, FdsOf(b, o), fd);
  }

  lemma AttachKeepsTab(b: Tab, fd: nat, o: nat, cloexec: bool)
    requires TabOk(b) && fd < MAX_FDS && !b.fds[fd].used && o < MAX_FDS && b.ofiles[o].used
    ensures TabOk(Tab(b.ofiles[o := b.ofiles[o].(refs := b.ofiles[o].refs + 1)], b.fds[fd := FdEnt(true, o, cloexec)]))
  {
    var f := b.ofiles[o].(refs := b.ofiles[o].refs + 1);
    var b' := Tab(b.ofiles[o := f], b.fds[fd := FdEnt(true, o, cloexec)]);
    forall q: nat | q < MAX_FDS
      ensures OFileOk(b', q)
    {
      assert OFileOk(b, q);
      FdsAfterAttach(b, fd, o, q, f, cloexec);
    }
    forall g: nat | g < MAX_FDS
      ensures FdOk(b', g)
    {
      assert FdOk(b, g);
    }
  }

  lemma OpenKeepsTab(b: Tab, fd: nat, o: nat, f: OFile)
    requires TabOk(b) && fd < MAX_FDS && !b.fds[fd].used && o < MAX_FDS && !b.ofiles[o].used
    requires IsPipe(f.kind) ==> f.backend < PIPE_MAX
    ensures TabOk(Tab(b.ofiles[o := f.(used := true, refs := 1)], b.fds[fd := FdEnt(true, o, false)]))
  {
    var f1 := f.(used := true, refs := 1);
    var b' := Tab(b.ofiles[o := f1], b.fds[fd := FdEnt(true, o, false)]);
    forall q: nat | q < MAX_FDS
      ensures OFileOk(b', q)
    {
      assert OFileOk(b, q);
      FdsAfterAttach(b, fd, o, q, f1, false);
    }
    forall g: nat | g < MAX_FDS
      ensures FdOk(b', g)
    {
      assert FdOk(b, g);
    }
  }

  /** A change in one table changes the ends of a pipe by the descriptors of that table only. */
  ghost predicate SameEndsBut(b: Tab, b': Tab, fd: nat)
    requires TabShape(b) && TabShape(b')
  {
    forall g: nat, kind: Kind, p: nat | g < MAX_FDS && g != fd && IsPipe(kind) :: IsEnd(b', g, kind, p) <==> IsEnd(b, g, kind, p)
  }

  lemma EndsAfter(s: State, s': State, t: nat, fd: nat, kind: Kind, p: nat)
    requires Shape(s) && Shape(s') && t < MAX_TASKS && fd < MAX_FDS && IsPipe(kind)
    requires s'.tabs == s.tabs[t := s'.tabs[t]] && SameEndsBut(s.tabs[t], s'.tabs[t], fd)
    ensures |Ends(s', kind, p)| - (if IsEnd(s'.tabs[t], fd, kind, p) then 1 else 0)
      == |Ends(s, kind, p)| - (if IsEnd(s.tabs[t], fd, kind, p) then 1 else 0)
  {
    hide IsEnd;
    forall y: (nat, nat) | y != (t, fd)
      ensures y in Ends(s', kind, p) <==> y in Ends(s, kind, p)
    {
      if y.0 == t && y.1 < MAX_FDS {
        assert IsEnd(s'.tabs[t], y.1, kind, p) <==> IsEnd(s.tabs[t], y.1, kind, p);
      }
    }
    CountBut(Ends(s', kind, p), Ends(s, kind, p), (t, fd));
  }

  lemma CloseSameEnds(b: Tab, fd: nat, o: nat)
    requires TabOk(b) && Names(b, fd, o)
    ensures o < MAX_FDS && SameEndsBut(b, Tab(b.ofiles[o := Dropped(b.ofiles[o])], b.fds[fd := NO_FD]), fd)
  {
    assert FdOk(b, fd);
    var b' := Tab(b.ofiles[o := Dropped(b.ofiles[o])], b.fds[fd := NO_FD]);
    forall g: nat, kind: Kind, p: nat | g < MAX_FDS && g != fd && IsPipe(kind)
      ensures IsEnd(b', g, kind, p) <==> IsEnd(b, g, kind, p)
    {
      if b.fds[g].used && b.fds[g].ofile == o {
        StillNamed(b, fd, g, o);
      }
    }
  }

  lemma TabsOk(s: State, t: nat)
    requires Inv(s) && t < MAX_TASKS
    ensures TabOk(s.tabs[t])
  {
  }

  /** Closing a descriptor keeps every count right. */
  lemma CloseKeeps(s: State, t: nat, fd: nat)
    requires Inv(s) && t < MAX_TASKS && fd < MAX_FDS && s.tabs[t].fds[fd].used
    ensures s.tabs[t].fds[fd].ofile < MAX_FDS && Inv(CloseFd(s, t, fd))
  {
    var b := s.tabs[t];
    var o := b.fds[fd].ofile;
    TabsOk(s, t);
    CloseKeepsTab(b, fd, o);
    CloseSameEnds(b, fd, o);
    var s' := CloseFd(s, t, fd);
    forall u: nat | u < MAX_TASKS
      ensures TabOk(s'.tabs[u])
    {
      TabsOk(s, u);
    }
    forall p: nat | p < PIPE_MAX
      ensures PipeOk(s', p)
    {
      assert PipeOk(s, p);
      EndsAfter(s, s', t, fd, PipeRead, p);
      EndsAfter(s, s', t, fd, PipeWrite, p);
    }
  }

  lemma AttachSameEnds(b: Tab, fd: nat, o: nat, f: OFile, cloexec: bool)
    requires TabShape(b) && fd < MAX_FDS && o < MAX_FDS
    requires (f.kind == b.ofiles[o].kind && f.backend == b.ofiles[o].backend) || (TabOk(b) && !b.ofiles[o].used)
    ensures SameEndsBut(b, Tab(b.ofiles[o := f], b.fds[fd := FdEnt(true, o, cloexec)]), fd)
  {
    var b' := Tab(b.ofiles[o := f], b.fds[fd := FdEnt(true, o, cloexec)]);
    forall g: nat, kind: Kind, p: nat | g < MAX_FDS && g != fd && IsPipe(kind)
      ensures IsEnd(b', g, kind, p) <==> IsEnd(b, g, kind, p)
    {
      assert TabOk(b) ==> FdOk(b, g);
    }
  }

  /** A pipe end in use belongs to a pipe in use. */
  lemma EndInUse(s: State, t: nat, fd: nat, kind: Kind, p: nat)
    requires Inv(s) && t < MAX_TASKS && IsEnd(s.tabs[t], fd, kind, p) && IsPipe(kind)
    ensures p < PIPE_MAX && s.pipes[p].used
    ensures kind.PipeRead? ==> s.pipes[p].readRefs > 0
    ensures kind.PipeWrite? ==> s.pipes[p].writeRefs > 0
  {
    TabsOk(s, t);
    assert FdOk(s.tabs[t], fd) && OFileOk(s.tabs[t], s.tabs[t].fds[fd].ofile);
    assert PipeOk(s, p);
    assert (t, fd) in Ends(s, kind, p);
    if Ends(s, kind, p) == {} {
      assert false;
    }
  }

  /** Duplicating descriptor `from` into a free one keeps every count right. */
  lemma AttachKeeps(s: State, t: nat, fd: nat, from: nat, cloexec: bool)
    requires Inv(s) && t < MAX_TASKS && fd < MAX_FDS && !s.tabs[t].fds[fd].used && from < MAX_FDS && s.tabs[t].fds[from].used
    ensures s.tabs[t].fds[from].ofile < MAX_FDS && Inv(Attach(s, t, fd, s.tabs[t].fds[from].ofile, cloexec))
  {
    var b := s.tabs[t];
    TabsOk(s, t);
    assert FdOk(b, from);
    var o := b.fds[from].ofile;
    var f := b.ofiles[o].(refs := b.ofiles[o].refs + 1);
    AttachKeepsTab(b, fd, o, cloexec);
    AttachSameEnds(b, fd, o, f, cloexec);
    var s' := Attach(s, t, fd, o, cloexec);
    if IsPipe(f.kind) {
      EndInUse(s, t, from, f.kind, f.backend);
    }
    forall u: nat | u < MAX_TASKS
      ensures TabOk(s'.tabs[u])
    {
      TabsOk(s, u);
    }
    forall p: nat | p < PIPE_MAX
      ensures PipeOk(s', p)
    {
      assert PipeOk(s, p);
      EndsAfter(s, s', t, fd, PipeRead, p);
      EndsAfter(s, s', t, fd, PipeWrite, p);
    }
  }

  /** Opening anything but a pipe keeps every count right. */
  lemma OpenKeeps(s: State, t: nat, fd: nat, o: nat, f: OFile)
    requires Inv(s) && t < MAX_TASKS && fd < MAX_FDS && !s.tabs[t].fds[fd].used && o < MAX_FDS && !s.tabs[t].ofiles[o].used
    requires !IsPipe(f.kind)
    ensures Inv(Open(s, t, fd, o, f))
  {
    var b := s.tabs[t];
    TabsOk(s, t);
    OpenKeepsTab(b, fd, o, f);
    AttachSameEnds(b, fd, o, f.(used := true, refs := 1), false);
    var s' := Open(s, t, fd, o, f);
    forall u: nat | u < MAX_TASKS
      ensures TabOk(s'.tabs[u])
    {
      TabsOk(s, u);
    }
    forall p: nat | p < PIPE_MAX
      ensures PipeOk(s', p)
    {
      assert PipeOk(s, p);
      EndsAfter(s, s', t, fd, PipeRead, p);
      EndsAfter(s, s', t, fd, PipeWrite, p);
    }
  }

  function EndOf(kind: Kind, p: nat): OFile
  {
    OFile(true, 1, kind, p, if kind.PipeWrite? then 1 else 0, 0, 0, 0, false)
  }

  /** A new pipe p: its two ends in the free entries ro and wo, named by the free descriptors rfd and wfd. */
  function OpenPipe(s: State, t: nat, rfd: nat, ro: nat, wfd: nat, wo: nat, p: nat): State
    requires t < |s.tabs| && rfd < |s.tabs[t].fds| && wfd < |s.tabs[t].fds|
    requires ro < |s.tabs[t].ofiles| && wo < |s.tabs[t].ofiles| && p < |s.pipes|
  {
    Open(Open(s, t, rfd, ro, EndOf(PipeRead, p)), t, wfd, wo, EndOf(PipeWrite, p)).(
      pipes := s.pipes[p := Pipe(true, 1, 1, 0, 0, s.pipes[p].buf)])
  }

  lemma FreePipeHasNoEnds(s: State, p: nat, kind: Kind)
    requires Inv(s) && p < PIPE_MAX && !s.pipes[p].used && IsPipe(kind)
    ensures Ends(s, kind, p) == {}
  {
    assert PipeOk(s, p);
    forall t: nat, fd: nat | t < MAX_TASKS && fd < MAX_FDS
      ensures !IsEnd(s.tabs[t], fd, kind, p)
    {
      if IsEnd(s.tabs[t], fd, kind, p) {
        EndInUse(s, t, fd, kind, p);
      }
    }
  }

  lemma OpenPipeKeeps(s: State, t: nat, rfd: nat, ro: nat, wfd: nat, wo: nat, p: nat)
    requires Inv(s) && t < MAX_TASKS && rfd < wfd < MAX_FDS && !s.tabs[t].fds[rfd].used && !s.tabs[t].fds[wfd].used
    requires ro < MAX_FDS && wo < MAX_FDS && ro != wo && !s.tabs[t].ofiles[ro].used && !s.tabs[t].ofiles[wo].used
    requires p < PIPE_MAX && !s.pipes[p].used
    ensures Inv(OpenPipe(s, t, rfd, ro, wfd, wo, p))
  {
    var b := s.tabs[t];
    TabsOk(s, t);
    OpenKeepsTab(b, rfd, ro, EndOf(PipeRead, p));
    AttachSameEnds(b, rfd, ro, EndOf(PipeRead, p), false);
    var s1 := Open(s, t, rfd, ro, EndOf(PipeRead, p));
    OpenKeepsTab(s1.tabs[t], wfd, wo, EndOf(PipeWrite, p));
    AttachSameEnds(s1.tabs[t], wfd, wo, EndOf(PipeWrite, p), false);
    var s' := OpenPipe(s, t, rfd, ro, wfd, wo, p);
    forall u: nat | u < MAX_TASKS
      ensures TabOk(s'.tabs[u])
    {
      TabsOk(s, u);
    }
    FreePipeHasNoEnds(s, p, PipeRead);
    FreePipeHasNoEnds(s, p, PipeWrite);
    forall q: nat | q < PIPE_MAX
      ensures PipeOk(s', q)
    {
      assert PipeOk(s, q);
      EndsAfter(s, s1, t, rfd, PipeRead, q);
      EndsAfter(s, s1, t, rfd, PipeWrite, q);
      EndsAfter(s1, s', t, wfd, PipeRead, q);
      EndsAfter(s1, s', t, wfd, PipeWrite, q);
    }
  }

  // ---------- cloning a table ----------

  // ---------- room in a table ----------

  function Below(n: nat): (r: set<nat>)
    ensures |r| == n && forall i: nat :: i in r <==> i < n
  {
    if n == 0 then {} else Below(n - 1) + {n - 1}
  }

  ghost function UsedFiles(b: Tab, n: nat): set<nat>
    requires TabShape(b)
  {
    set o: nat | o < MAX_FDS && o < n && b.ofiles[o].used
  }

  /** The descriptors that name one of the first n open files. */
  ghost function Naming(b: Tab, n: nat): set<nat>
    requires TabShape(b)
  {
    set fd: nat | fd < MAX_FDS && b.fds[fd].used && b.fds[fd].ofile < n
  }

  lemma NamingNext(b: Tab, n: nat)
    requires TabShape(b)
    ensures |Naming(b, n + 1)| == |Naming(b, n)| + |FdsOf(b, n)|
  {
    assert Naming(b, n + 1) == Naming(b, n) + FdsOf(b, n);
    assert Naming(b, n) !! FdsOf(b, n);
  }

  lemma UsedFilesNext(b: Tab, n: nat)
    requires TabShape(b) && n < MAX_FDS
    ensures |UsedFiles(b, n + 1)| == |UsedFiles(b, n)| + (if b.ofiles[n].used then 1 else 0)
  {
    if b.ofiles[n].used {
      AddOne(UsedFiles(b, n), UsedFiles(b, n + 1), n);
    } else {
      assert UsedFiles(b, n + 1) == UsedFiles(b, n);
    }
  }

  /** Every open file in use is named by a descriptor of its own. */
  lemma {:induction false} FilesAreNamed(b: Tab, n: nat)
    requires TabOk(b) && n <= MAX_FDS
    ensures |UsedFiles(b, n)| <= |Naming(b, n)|
  {
    hide Naming, FdsOf, FdOk;
    if n == 0 {
      assert UsedFiles(b, 0) == {};
    } else {
      hide UsedFiles;
      FilesAreNamed(b, n - 1);
      assert OFileOk(b, n - 1);
      NamingNext(b, n - 1);
      UsedFilesNext(b, n - 1);
    }
  }

  lemma MostUsed(b: Tab, taken: int)
    requires TabShape(b) && forall o: nat | o < MAX_FDS && o != taken :: b.ofiles[o].used
    ensures |UsedFiles(b, MAX_FDS)| >= MAX_FDS - (if taken < 0 then 0 else 1)
  {
    hide Below;
    Fewer(Below(MAX_FDS) - (if taken < 0 then {} else {taken}), UsedFiles(b, MAX_FDS));
  }

  /** Open files never run out before descriptors: while r is free there is a free entry, while r and w are there is one besides `taken`. */
  lemma OFileIsFree(b: Tab, r: nat, w: nat, taken: int)
    requires TabOk(b) && r < MAX_FDS && w < MAX_FDS && !b.fds[r].used && !b.fds[w].used
    requires taken < 0 || r != w
    ensures exists o: nat :: o < MAX_FDS && o != taken && !b.ofiles[o].used
  {
    hide UsedFiles, Naming, FdOk, OFileOk;
    if forall o: nat | o < MAX_FDS && o != taken :: b.ofiles[o].used {
      MostUsed(b, taken);
    }
    FilesAreNamed(b, MAX_FDS);
    NamingBound(b, if r == w then {r} else {r, w});
  }

  lemma NamingBound(b: Tab, free: set<nat>)
    requires TabShape(b) && forall fd: nat | fd in free :: fd < MAX_FDS && !b.fds[fd].used
    ensures |Naming(b, MAX_FDS)| <= MAX_FDS - |free|
  {
    hide Below;
    Fewer(Naming(b, MAX_FDS), Below(MAX_FDS) - free);
    assert free <= Below(MAX_FDS);
    assert |Below(MAX_FDS) - free| == MAX_FDS - |free|;
  }

  lemma {:induction false} Fewer<T>(a: set<T>, b: set<T>)
    requires a <= b
    ensures |a| <= |b|
    decreases |a|
  {
    if a != {} {
      var x :| x in a;
      Fewer(a - {x}, b - {x});
    }
  }

  /** No descriptor of the table is in use. */
  predicate NoFds(b: Tab)
    requires TabShape(b)
  {
    forall fd: nat | fd < MAX_FDS :: !b.fds[fd].used
  }

  /** The descriptors below n on an end of pipe p. */
  ghost function EndsBelow(b: Tab, n: nat, kind: Kind, p: nat): set<nat>
    requires TabShape(b)
  {
    set fd: nat | fd < MAX_FDS && fd < n && IsEnd(b, fd, kind, p)
  }

  ghost function FdsBelow(b: Tab, n: nat, o: nat): set<nat>
    requires TabShape(b)
  {
    set fd: nat | fd < MAX_FDS && fd < n && Names(b, fd, o)
  }

  lemma EndsNext(b: Tab, n: nat, kind: Kind, p: nat)
    requires TabShape(b) && n < MAX_FDS
    ensures |EndsBelow(b, n + 1, kind, p)| == |EndsBelow(b, n, kind, p)| + (if IsEnd(b, n, kind, p) then 1 else 0)
  {
    hide IsEnd;
    if IsEnd(b, n, kind, p) {
      AddOne(EndsBelow(b, n, kind, p), EndsBelow(b, n + 1, kind, p), n);
    } else {
      assert EndsBelow(b, n + 1, kind, p) == EndsBelow(b, n, kind, p);
    }
  }

  lemma FdsNext(b: Tab, n: nat, o: nat)
    requires TabShape(b) && n < MAX_FDS
    ensures |FdsBelow(b, n + 1, o)| == |FdsBelow(b, n, o)| + (if Names(b, n, o) then 1 else 0)
  {
    hide Names;
    if Names(b, n, o) {
      AddOne(FdsBelow(b, n, o), FdsBelow(b, n + 1, o), n);
    } else {
      assert FdsBelow(b, n + 1, o) == FdsBelow(b, n, o);
    }
  }

  /** What task t's table contributes to the ends of pipe p. */
  lemma EndsWithTab(s: State, s': State, t: nat, kind: Kind, p: nat, n: nat)
    requires Shape(s) && Shape(s') && t < MAX_TASKS && s'.tabs == s.tabs[t := s'.tabs[t]] && NoFds(s.tabs[t])
    requires IsPipe(kind) && n <= MAX_FDS && forall fd: nat | n <= fd < MAX_FDS :: !s'.tabs[t].fds[fd].used
    ensures |Ends(s', kind, p)| == |Ends(s, kind, p)| + |EndsBelow(s'.tabs[t], n, kind, p)|
    decreases n
  {
    var b := s'.tabs[t];
    if n == 0 {
      forall x: (nat, nat)
        ensures x in Ends(s', kind, p) <==> x in Ends(s, kind, p)
      {
      }
      assert Ends(s', kind, p) == Ends(s, kind, p);
      assert EndsBelow(b, n, kind, p) == {};
    } else {
      var b1 := b.(fds := b.fds[n - 1 := NO_FD]);
      var s1 := s'.(tabs := s'.tabs[t := b1]);
      EndsWithTab(s, s1, t, kind, p, n - 1);
      forall g: nat, k: Kind, q: nat | g < MAX_FDS && g != n - 1 && IsPipe(k)
        ensures IsEnd(b1, g, k, q) <==> IsEnd(b, g, k, q)
      {
      }
      assert EndsBelow(b1, n - 1, kind, p) == EndsBelow(b, n - 1, kind, p);
      EndsNext(b, n - 1, kind, p);
      EndsAfter(s', s1, t, n - 1, kind, p);
    }
  }
}
